/**
 * The directory walk of a rescan (scan_pdfs_and_populate_db and its nested
 * insert_scanned_item), stated as the sequence of LibraryItem rows it inserts.
 * The filesystem is an abstract tree whose child order is os.listdir's order;
 * ids are the consecutive AUTOINCREMENT values handed out from `next` on.
 */
module Scan {
  import opened Wrappers
  import opened Rows
  import opened Paths
  import opened Seqs

  /** A directory entry: a non-directory file, or a directory with its listing. */
  datatype FsEntry = File(name: string) | Dir(name: string, entries: seq<FsEntry>)

  /** The relative path of an entry named `name` inside the directory whose relative path is `dir`. */
  function ChildPath(dir: string, name: string): string {
    if dir == [] then name else PathJoin(dir, name)
  }

  /** The rows inserted for entry e, stored under relative path rel and parent id `parent`. */
  function EntryRows(e: FsEntry, rel: string, parent: nat, next: nat): seq<Item>
    decreases e
  {
    match e
    case File(n) =>
      if EndsWithPdf(n) then [Item(next, n, Pdf, Some(parent), Some(rel), map[])] else []
    case Dir(n, es) =>
      [Item(next, n, Folder, Some(parent), None, map[])] + ForestRows(es, rel, next, next + 1)
  }

  /** The rows inserted for a directory listing es of the folder with relative path dir and id parent. */
  function ForestRows(es: seq<FsEntry>, dir: string, parent: nat, next: nat): seq<Item>
    decreases es
  {
    if es == [] then []
    else
      var head := EntryRows(es[0], ChildPath(dir, es[0].name), parent, next);
      head + ForestRows(es[1..], dir, parent, next + |head|)
  }

  /**
   * One iteration of a listing loop: the rows still to come from entry i on are
   * entry i's rows, then the rows of the entries after it, numbered on from there.
   */
  lemma ForestLoopStep(before: seq<Item>, after: seq<Item>, es: seq<FsEntry>, i: nat, dir: string, parent: nat, next: nat, next2: nat)
    requires i < |es|
    requires after == before + EntryRows(es[i], ChildPath(dir, es[i].name), parent, next)
    requires next2 == next + |EntryRows(es[i], ChildPath(dir, es[i].name), parent, next)|
    ensures after + ForestRows(es[i + 1..], dir, parent, next2) == before + ForestRows(es[i..], dir, parent, next)
    ensures next2 + |ForestRows(es[i + 1..], dir, parent, next2)| == next + |ForestRows(es[i..], dir, parent, next)|
  {
    var e := EntryRows(es[i], ChildPath(dir, es[i].name), parent, next);
    var rest := ForestRows(es[i + 1..], dir, parent, next2);
    DropOne(es, i);
    assert ForestRows(es[i..], dir, parent, next) == e + rest;
    AppendAssoc(before, e, rest);
  }

  /** The first id AUTOINCREMENT hands out after Root (id 1) was inserted explicitly. */
  function StartId(lastSeq: nat): nat {
    (if lastSeq < 1 then 1 else lastSeq) + 1
  }

  /**
   * The LibraryItem table after a scan. `listing` is None when the storage path
   * is unset or not a directory, else the listing of the storage directory.
   */
  function ScannedTable(listing: Option<seq<FsEntry>>, lastSeq: nat): seq<Item> {
    [RootItem] + (if listing.Some? then ForestRows(listing.value, "", RootId, StartId(lastSeq)) else [])
  }

  /**
   * The AUTOINCREMENT counter after a scan: Root's explicit id 1 raises it to at
   * least 1, and every row the walk inserts advances it by one.
   */
  function ScanCounter(listing: Option<seq<FsEntry>>, lastSeq: nat): (r: nat)
    ensures r >= 1 && r >= lastSeq
    ensures StartId(lastSeq) <= StartId(r)
    ensures StartId(r) == StartId(lastSeq) + |ScannedTable(listing, lastSeq)| - 1
  {
    StartId(lastSeq) - 2 + |ScannedTable(listing, lastSeq)|
  }

  // ---------------------------------------------------------------------------
  // Shape of the inserted rows

  /** Row k carries id next + k. */
  predicate IdsFrom(rows: seq<Item>, next: nat) {
    forall k :: 0 <= k < |rows| ==> rows[k].id == next + k
  }

  /** Row k's parent is the top folder, or a folder row inserted before it. */
  predicate ParentOk(rows: seq<Item>, k: nat, top: nat, next: nat)
    requires k < |rows|
  {
    rows[k].parentId.Some? &&
    (rows[k].parentId.value == top ||
     (next <= rows[k].parentId.value < next + k && rows[rows[k].parentId.value - next].kind == Folder))
  }

  /** Every row's parent is the top folder, or a folder row inserted before it. */
  predicate ParentsWithin(rows: seq<Item>, top: nat, next: nat) {
    forall k :: 0 <= k < |rows| ==> ParentOk(rows, k, top, next)
  }

  /**
   * Only documents carry a pdf_url, a document's name ends in ".pdf", and no
   * metadata is set. Which directories the folder rows stand for is stated by
   * ForestFolders, which documents there are by ForestUrls.
   */
  predicate WellClassified(rows: seq<Item>) {
    forall k :: 0 <= k < |rows| ==>
      (rows[k].kind == Folder <==> rows[k].pdfUrl.None?) &&
      (rows[k].kind == Pdf ==> EndsWithPdf(rows[k].name)) &&
      rows[k].meta == map[]
  }

  predicate Shaped(rows: seq<Item>, top: nat, next: nat) {
    IdsFrom(rows, next) && ParentsWithin(rows, top, next) && WellClassified(rows)
  }

  lemma ShapedConcat(h: seq<Item>, t: seq<Item>, top: nat, next: nat)
    requires Shaped(h, top, next) && Shaped(t, top, next + |h|)
    ensures Shaped(h + t, top, next)
  {
    var r := h + t;
    forall k | 0 <= k < |r| ensures r[k] == if k < |h| then h[k] else t[k - |h|] { }
    assert IdsFrom(r, next);
    assert WellClassified(r);
    ParentsConcat(h, t, top, next);
  }

  lemma ParentsConcat(h: seq<Item>, t: seq<Item>, top: nat, next: nat)
    requires ParentsWithin(h, top, next) && ParentsWithin(t, top, next + |h|)
    ensures ParentsWithin(h + t, top, next)
  {
    var r := h + t;
    forall k | 0 <= k < |r|
      ensures ParentOk(r, k, top, next)
    {
      if k < |h| {
        assert ParentOk(h, k, top, next);
        assert r[k] == h[k];
        var p := r[k].parentId.value;
        if p != top { assert r[p - next] == h[p - next]; }
      } else {
        assert ParentOk(t, k - |h|, top, next + |h|);
        assert r[k] == t[k - |h|];
        var p := r[k].parentId.value;
        if p != top { assert r[p - next] == t[p - next - |h|]; }
      }
    }
  }

  lemma {:induction false} EntryShape(e: FsEntry, rel: string, parent: nat, next: nat)
    ensures Shaped(EntryRows(e, rel, parent, next), parent, next)
    decreases e
  {
    match e
    case File(n) =>
    case Dir(n, es) =>
      ForestShape(es, rel, next, next + 1);
      DirShape(n, es, rel, parent, next);
  }

  /** A folder row followed by its shaped listing is shaped. */
  lemma DirShape(n: string, es: seq<FsEntry>, rel: string, parent: nat, next: nat)
    requires Shaped(ForestRows(es, rel, next, next + 1), next, next + 1)
    ensures Shaped(EntryRows(Dir(n, es), rel, parent, next), parent, next)
  {
    var f := Item(next, n, Folder, Some(parent), None, map[]);
    var s := ForestRows(es, rel, next, next + 1);
    assert EntryRows(Dir(n, es), rel, parent, next) == [f] + s;
    ConsShaped(f, s, parent, next);
  }

  lemma ConsShaped(f: Item, s: seq<Item>, parent: nat, next: nat)
    requires f.id == next && f.parentId == Some(parent) && f.kind == Folder && f.pdfUrl.None? && f.meta == map[]
    requires Shaped(s, next, next + 1)
    ensures Shaped([f] + s, parent, next)
  {
    var r := [f] + s;
    forall k | 1 <= k < |r| ensures r[k] == s[k - 1] { }
    assert IdsFrom(r, next);
    assert WellClassified(r);
    ConsParents(f, s, parent, next);
  }

  lemma ConsParents(f: Item, s: seq<Item>, parent: nat, next: nat)
    requires f.id == next && f.parentId == Some(parent) && f.kind == Folder
    requires ParentsWithin(s, next, next + 1)
    ensures ParentsWithin([f] + s, parent, next)
  {
    var r := [f] + s;
    forall k | 0 <= k < |r|
      ensures ParentOk(r, k, parent, next)
    {
      if k > 0 {
        assert ParentOk(s, k - 1, next, next + 1);
        assert r[k] == s[k - 1];
        var p := s[k - 1].parentId.value;
        if p != next {
          assert r[p - next] == s[p - next - 1];
        }
      }
    }
  }

  lemma {:induction false} ForestShape(es: seq<FsEntry>, dir: string, parent: nat, next: nat)
    ensures Shaped(ForestRows(es, dir, parent, next), parent, next)
    decreases es
  {
    if es != [] {
      var h := EntryRows(es[0], ChildPath(dir, es[0].name), parent, next);
      EntryShape(es[0], ChildPath(dir, es[0].name), parent, next);
      ForestShape(es[1..], dir, parent, next + |h|);
      ShapedConcat(h, ForestRows(es[1..], dir, parent, next + |h|), parent, next);
    }
  }

  /**
   * After every scan the table starts with the Root folder (id 1, no parent),
   * ids are unique and every parent link points to an earlier folder row,
   * whether or not the storage directory could be walked.
   */
  lemma ScannedTableShape(listing: Option<seq<FsEntry>>, lastSeq: nat)
    ensures var t := ScannedTable(listing, lastSeq);
      t[0] == RootItem && UniqueIds(t) && ParentBeforeChild(t) &&
      (forall k :: 1 <= k < |t| ==>
         (t[k].parentId.Some? && t[k].id > lastSeq &&
          (t[k].parentId.value == RootId ||
           exists j :: 1 <= j < k && t[j].id == t[k].parentId.value && t[j].kind == Folder)))
    ensures var t := ScannedTable(listing, lastSeq);
      forall k :: 1 <= k < |t| ==> t[k].id == StartId(lastSeq) + k - 1
    ensures listing.None? ==> ScannedTable(listing, lastSeq) == [RootItem]
  {
    var t := ScannedTable(listing, lastSeq);
    if listing.Some? {
      var start := StartId(lastSeq);
      var f := ForestRows(listing.value, "", RootId, start);
      ForestShape(listing.value, "", RootId, start);
      assert t == [RootItem] + f;
      forall k | 1 <= k < |t|
        ensures t[k] == f[k - 1] && t[k].id == start + k - 1 && ParentOk(f, k - 1, RootId, start)
      {
      }
      forall k | 1 <= k < |t| && t[k].parentId.value != RootId
        ensures exists j :: 1 <= j < k && t[j].id == t[k].parentId.value && t[j].kind == Folder
      {
        var j := t[k].parentId.value - start + 1;
        assert t[j] == f[j - 1];
      }
    }
  }

  // ---------------------------------------------------------------------------
  // Relative paths

  /**
   * The index of the row that row k's parent link points to, in a table whose
   * row j has id next + j; -1 when the parent is not a row of the table.
   */
  function ParentIndex(rows: seq<Item>, k: nat, next: nat): int
    requires k < |rows|
  {
    var p := rows[k].parentId;
    if p.Some? && next <= p.value < next + k then p.value - next else -1
  }

  /**
   * The relative path of row k rebuilt from the table alone: its name joined
   * onto the path of its parent row, or onto `dir` when its parent is outside.
   */
  ghost function PathOf(rows: seq<Item>, k: nat, dir: string, next: nat): string
    requires k < |rows|
    decreases k
  {
    var j := ParentIndex(rows, k, next);
    if 0 <= j < k then ChildPath(PathOf(rows, j, dir, next), rows[k].name)
    else ChildPath(dir, rows[k].name)
  }

  /** Every document row stores the relative path its folder chain spells out. */
  ghost predicate UrlsArePaths(rows: seq<Item>, dir: string, next: nat) {
    forall k :: 0 <= k < |rows| && rows[k].kind == Pdf ==> rows[k].pdfUrl == Some(PathOf(rows, k, dir, next))
  }

  lemma {:induction false} PathOfPrefix(h: seq<Item>, t: seq<Item>, k: nat, dir: string, next: nat)
    requires k < |h|
    ensures PathOf(h + t, k, dir, next) == PathOf(h, k, dir, next)
    decreases k
  {
    var r := h + t;
    assert r[k] == h[k];
    var j := ParentIndex(h, k, next);
    assert ParentIndex(r, k, next) == j;
    if 0 <= j < k { PathOfPrefix(h, t, j, dir, next); }
  }

  /** The rows after a prefix h see the same paths when their parents never point into h. */
  lemma {:induction false} PathOfSuffix(h: seq<Item>, t: seq<Item>, k: nat, dir: string, top: nat, next: nat)
    requires k < |t|
    requires top < next
    requires ParentsWithin(t, top, next + |h|)
    ensures PathOf(h + t, |h| + k, dir, next) == PathOf(t, k, dir, next + |h|)
    decreases k
  {
    var r := h + t;
    assert r[|h| + k] == t[k];
    var j := ParentIndex(t, k, next + |h|);
    if 0 <= j < k {
      assert ParentIndex(r, |h| + k, next) == |h| + j;
      PathOfSuffix(h, t, j, dir, top, next);
    } else {
      assert ParentOk(t, k, top, next + |h|);
      assert t[k].parentId.value == top;
      assert ParentIndex(r, |h| + k, next) == -1;
    }
  }

  /** The rows of a folder's listing, placed after the folder row, see the folder's path as their dir. */
  lemma {:induction false} PathOfUnderFolder(f: Item, s: seq<Item>, k: nat, dir: string, rel: string, next: nat)
    requires k < |s|
    requires f.id == next && f.parentId.Some? && f.parentId.value < next
    requires ChildPath(dir, f.name) == rel
    requires ParentsWithin(s, next, next + 1)
    ensures PathOf([f] + s, 1 + k, dir, next) == PathOf(s, k, rel, next + 1)
    decreases k
  {
    var r := [f] + s;
    assert r[1 + k] == s[k];
    assert r[0] == f;
    assert ParentIndex(r, 0, next) == -1;
    assert PathOf(r, 0, dir, next) == rel;
    var j := ParentIndex(s, k, next + 1);
    if 0 <= j < k {
      assert ParentIndex(r, 1 + k, next) == 1 + j;
      PathOfUnderFolder(f, s, j, dir, rel, next);
    } else {
      assert ParentOk(s, k, next, next + 1);
      assert s[k].parentId.value == next;
      assert ParentIndex(r, 1 + k, next) == 0;
    }
  }

  lemma {:induction false} EntryPaths(e: FsEntry, dir: string, parent: nat, next: nat)
    requires parent < next
    ensures UrlsArePaths(EntryRows(e, ChildPath(dir, e.name), parent, next), dir, next)
    decreases e
  {
    var rel := ChildPath(dir, e.name);
    match e
    case File(n) =>
      if EndsWithPdf(n) {
        assert ParentIndex(EntryRows(e, rel, parent, next), 0, next) == -1;
      }
    case Dir(n, es) =>
      ForestShape(es, rel, next, next + 1);
      ForestPaths(es, rel, next, next + 1);
      DirUrlsArePaths(n, es, dir, parent, next);
  }

  /** A folder row followed by its listing's rows, whose paths are relative to the folder's path. */
  lemma DirUrlsArePaths(n: string, es: seq<FsEntry>, dir: string, parent: nat, next: nat)
    requires parent < next
    requires ParentsWithin(ForestRows(es, ChildPath(dir, n), next, next + 1), next, next + 1)
    requires UrlsArePaths(ForestRows(es, ChildPath(dir, n), next, next + 1), ChildPath(dir, n), next + 1)
    ensures UrlsArePaths(EntryRows(Dir(n, es), ChildPath(dir, n), parent, next), dir, next)
  {
    var rel := ChildPath(dir, n);
    var f := Item(next, n, Folder, Some(parent), None, map[]);
    var s := ForestRows(es, rel, next, next + 1);
    var r := [f] + s;
    assert EntryRows(Dir(n, es), rel, parent, next) == r;
    forall k | 1 <= k < |r| && r[k].kind == Pdf
      ensures r[k].pdfUrl == Some(PathOf(r, k, dir, next))
    {
      assert r[k] == s[k - 1];
      PathOfUnderFolder(f, s, k - 1, dir, rel, next);
    }
  }

  lemma {:induction false} ForestPaths(es: seq<FsEntry>, dir: string, parent: nat, next: nat)
    requires parent < next
    ensures UrlsArePaths(ForestRows(es, dir, parent, next), dir, next)
    decreases es
  {
    if es != [] {
      var h := EntryRows(es[0], ChildPath(dir, es[0].name), parent, next);
      var t := ForestRows(es[1..], dir, parent, next + |h|);
      EntryPaths(es[0], dir, parent, next);
      ForestPaths(es[1..], dir, parent, next + |h|);
      ForestShape(es[1..], dir, parent, next + |h|);
      ConcatPaths(h, t, dir, parent, next);
    }
  }

  /** Paths survive concatenation when the second part links only to `top` or into itself. */
  lemma ConcatPaths(h: seq<Item>, t: seq<Item>, dir: string, top: nat, next: nat)
    requires top < next
    requires UrlsArePaths(h, dir, next) && UrlsArePaths(t, dir, next + |h|)
    requires ParentsWithin(t, top, next + |h|)
    ensures UrlsArePaths(h + t, dir, next)
  {
    var r := h + t;
    forall k | 0 <= k < |r| && r[k].kind == Pdf
      ensures r[k].pdfUrl == Some(PathOf(r, k, dir, next))
    {
      if k < |h| {
        assert r[k] == h[k];
        PathOfPrefix(h, t, k, dir, next);
      } else {
        assert r[k] == t[k - |h|];
        PathOfSuffix(h, t, k - |h|, dir, top, next);
      }
    }
  }

  /**
   * In the scanned table, a document row directly under Root stores its bare
   * name, and every document row stores its parent folder's path joined with
   * its own name, all the way up to Root.
   */
  lemma ScannedUrlsArePaths(es: seq<FsEntry>, lastSeq: nat)
    ensures UrlsArePaths(ForestRows(es, "", RootId, StartId(lastSeq)), "", StartId(lastSeq))
    ensures forall k :: 0 <= k < |ForestRows(es, "", RootId, StartId(lastSeq))| ==>
      var row := ForestRows(es, "", RootId, StartId(lastSeq))[k];
      row.kind == Pdf && row.parentId == Some(RootId) ==> row.pdfUrl == Some(row.name)
  {
    var start := StartId(lastSeq);
    var rows := ForestRows(es, "", RootId, start);
    ForestPaths(es, "", RootId, start);
    forall k | 0 <= k < |rows| && rows[k].kind == Pdf && rows[k].parentId == Some(RootId)
      ensures rows[k].pdfUrl == Some(rows[k].name)
    {
      assert ParentIndex(rows, k, start) == -1;
    }
  }

  // ---------------------------------------------------------------------------
  // The documents of the mirror are exactly the ".pdf" files of the tree

  /** The relative paths of the ".pdf" files below a listing, read off the tree directly. */
  ghost function PdfPaths(es: seq<FsEntry>, dir: string): set<string>
    decreases es
  {
    if es == [] then {}
    else
      var rel := ChildPath(dir, es[0].name);
      (match es[0]
       case File(n) => if EndsWithPdf(n) then {rel} else {}
       case Dir(_, sub) => PdfPaths(sub, rel))
      + PdfPaths(es[1..], dir)
  }

  ghost function Urls(rows: seq<Item>): set<string> {
    set k | 0 <= k < |rows| && rows[k].kind == Pdf && rows[k].pdfUrl.Some? :: rows[k].pdfUrl.value
  }

  lemma UrlsConcat(h: seq<Item>, t: seq<Item>)
    ensures Urls(h + t) == Urls(h) + Urls(t)
  {
    var r := h + t;
    forall u | u in Urls(r) ensures u in Urls(h) + Urls(t) {
      var k :| 0 <= k < |r| && r[k].kind == Pdf && r[k].pdfUrl.Some? && r[k].pdfUrl.value == u;
      if k < |h| { assert r[k] == h[k]; } else { assert r[k] == t[k - |h|]; }
    }
    forall u | u in Urls(h) ensures u in Urls(r) {
      var k :| 0 <= k < |h| && h[k].kind == Pdf && h[k].pdfUrl.Some? && h[k].pdfUrl.value == u;
      assert r[k] == h[k];
    }
    forall u | u in Urls(t) ensures u in Urls(r) {
      var k :| 0 <= k < |t| && t[k].kind == Pdf && t[k].pdfUrl.Some? && t[k].pdfUrl.value == u;
      assert r[|h| + k] == t[k];
    }
  }

  lemma {:induction false} EntryUrls(e: FsEntry, dir: string, parent: nat, next: nat)
    ensures Urls(EntryRows(e, ChildPath(dir, e.name), parent, next)) == PdfPaths([e], dir)
    decreases e
  {
    var rel := ChildPath(dir, e.name);
    assert [e][1..] == [];
    match e
    case File(n) =>
      if EndsWithPdf(n) {
        assert Urls(EntryRows(e, rel, parent, next)) == {rel} by {
          var r := EntryRows(e, rel, parent, next);
          assert r[0].pdfUrl.value == rel;
        }
      } else {
        assert EntryRows(e, rel, parent, next) == [];
      }
    case Dir(n, es) =>
      var f := Item(next, n, Folder, Some(parent), None, map[]);
      ForestUrls(es, rel, next, next + 1);
      UrlsConcat([f], ForestRows(es, rel, next, next + 1));
      assert Urls([f]) == {};
  }

  /** The set of pdf_url values a scan stores equals the set of relative paths of the tree's ".pdf" files. */
  lemma {:induction false} ForestUrls(es: seq<FsEntry>, dir: string, parent: nat, next: nat)
    ensures Urls(ForestRows(es, dir, parent, next)) == PdfPaths(es, dir)
    decreases es
  {
    if es == [] {
      assert Urls([]) == {};
    } else {
      var h := EntryRows(es[0], ChildPath(dir, es[0].name), parent, next);
      EntryUrls(es[0], dir, parent, next);
      ForestUrls(es[1..], dir, parent, next + |h|);
      UrlsConcat(h, ForestRows(es[1..], dir, parent, next + |h|));
      PdfPathsCons(es, dir);
    }
  }

  lemma PdfPathsCons(es: seq<FsEntry>, dir: string)
    requires es != []
    ensures PdfPaths(es, dir) == PdfPaths([es[0]], dir) + PdfPaths(es[1..], dir)
  {
    assert [es[0]][0] == es[0] && [es[0]][1..] == [];
    assert PdfPaths([], dir) == {};
  }

  // ---------------------------------------------------------------------------
  // The folders of the mirror are exactly the directories of the tree

  /** The relative paths of the directories below a listing, read off the tree directly. */
  ghost function DirPaths(es: seq<FsEntry>, dir: string): set<string>
    decreases es
  {
    if es == [] then {}
    else
      var rel := ChildPath(dir, es[0].name);
      (match es[0]
       case File(_) => {}
       case Dir(_, sub) => {rel} + DirPaths(sub, rel))
      + DirPaths(es[1..], dir)
  }

  /** The paths of a table's folder rows, each rebuilt from the row's chain of parent links. */
  ghost function FolderPaths(rows: seq<Item>, dir: string, next: nat): set<string> {
    set k | 0 <= k < |rows| && rows[k].kind == Folder :: PathOf(rows, k, dir, next)
  }

  lemma DirPathsCons(es: seq<FsEntry>, dir: string)
    requires es != []
    ensures DirPaths(es, dir) == DirPaths([es[0]], dir) + DirPaths(es[1..], dir)
  {
    assert [es[0]][0] == es[0] && [es[0]][1..] == [];
    assert DirPaths([], dir) == {};
  }

  /** Folder paths survive concatenation when the second part links only to `top` or into itself. */
  lemma FolderPathsConcat(h: seq<Item>, t: seq<Item>, dir: string, top: nat, next: nat)
    requires top < next
    requires ParentsWithin(t, top, next + |h|)
    ensures FolderPaths(h + t, dir, next) == FolderPaths(h, dir, next) + FolderPaths(t, dir, next + |h|)
  {
    var r := h + t;
    forall u | u in FolderPaths(r, dir, next)
      ensures u in FolderPaths(h, dir, next) + FolderPaths(t, dir, next + |h|)
    {
      var k :| 0 <= k < |r| && r[k].kind == Folder && PathOf(r, k, dir, next) == u;
      if k < |h| {
        assert r[k] == h[k];
        PathOfPrefix(h, t, k, dir, next);
      } else {
        assert r[k] == t[k - |h|];
        PathOfSuffix(h, t, k - |h|, dir, top, next);
      }
    }
    forall u | u in FolderPaths(h, dir, next) ensures u in FolderPaths(r, dir, next) {
      var k :| 0 <= k < |h| && h[k].kind == Folder && PathOf(h, k, dir, next) == u;
      assert r[k] == h[k];
      PathOfPrefix(h, t, k, dir, next);
    }
    forall u | u in FolderPaths(t, dir, next + |h|) ensures u in FolderPaths(r, dir, next) {
      var k :| 0 <= k < |t| && t[k].kind == Folder && PathOf(t, k, dir, next + |h|) == u;
      assert r[|h| + k] == t[k];
      PathOfSuffix(h, t, k, dir, top, next);
    }
  }

  /** A folder row for `rel` followed by its listing's rows, whose paths are relative to `rel`. */
  lemma FolderPathsUnder(f: Item, s: seq<Item>, dir: string, rel: string, next: nat)
    requires f.id == next && f.parentId.Some? && f.parentId.value < next && f.kind == Folder
    requires ChildPath(dir, f.name) == rel
    requires ParentsWithin(s, next, next + 1)
    ensures FolderPaths([f] + s, dir, next) == {rel} + FolderPaths(s, rel, next + 1)
  {
    var r := [f] + s;
    assert r[0] == f;
    assert ParentIndex(r, 0, next) == -1;
    assert PathOf(r, 0, dir, next) == rel;
    forall u | u in FolderPaths(r, dir, next) ensures u in {rel} + FolderPaths(s, rel, next + 1) {
      var k :| 0 <= k < |r| && r[k].kind == Folder && PathOf(r, k, dir, next) == u;
      if k > 0 {
        assert r[k] == s[k - 1];
        PathOfUnderFolder(f, s, k - 1, dir, rel, next);
      }
    }
    forall u | u in FolderPaths(s, rel, next + 1) ensures u in FolderPaths(r, dir, next) {
      var k :| 0 <= k < |s| && s[k].kind == Folder && PathOf(s, k, rel, next + 1) == u;
      assert r[1 + k] == s[k];
      PathOfUnderFolder(f, s, k, dir, rel, next);
    }
  }

  /** The folder rows one entry inserts stand for exactly the directories at and below it. */
  lemma {:induction false} EntryFolders(e: FsEntry, dir: string, parent: nat, next: nat)
    requires parent < next
    ensures FolderPaths(EntryRows(e, ChildPath(dir, e.name), parent, next), dir, next) == DirPaths([e], dir)
    decreases e
  {
    var rel := ChildPath(dir, e.name);
    assert [e][0] == e && [e][1..] == [];
    assert DirPaths([], dir) == {};
    match e
    case File(n) =>
      var rows := EntryRows(e, rel, parent, next);
      assert forall k :: 0 <= k < |rows| ==> rows[k].kind == Pdf;
      assert FolderPaths(rows, dir, next) == {};
    case Dir(n, es) =>
      var f := Item(next, n, Folder, Some(parent), None, map[]);
      var s := ForestRows(es, rel, next, next + 1);
      assert EntryRows(e, rel, parent, next) == [f] + s;
      ForestShape(es, rel, next, next + 1);
      ForestFolders(es, rel, next, next + 1);
      FolderPathsUnder(f, s, dir, rel, next);
  }

  /**
   * The folder rows a walk inserts stand for exactly the directories of the
   * listing: every directory gets a folder row, and every folder row's chain of
   * parent links spells the path of a directory.
   */
  lemma {:induction false} ForestFolders(es: seq<FsEntry>, dir: string, parent: nat, next: nat)
    requires parent < next
    ensures FolderPaths(ForestRows(es, dir, parent, next), dir, next) == DirPaths(es, dir)
    decreases es
  {
    if es == [] {
      assert FolderPaths([], dir, next) == {};
    } else {
      var h := EntryRows(es[0], ChildPath(dir, es[0].name), parent, next);
      var t := ForestRows(es[1..], dir, parent, next + |h|);
      ForestCons(es, dir, parent, next, next + |h|);
      EntryFolders(es[0], dir, parent, next);
      ForestFolders(es[1..], dir, parent, next + |h|);
      ForestShape(es[1..], dir, parent, next + |h|);
      FolderPathsConcat(h, t, dir, parent, next);
      DirPathsCons(es, dir);
    }
  }

  // ---------------------------------------------------------------------------
  // Rebuilding against an unchanged tree

  /** Row r with its id moved by d; a link to `top` becomes a link to topTo, every other link moves by d. */
  function ShiftItem(r: Item, top: nat, topTo: nat, d: nat): Item {
    r.(id := r.id + d,
       parentId := if r.parentId == Some(top) then Some(topTo)
                   else if r.parentId.Some? then Some(r.parentId.value + d) else None)
  }

  function Shift(rows: seq<Item>, top: nat, topTo: nat, d: nat): (r: seq<Item>)
    ensures |r| == |rows|
  {
    if rows == [] then [] else [ShiftItem(rows[0], top, topTo, d)] + Shift(rows[1..], top, topTo, d)
  }

  lemma {:induction false} ShiftConcat(h: seq<Item>, t: seq<Item>, top: nat, topTo: nat, d: nat)
    ensures Shift(h + t, top, topTo, d) == Shift(h, top, topTo, d) + Shift(t, top, topTo, d)
    decreases |h|
  {
    if h == [] {
      assert h + t == t;
    } else {
      assert (h + t)[0] == h[0];
      assert (h + t)[1..] == h[1..] + t;
      ShiftConcat(h[1..], t, top, topTo, d);
    }
  }

  /** When no row links to a, which top is named does not matter as long as b moves by d like the rest. */
  lemma {:induction false} ShiftTopUnused(rows: seq<Item>, a: nat, x: nat, b: nat, d: nat)
    requires forall k :: 0 <= k < |rows| ==> rows[k].parentId != Some(a)
    ensures Shift(rows, a, x, d) == Shift(rows, b, b + d, d)
    decreases |rows|
  {
    if rows != [] {
      assert rows[0].parentId != Some(a);
      assert forall k :: 0 <= k < |rows[1..]| ==> rows[1..][k] == rows[k + 1];
      ShiftTopUnused(rows[1..], a, x, b, d);
    }
  }

  lemma {:induction false} EntryShift(e: FsEntry, rel: string, parent: nat, topTo: nat, next: nat, d: nat)
    requires parent < next
    ensures EntryRows(e, rel, topTo, next + d) == Shift(EntryRows(e, rel, parent, next), parent, topTo, d)
    decreases e
  {
    match e
    case File(n) =>
      FileShift(n, rel, parent, topTo, next, d);
    case Dir(n, es) =>
      ForestShift(es, rel, next, next + d, next + 1, d);
      ForestShape(es, rel, next, next + 1);
      DirShift(n, es, rel, parent, topTo, next, d);
  }

  /** A document row moves with its id; its link to the containing folder becomes a link to topTo. */
  lemma FileShift(n: string, rel: string, parent: nat, topTo: nat, next: nat, d: nat)
    ensures EntryRows(File(n), rel, topTo, next + d) == Shift(EntryRows(File(n), rel, parent, next), parent, topTo, d)
  {
    var rows := EntryRows(File(n), rel, parent, next);
    if EndsWithPdf(n) {
      assert rows[1..] == [];
      assert Shift(rows, parent, topTo, d) == [ShiftItem(rows[0], parent, topTo, d)];
    } else {
      assert rows == [];
    }
  }

  /** A folder row and its listing move together: the listing's links to the folder follow it. */
  lemma DirShift(n: string, es: seq<FsEntry>, rel: string, parent: nat, topTo: nat, next: nat, d: nat)
    requires parent < next
    requires ForestRows(es, rel, next + d, next + 1 + d) == Shift(ForestRows(es, rel, next, next + 1), next, next + d, d)
    requires ParentsWithin(ForestRows(es, rel, next, next + 1), next, next + 1)
    ensures EntryRows(Dir(n, es), rel, topTo, next + d) == Shift(EntryRows(Dir(n, es), rel, parent, next), parent, topTo, d)
  {
    var f := Item(next, n, Folder, Some(parent), None, map[]);
    var s := ForestRows(es, rel, next, next + 1);
    assert EntryRows(Dir(n, es), rel, parent, next) == [f] + s;
    forall k | 0 <= k < |s| ensures s[k].parentId != Some(parent) {
      assert ParentOk(s, k, next, next + 1);
    }
    ShiftTopUnused(s, parent, topTo, next, d);
    ShiftConcat([f], s, parent, topTo, d);
    assert [f][1..] == [];
  }

  lemma {:induction false} ForestShift(es: seq<FsEntry>, dir: string, parent: nat, topTo: nat, next: nat, d: nat)
    requires parent < next
    ensures ForestRows(es, dir, topTo, next + d) == Shift(ForestRows(es, dir, parent, next), parent, topTo, d)
    decreases es
  {
    if es != [] {
      var rel := ChildPath(dir, es[0].name);
      var h := EntryRows(es[0], rel, parent, next);
      var t := ForestRows(es[1..], dir, parent, next + |h|);
      var h2 := EntryRows(es[0], rel, topTo, next + d);
      var t2 := ForestRows(es[1..], dir, topTo, next + |h| + d);
      EntryShift(es[0], rel, parent, topTo, next, d);
      assert |h2| == |h|;
      ForestShift(es[1..], dir, parent, topTo, next + |h|, d);
      ForestCons(es, dir, parent, next, next + |h|);
      ForestCons(es, dir, topTo, next + d, next + |h| + d);
      ShiftJoin(ForestRows(es, dir, parent, next), h, t, ForestRows(es, dir, topTo, next + d), h2, t2, parent, topTo, d);
    }
  }

  lemma ShiftJoin(r: seq<Item>, h: seq<Item>, t: seq<Item>, r2: seq<Item>, h2: seq<Item>, t2: seq<Item>, top: nat, topTo: nat, d: nat)
    requires r == h + t && r2 == h2 + t2
    requires h2 == Shift(h, top, topTo, d) && t2 == Shift(t, top, topTo, d)
    ensures r2 == Shift(r, top, topTo, d)
  {
    ShiftConcat(h, t, top, topTo, d);
  }

  /** The rows of a non-empty listing: its first entry's, then the rest's, numbered from `after` on. */
  lemma ForestCons(es: seq<FsEntry>, dir: string, parent: nat, next: nat, after: nat)
    requires es != []
    requires after == next + |EntryRows(es[0], ChildPath(dir, es[0].name), parent, next)|
    ensures ForestRows(es, dir, parent, next) ==
            EntryRows(es[0], ChildPath(dir, es[0].name), parent, next) + ForestRows(es[1..], dir, parent, after)
  {
  }

  /**
   * Rescanning an unchanged tree rebuilds the same mirror: Root is identical and
   * every other row keeps its name, kind, pdf_url and parent structure, with all
   * non-root ids moved by the same offset.
   */
  lemma RescanIsomorphic(listing: Option<seq<FsEntry>>, lastSeq1: nat, lastSeq2: nat)
    requires StartId(lastSeq1) <= StartId(lastSeq2)
    ensures ScannedTable(listing, lastSeq2)[0] == ScannedTable(listing, lastSeq1)[0] == RootItem
    ensures ScannedTable(listing, lastSeq2)[1..] ==
            Shift(ScannedTable(listing, lastSeq1)[1..], RootId, RootId, StartId(lastSeq2) - StartId(lastSeq1))
  {
    var s1, s2 := StartId(lastSeq1), StartId(lastSeq2);
    var d := s2 - s1;
    ScannedTail(listing, lastSeq1);
    ScannedTail(listing, lastSeq2);
    if listing.Some? {
      assert s1 + d == s2;
      ForestShift(listing.value, "", RootId, RootId, s1, d);
    }
  }

  /** A scanned table is Root followed by the rows of the walk, if there was one. */
  lemma ScannedTail(listing: Option<seq<FsEntry>>, lastSeq: nat)
    ensures ScannedTable(listing, lastSeq)[0] == RootItem
    ensures ScannedTable(listing, lastSeq)[1..] ==
            if listing.Some? then ForestRows(listing.value, "", RootId, StartId(lastSeq)) else []
  {
    var f := if listing.Some? then ForestRows(listing.value, "", RootId, StartId(lastSeq)) else [];
    ConsTail(RootItem, f);
  }
}
