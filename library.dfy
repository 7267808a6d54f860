/**
 * The library database as one object: the LibraryItem rows, the PlaylistSong
 * rows and LibraryItem's AUTOINCREMENT counter (sqlite_sequence), with the
 * handlers that change them. Filesystem facts (the storage listing, which paths
 * exist, whether a move fails) and the float() check are parameters.
 */
module App {
  import opened Wrappers
  import opened Rows
  import opened Paths
  import opened Scan
  import opened Reconcile
  import opened Materialize
  import opened Playlists
  import opened Rename
  import opened Metadata
  import opened Seqs

  datatype AddOutcome =
    | Added(song: Item)      // 201 with the added item's row
    | Refused(error: AddError)
    | ItemMissing            // the membership is committed, then reading the item fails (500)

  datatype UpdateError = Invalid(error: MetaError) | NoSuchItem

  /** UPDATE LibraryItem SET name = ?, pdf_url = ? WHERE id = ? */
  function RenameRows(items: seq<Item>, id: nat, name: string, url: string): (r: seq<Item>)
    ensures |r| == |items|
    ensures forall k :: 0 <= k < |items| ==>
      r[k] == if items[k].id == id then items[k].(name := name, pdfUrl := Some(url)) else items[k]
  {
    seq(|items|, k requires 0 <= k < |items| =>
      if items[k].id == id then items[k].(name := name, pdfUrl := Some(url)) else items[k])
  }

  /** UPDATE LibraryItem SET field = ?, ... WHERE id = ? */
  function UpdateRows(items: seq<Item>, id: nat, a: seq<Assignment>): (r: seq<Item>)
    ensures |r| == |items|
    ensures forall k :: 0 <= k < |items| ==>
      r[k] == if items[k].id == id then items[k].(meta := ApplyAssignments(items[k].meta, a)) else items[k]
  {
    seq(|items|, k requires 0 <= k < |items| =>
      if items[k].id == id then items[k].(meta := ApplyAssignments(items[k].meta, a)) else items[k])
  }

  /** b has a's rows with the same ids and parent links, whatever else changed. */
  ghost predicate SameLinks(a: seq<Item>, b: seq<Item>) {
    |a| == |b| && forall k :: 0 <= k < |a| ==> b[k].id == a[k].id && b[k].parentId == a[k].parentId
  }

  /** The table constraints only look at ids and parent links. */
  lemma SameLinksValid(a: seq<Item>, b: seq<Item>, lastSeq: nat)
    requires SameLinks(a, b)
    requires UniqueIds(a) && ParentBeforeChild(a) && forall k :: 0 <= k < |a| ==> 1 <= a[k].id <= lastSeq
    ensures UniqueIds(b) && ParentBeforeChild(b) && forall k :: 0 <= k < |b| ==> 1 <= b[k].id <= lastSeq
  {
  }

  predicate HasId(items: seq<Item>, id: int) {
    exists k :: 0 <= k < |items| && items[k].id == id
  }

  class Library {
    var items: seq<Item>
    var songs: seq<Membership>
    /** The largest id LibraryItem's AUTOINCREMENT has handed out; deleting rows never lowers it. */
    var lastSeq: nat

    /** The table constraints: unique ids below the counter, parents before children, and the PlaylistSong key. */
    ghost predicate Valid()
      reads this
    {
      UniqueIds(items) && ParentBeforeChild(items) &&
      (forall k :: 0 <= k < |items| ==> 1 <= items[k].id <= lastSeq) &&
      UniqueKeys(songs)
    }

    constructor ()
      ensures Valid() && items == [] && songs == [] && lastSeq == 0
    {
      items := [];
      songs := [];
      lastSeq := 0;
    }

    /** INSERT INTO LibraryItem without an id: the row gets the next AUTOINCREMENT value (cursor.lastrowid). */
    method InsertItem(name: string, kind: Kind, parent: nat, url: Option<string>) returns (id: nat)
      modifies this
      ensures id == old(lastSeq) + 1 && lastSeq == id
      ensures items == old(items) + [Item(id, name, kind, Some(parent), url, map[])]
      ensures songs == old(songs)
    {
      id := lastSeq + 1;
      items := items + [Item(id, name, kind, Some(parent), url, map[])];
      lastSeq := id;
    }

    /** insert_scanned_item: the entry's row (unless it is a non-pdf file), then its listing, depth first. */
    method InsertScanned(e: FsEntry, rel: string, parent: nat)
      modifies this
      ensures items == old(items) + EntryRows(e, rel, parent, old(lastSeq) + 1)
      ensures lastSeq == old(lastSeq) + |EntryRows(e, rel, parent, old(lastSeq) + 1)|
      ensures songs == old(songs)
      decreases e
    {
      match e
      case File(n) =>
        if EndsWithPdf(n) {
          var _ := InsertItem(n, Pdf, parent, Some(rel));
        }
      case Dir(n, es) =>
        var id := InsertItem(n, Folder, parent, None);
        InsertListing(es, rel, id);
        AppendAssoc(old(items), [Item(id, n, Folder, Some(parent), None, map[])], ForestRows(es, rel, id, id + 1));
    }

    /** The loop over a directory listing: each entry's rows in listing order, below the folder `parent`. */
    method InsertListing(es: seq<FsEntry>, dir: string, parent: nat)
      modifies this
      ensures items == old(items) + ForestRows(es, dir, parent, old(lastSeq) + 1)
      ensures lastSeq == old(lastSeq) + |ForestRows(es, dir, parent, old(lastSeq) + 1)|
      ensures songs == old(songs)
      decreases es
    {
      ghost var target := items + ForestRows(es, dir, parent, lastSeq + 1);
      ghost var total := lastSeq + |ForestRows(es, dir, parent, lastSeq + 1)|;
      var i := 0;
      DropEnds(es, items);
      while i < |es|
        invariant 0 <= i <= |es|
        invariant items + ForestRows(es[i..], dir, parent, lastSeq + 1) == target
        invariant lastSeq + |ForestRows(es[i..], dir, parent, lastSeq + 1)| == total
        invariant songs == old(songs)
      {
        ghost var before, next := items, lastSeq + 1;
        InsertScanned(es[i], ChildPath(dir, es[i].name), parent);
        ForestLoopStep(before, items, es, i, dir, parent, next, lastSeq + 1);
        i := i + 1;
      }
      DropEnds(es, items);
    }

    /**
     * scan_pdfs_and_populate_db. `listing` is the storage directory's listing,
     * None when the storage path is unset or not a directory. Returns
     * restored_count.
     */
    method Rescan(listing: Option<seq<FsEntry>>) returns (restored: nat)
      modifies this
      ensures items == ScannedTable(listing, old(lastSeq))
      ensures lastSeq == ScanCounter(listing, old(lastSeq))
      ensures songs == RestoreInto(Backup(old(songs), old(items)), IdMap(items), [])
      ensures restored == |songs|
      ensures Valid()
    {
      var backup := Backup(songs, items);
      songs := [];
      RebuildItems(listing);
      if listing.None? {
        IdMapNoDocuments(items);
        RestoreEmptyMap(backup, []);
        return 0;
      }
      restored := 0;
      if backup != [] {
        restored := RestoreMemberships(backup, IdMap(items));
      }
      RestoreKeepsKeys(backup, IdMap(items), []);
    }

    /**
     * DELETE FROM LibraryItem, the Root row with the explicit id 1, and the walk
     * when there is a storage directory to walk. The counter is never reset.
     */
    method RebuildItems(listing: Option<seq<FsEntry>>)
      modifies this
      ensures items == ScannedTable(listing, old(lastSeq))
      ensures lastSeq == ScanCounter(listing, old(lastSeq))
      ensures UniqueIds(items) && ParentBeforeChild(items)
      ensures forall k :: 0 <= k < |items| ==> 1 <= items[k].id <= lastSeq
      ensures songs == old(songs)
    {
      var l0 := lastSeq;
      // INSERT OR IGNORE of Root with the explicit id 1
      items := [RootItem];
      lastSeq := if lastSeq < 1 then 1 else lastSeq;
      if listing.Some? {
        InsertListing(listing.value, "", RootId);
      }
      ScannedValid(listing, l0);
    }

    /** The restore loop: each backed-up entry re-inserted onto its url's new id unless that key is taken. */
    method RestoreMemberships(backup: seq<BackupEntry>, m: map<Option<string>, nat>) returns (restored: nat)
      modifies this
      ensures songs == RestoreInto(backup, m, old(songs))
      ensures restored == |songs| - |old(songs)|
      ensures items == old(items) && lastSeq == old(lastSeq)
    {
      restored := 0;
      var j := 0;
      while j < |backup|
        invariant 0 <= j <= |backup|
        invariant RestoreInto(backup[j..], m, songs) == RestoreInto(backup, m, old(songs))
        invariant |old(songs)| <= |songs| && restored == |songs| - |old(songs)|
        invariant items == old(items) && lastSeq == old(lastSeq)
      {
        var entry := backup[j];
        assert backup[j..][1..] == backup[j + 1..];
        if entry.pdfUrl in m && m[entry.pdfUrl] != 0 {
          var newId := m[entry.pdfUrl];
          if !HasKey(songs, entry.playlistId, newId) {
            songs := songs + [Membership(entry.playlistId, newId, entry.orderIndex)];
            restored := restored + 1;
          }
          // otherwise the insert raises IntegrityError and the entry is skipped
        }
        j := j + 1;
      }
    }

    /** The table a scan builds satisfies the constraints below the counter the scan leaves. */
    static lemma ScannedValid(listing: Option<seq<FsEntry>>, l0: nat)
      ensures var t := ScannedTable(listing, l0);
        var top := StartId(l0) - 1 + |t| - 1;
        UniqueIds(t) && ParentBeforeChild(t) && forall k :: 0 <= k < |t| ==> 1 <= t[k].id <= top
    {
      ScannedTableShape(listing, l0);
    }

    /**
     * reorder_playlist_songs, with the duplicate-free check: on acceptance the
     * UPDATE loop gives position i to the i-th id.
     */
    method Reorder(p: int, payload: OrderPayload) returns (r: Result<seq<int>, ReorderError>)
      requires Valid()
      modifies this
      ensures r == CheckReorder(payload, Members(old(songs), p))
      ensures r.Ok? ==> songs == ApplyOrder(old(songs), p, r.value)
      ensures r.Err? ==> songs == old(songs)
      ensures items == old(items) && lastSeq == old(lastSeq)
      ensures Valid()
    {
      r := CheckReorder(payload, Members(songs, p));
      if r.Err? {
        return;
      }
      var ids := r.value;
      var i := 0;
      assert ids[..0] == [];
      while i < |ids|
        invariant 0 <= i <= |ids|
        invariant songs == ApplyOrder(old(songs), p, ids[..i])
        invariant items == old(items) && lastSeq == old(lastSeq)
      {
        ApplyOrderSnoc(old(songs), p, ids, i);
        songs := SetOrder(songs, p, ids[i], i);
        i := i + 1;
      }
      assert ids[..|ids|] == ids;
      ApplyOrderKeepsKeys(old(songs), p, ids);
    }

    /**
     * add_song_to_playlist: the membership goes in at the next position; when
     * no item has the id the insert is still committed before the lookup fails.
     */
    method AddSong(p: int, itemId: Option<int>) returns (r: AddOutcome)
      requires Valid()
      modifies this
      ensures PlanAdd(old(songs), p, itemId).Err? ==>
        r == Refused(PlanAdd(old(songs), p, itemId).error) && songs == old(songs)
      ensures PlanAdd(old(songs), p, itemId).Ok? ==>
        songs == old(songs) + [PlanAdd(old(songs), p, itemId).value] &&
        (r == ItemMissing <==> FindItem(items, itemId.value).None?) &&
        (r.Added? ==> Some(r.song) == FindItem(items, itemId.value))
      ensures items == old(items) && lastSeq == old(lastSeq)
      ensures Valid()
    {
      var plan := PlanAdd(songs, p, itemId);
      if plan.Err? {
        return Refused(plan.error);
      }
      AddKeepsInvariants(songs, p, itemId, 0);
      songs := songs + [plan.value];
      var item := FindItem(items, itemId.value);
      if item.None? {
        return ItemMissing;
      }
      return Added(item.value);
    }

    /**
     * rename_library_item with the folder-preserving check: on success the
     * file is moved and the row takes the new name and relative path; when the
     * move fails nothing changes.
     */
    method Rename(id: int, newName: Text, storage: Text, onDisk: set<string>, moveFails: bool)
      returns (r: Result<RenamePlan, RenameError>)
      requires Valid()
      modifies this
      ensures var plan := PlanRename(FindItem(old(items), id), newName, storage, onDisk);
        (plan.Err? ==> r == plan) &&
        (plan.Ok? && moveFails ==> r == Err(MoveFailed)) &&
        (plan.Ok? && !moveFails ==> r == plan)
      ensures r.Ok? ==> items == RenameRows(old(items), id, r.value.finalName, r.value.newRel)
      ensures r.Err? ==> items == old(items)
      ensures songs == old(songs) && lastSeq == old(lastSeq)
      ensures Valid()
    {
      var item := FindItem(items, id);
      r := PlanRename(item, newName, storage, onDisk);
      if r.Err? {
        return;
      }
      if moveFails {
        return Err(MoveFailed);
      }
      ghost var before := items;
      items := RenameRows(items, id, r.value.finalName, r.value.newRel);
      assert SameLinks(before, items);
      SameLinksValid(before, items, lastSeq);
    }

    /** update_library_item_metadata: validation, then the UPDATE on the row with that id. */
    method UpdateMetadata(id: int, data: map<string, Text>, isNumber: string -> bool)
      returns (r: Result<seq<Assignment>, UpdateError>)
      requires Valid()
      modifies this
      ensures ValidateMetadata(data, isNumber).Err? ==> r == Err(Invalid(ValidateMetadata(data, isNumber).error))
      ensures ValidateMetadata(data, isNumber).Ok? && !HasId(old(items), id) ==> r == Err(NoSuchItem)
      ensures ValidateMetadata(data, isNumber).Ok? && HasId(old(items), id) ==> r == Ok(ValidateMetadata(data, isNumber).value)
      ensures r.Ok? ==> items == UpdateRows(old(items), id, r.value)
      ensures r.Err? ==> items == old(items)
      ensures songs == old(songs) && lastSeq == old(lastSeq)
      ensures Valid()
    {
      var a := BuildAssignments(data, isNumber);
      if a.Err? {
        return Err(Invalid(a.error));
      }
      if !HasId(items, id) {
        // rowcount == 0
        return Err(NoSuchItem);
      }
      SetColumns(id, a.value);
      return Ok(a.value);
    }

    /** The UPDATE itself: the row with that id takes the assignments, nothing else changes. */
    method SetColumns(id: nat, a: seq<Assignment>)
      requires Valid()
      modifies this
      ensures items == UpdateRows(old(items), id, a)
      ensures songs == old(songs) && lastSeq == old(lastSeq)
      ensures Valid()
    {
      ghost var before := items;
      items := UpdateRows(items, id, a);
      assert SameLinks(before, items);
      SameLinksValid(before, items, lastSeq);
    }

    /** get_library's contents: the sorted tree below the first Root row, empty without one. */
    function Contents(): (r: seq<Node>)
      reads this
      requires Valid()
      ensures FindRoot(items).None? ==> r == []
      ensures FindRoot(items).Some? ==> r == Build(items, FindRoot(items).value)
    {
      LibraryContents(items)
    }
  }
}

/** Properties of a whole rescan: the walk, the restore pass and the payload read back. */
module Rescans {
  import opened Wrappers
  import opened Rows
  import opened Scan
  import opened Reconcile
  import opened Materialize
  import opened Seqs

  /** The memberships a rescan of listing es leaves, from the old tables and the counter before it. */
  function Restored(oldSongs: seq<Membership>, oldItems: seq<Item>, es: seq<FsEntry>, lastSeq: nat): seq<Membership> {
    RestoreInto(Backup(oldSongs, oldItems), IdMap(ScannedTable(Some(es), lastSeq)), [])
  }

  /** Row k of a scanned table, k >= 1, is row k - 1 of the walk below Root; no id is 0. */
  lemma ScannedRows(es: seq<FsEntry>, lastSeq: nat, k: nat)
    requires k < |ScannedTable(Some(es), lastSeq)|
    ensures var t := ScannedTable(Some(es), lastSeq);
      t[k].id != 0 && (k == 0 ==> t[k] == RootItem) &&
      (k >= 1 ==> t[k] == ForestRows(es, "", RootId, StartId(lastSeq))[k - 1])
  {
    ScannedTableShape(Some(es), lastSeq);
  }

  /** Every ".pdf" file of the tree is stored by some document row of the scanned table. */
  lemma ScannedPathStored(es: seq<FsEntry>, lastSeq: nat, u: string)
    requires u in PdfPaths(es, "")
    ensures var t := ScannedTable(Some(es), lastSeq);
      exists n :: 0 <= n < |t| && t[n].kind == Pdf && t[n].pdfUrl == Some(u)
  {
    var f := ForestRows(es, "", RootId, StartId(lastSeq));
    ForestUrls(es, "", RootId, StartId(lastSeq));
    assert u in Urls(f);
    var k :| 0 <= k < |f| && f[k].kind == Pdf && f[k].pdfUrl.Some? && f[k].pdfUrl.value == u;
    ScannedRows(es, lastSeq, k + 1);
  }

  /** Every document row of the scanned table stores the path of a ".pdf" file of the tree. */
  lemma ScannedRowIsPath(es: seq<FsEntry>, lastSeq: nat, n: nat)
    requires var t := ScannedTable(Some(es), lastSeq); n < |t| && t[n].kind == Pdf
    ensures var t := ScannedTable(Some(es), lastSeq);
      t[n].pdfUrl.Some? && t[n].pdfUrl.value in PdfPaths(es, "")
  {
    var f := ForestRows(es, "", RootId, StartId(lastSeq));
    ScannedRows(es, lastSeq, n);
    ForestShape(es, "", RootId, StartId(lastSeq));
    ForestUrls(es, "", RootId, StartId(lastSeq));
    assert f[n - 1].pdfUrl.Some?;
    assert f[n - 1].pdfUrl.value in Urls(f);
  }

  /** The document rows of a scanned table store exactly the ".pdf" paths of the tree, and no id is 0. */
  lemma ScannedDocuments(es: seq<FsEntry>, lastSeq: nat)
    ensures var t := ScannedTable(Some(es), lastSeq);
      (forall k :: 0 <= k < |t| ==> t[k].id != 0) &&
      (forall u :: u in PdfPaths(es, "") <==> exists n :: 0 <= n < |t| && t[n].kind == Pdf && t[n].pdfUrl == Some(u))
  {
    var t := ScannedTable(Some(es), lastSeq);
    forall k | 0 <= k < |t| ensures t[k].id != 0 {
      ScannedRows(es, lastSeq, k);
    }
    forall u | u in PdfPaths(es, "")
      ensures exists n :: 0 <= n < |t| && t[n].kind == Pdf && t[n].pdfUrl == Some(u)
    {
      ScannedPathStored(es, lastSeq, u);
    }
    forall u | exists n :: 0 <= n < |t| && t[n].kind == Pdf && t[n].pdfUrl == Some(u)
      ensures u in PdfPaths(es, "")
    {
      var n :| 0 <= n < |t| && t[n].kind == Pdf && t[n].pdfUrl == Some(u);
      ScannedRowIsPath(es, lastSeq, n);
    }
  }

  /**
   * The folder rows of a scanned table below Root stand for exactly the
   * directories of the tree: each row's chain of parent links spells the path
   * of a directory, and every directory has such a row.
   */
  lemma ScannedFolders(es: seq<FsEntry>, lastSeq: nat)
    ensures var t := ScannedTable(Some(es), lastSeq);
      FolderPaths(t[1..], "", StartId(lastSeq)) == DirPaths(es, "")
  {
    var f := ForestRows(es, "", RootId, StartId(lastSeq));
    ConsTail(RootItem, f);
    ForestFolders(es, "", RootId, StartId(lastSeq));
  }

  /**
   * A playlist entry survives a rescan whenever its document's relative path is
   * still a ".pdf" file of the tree: the playlist holds the new row for that path.
   */
  lemma RescanKeepsPresentPaths(oldSongs: seq<Membership>, oldItems: seq<Item>, es: seq<FsEntry>, lastSeq: nat, i: nat, j: nat)
    requires i < |oldSongs| && j < |oldItems| && oldSongs[i].itemId == oldItems[j].id
    requires oldItems[j].pdfUrl.Some? && oldItems[j].pdfUrl.value in PdfPaths(es, "")
    ensures var m := IdMap(ScannedTable(Some(es), lastSeq));
      oldItems[j].pdfUrl in m && HasKey(Restored(oldSongs, oldItems, es, lastSeq), oldSongs[i].playlistId, m[oldItems[j].pdfUrl])
  {
    var t := ScannedTable(Some(es), lastSeq);
    ScannedDocuments(es, lastSeq);
    var n :| 0 <= n < |t| && t[n].kind == Pdf && t[n].pdfUrl == oldItems[j].pdfUrl;
    ReconcileKeepsSurvivors(oldSongs, oldItems, t, i, j, n);
  }

  /**
   * Every membership a rescan leaves points to a document row whose path is a
   * ".pdf" file of the tree and was the path of an old member of the same
   * playlist, at the same order_index; entries whose file vanished are gone.
   */
  lemma RescanDropsVanishedPaths(oldSongs: seq<Membership>, oldItems: seq<Item>, es: seq<FsEntry>, lastSeq: nat)
    ensures var t := ScannedTable(Some(es), lastSeq);
      var r := Restored(oldSongs, oldItems, es, lastSeq);
      UniqueKeys(r) &&
      forall k :: 0 <= k < |r| ==>
        TracedByPath(oldSongs, oldItems, t, r[k]) &&
        exists n :: 0 <= n < |t| && t[n].id == r[k].itemId && t[n].kind == Pdf &&
                    t[n].pdfUrl.Some? && t[n].pdfUrl.value in PdfPaths(es, "")
  {
    var t := ScannedTable(Some(es), lastSeq);
    var r := Restored(oldSongs, oldItems, es, lastSeq);
    ReconcileByPath(oldSongs, oldItems, t);
    forall k | 0 <= k < |r|
      ensures exists n :: 0 <= n < |t| && t[n].id == r[k].itemId && t[n].kind == Pdf &&
                          t[n].pdfUrl.Some? && t[n].pdfUrl.value in PdfPaths(es, "")
    {
      assert TracedByPath(oldSongs, oldItems, t, r[k]);
      var i, j, n :| 0 <= i < |oldSongs| && 0 <= j < |oldItems| && 0 <= n < |t| &&
        oldSongs[i].itemId == oldItems[j].id &&
        r[k].playlistId == oldSongs[i].playlistId && r[k].orderIndex == oldSongs[i].orderIndex &&
        t[n].id == r[k].itemId && t[n].kind == Pdf && t[n].pdfUrl == oldItems[j].pdfUrl;
      ScannedRowIsPath(es, lastSeq, n);
    }
  }

  /**
   * Two rescans of an unchanged tree in a row: the second gets the counter the
   * first left, so it rebuilds the same mirror with every non-root id moved up
   * by the number of rows the first scan inserted below Root.
   */
  lemma RescanTwice(listing: Option<seq<FsEntry>>, l0: nat)
    ensures var l1 := ScanCounter(listing, l0);
      var t0, t1 := ScannedTable(listing, l0), ScannedTable(listing, l1);
      t1[0] == t0[0] == RootItem && t1[1..] == Shift(t0[1..], RootId, RootId, |t0| - 1)
  {
    RescanIsomorphic(listing, l0, ScanCounter(listing, l0));
  }

  /** After any rescan get_library finds Root at id 1 and lists the tree below it. */
  lemma RescanLibraryRoot(listing: Option<seq<FsEntry>>, lastSeq: nat)
    ensures ParentBeforeChild(ScannedTable(listing, lastSeq))
    ensures FindRoot(ScannedTable(listing, lastSeq)) == Some(RootId)
    ensures LibraryContents(ScannedTable(listing, lastSeq)) == Build(ScannedTable(listing, lastSeq), RootId)
  {
    ScannedTableShape(listing, lastSeq);
  }
}
