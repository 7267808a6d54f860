/**
 * Playlist reconciliation across a rescan: the backup of
 * (playlist_id, pdf_url, order_index) triples taken before the tables are
 * wiped, the pdf_url -> new id map built from the rescanned table, and the
 * restore pass that re-inserts memberships onto the new ids.
 */
module Reconcile {
  import opened Wrappers
  import opened Rows

  /** One backed-up triple; pdfUrl is None when the member row was a folder. */
  datatype BackupEntry = BackupEntry(playlistId: int, pdfUrl: Option<string>, orderIndex: int)

  /** The join rows contributed by one membership: one per item row carrying its item id. */
  function JoinRows(s: Membership, items: seq<Item>): seq<BackupEntry>
    decreases |items|
  {
    if items == [] then []
    else
      (if items[0].id == s.itemId then [BackupEntry(s.playlistId, items[0].pdfUrl, s.orderIndex)] else [])
      + JoinRows(s, items[1..])
  }

  /** PlaylistSong JOIN LibraryItem ON library_item_id = id, projected onto (playlist_id, pdf_url, order_index). */
  function Backup(songs: seq<Membership>, items: seq<Item>): seq<BackupEntry>
    decreases |songs|
  {
    if songs == [] then [] else JoinRows(songs[0], items) + Backup(songs[1..], items)
  }

  lemma {:induction false} JoinRowsExact(s: Membership, items: seq<Item>)
    ensures forall e :: e in JoinRows(s, items) <==>
      exists j :: 0 <= j < |items| && items[j].id == s.itemId && e == BackupEntry(s.playlistId, items[j].pdfUrl, s.orderIndex)
    decreases |items|
  {
    if items != [] {
      JoinRowsExact(s, items[1..]);
      assert forall j :: 0 <= j < |items[1..]| ==> items[1..][j] == items[j + 1];
      forall e | exists j :: 0 <= j < |items| && items[j].id == s.itemId && e == BackupEntry(s.playlistId, items[j].pdfUrl, s.orderIndex)
        ensures e in JoinRows(s, items)
      {
        var j :| 0 <= j < |items| && items[j].id == s.itemId && e == BackupEntry(s.playlistId, items[j].pdfUrl, s.orderIndex);
        if j > 0 { assert items[1..][j - 1] == items[j]; }
      }
    }
  }

  /**
   * The backup holds exactly one triple per (membership, item row) pair that
   * the join matches: the membership's playlist and order with the item's pdf_url.
   */
  lemma {:induction false} BackupExact(songs: seq<Membership>, items: seq<Item>)
    ensures forall e :: e in Backup(songs, items) <==>
      exists i, j :: 0 <= i < |songs| && 0 <= j < |items| && items[j].id == songs[i].itemId &&
        e == BackupEntry(songs[i].playlistId, items[j].pdfUrl, songs[i].orderIndex)
    decreases |songs|
  {
    if songs != [] {
      JoinRowsExact(songs[0], items);
      BackupExact(songs[1..], items);
      assert forall i :: 0 <= i < |songs[1..]| ==> songs[1..][i] == songs[i + 1];
      forall e | (exists i, j :: 0 <= i < |songs| && 0 <= j < |items| && items[j].id == songs[i].itemId &&
                    e == BackupEntry(songs[i].playlistId, items[j].pdfUrl, songs[i].orderIndex))
        ensures e in Backup(songs, items)
      {
        var i, j :| 0 <= i < |songs| && 0 <= j < |items| && items[j].id == songs[i].itemId &&
          e == BackupEntry(songs[i].playlistId, items[j].pdfUrl, songs[i].orderIndex);
        if i > 0 { assert songs[1..][i - 1] == songs[i]; }
      }
    }
  }

  // ---------------------------------------------------------------------------
  // The pdf_url -> new id map

  /** {row['pdf_url']: row['id'] for row in SELECT id, pdf_url FROM LibraryItem WHERE type = 'pdf'}: later rows win. */
  function IdMap(items: seq<Item>): map<Option<string>, nat>
    decreases |items|
  {
    if items == [] then map[]
    else
      var m := IdMap(items[..|items| - 1]);
      var last := items[|items| - 1];
      if last.kind == Pdf then m[last.pdfUrl := last.id] else m
  }

  /**
   * A url is a key of the map exactly when some document row stores it, and it
   * maps to the id of the last such document row — never to a folder.
   */
  lemma IdMapExact(items: seq<Item>, u: Option<string>)
    ensures u in IdMap(items) <==> exists k :: 0 <= k < |items| && items[k].kind == Pdf && items[k].pdfUrl == u
    ensures u in IdMap(items) ==>
      exists k :: (0 <= k < |items| && items[k].kind == Pdf && items[k].pdfUrl == u &&
                   items[k].id == IdMap(items)[u] &&
                   forall k' :: k < k' < |items| ==> items[k'].kind != Pdf || items[k'].pdfUrl != u)
  {
    IdMapKeys(items, u);
    if u in IdMap(items) { IdMapLast(items, u); }
  }

  lemma {:induction false} IdMapKeys(items: seq<Item>, u: Option<string>)
    ensures u in IdMap(items) <==> exists k :: 0 <= k < |items| && items[k].kind == Pdf && items[k].pdfUrl == u
    decreases |items|
  {
    if items != [] {
      var init := items[..|items| - 1];
      var last := items[|items| - 1];
      IdMapKeys(init, u);
      if last.kind == Pdf && last.pdfUrl == u {
        assert u in IdMap(items);
      } else {
        assert IdMap(items) == IdMap(init)[last.pdfUrl := last.id] || IdMap(items) == IdMap(init);
        assert u in IdMap(items) <==> u in IdMap(init);
        if u in IdMap(init) {
          var k :| 0 <= k < |init| && init[k].kind == Pdf && init[k].pdfUrl == u;
          assert items[k] == init[k];
        }
        if exists k :: 0 <= k < |items| && items[k].kind == Pdf && items[k].pdfUrl == u {
          var k :| 0 <= k < |items| && items[k].kind == Pdf && items[k].pdfUrl == u;
          assert k < |init| && init[k] == items[k];
        }
      }
    }
  }

  lemma {:induction false} IdMapLast(items: seq<Item>, u: Option<string>)
    requires u in IdMap(items)
    ensures exists k :: (0 <= k < |items| && items[k].kind == Pdf && items[k].pdfUrl == u &&
                         items[k].id == IdMap(items)[u] &&
                         forall k' :: k < k' < |items| ==> items[k'].kind != Pdf || items[k'].pdfUrl != u)
    decreases |items|
  {
    var init := items[..|items| - 1];
    var last := items[|items| - 1];
    if last.kind == Pdf && last.pdfUrl == u {
      assert IdMap(items)[u] == last.id;
    } else {
      assert u in IdMap(init) && IdMap(items)[u] == IdMap(init)[u];
      IdMapLast(init, u);
      var k :| 0 <= k < |init| && init[k].kind == Pdf && init[k].pdfUrl == u &&
        init[k].id == IdMap(init)[u] &&
        forall k' :: k < k' < |init| ==> init[k'].kind != Pdf || init[k'].pdfUrl != u;
      assert items[k] == init[k];
      forall k' | k < k' < |items| ensures items[k'].kind != Pdf || items[k'].pdfUrl != u {
        if k' < |init| { assert items[k'] == init[k']; }
      }
    }
  }

  /** A table without document rows gives an empty map. */
  lemma {:induction false} IdMapNoDocuments(items: seq<Item>)
    requires forall k :: 0 <= k < |items| ==> items[k].kind == Folder
    ensures IdMap(items) == map[]
    decreases |items|
  {
    if items != [] {
      IdMapNoDocuments(items[..|items| - 1]);
    }
  }

  // ---------------------------------------------------------------------------
  // The restore pass

  /**
   * One iteration of the restore loop: the entry is re-inserted onto the new id
   * of its url when that id exists (and is truthy), unless the
   * (playlist_id, library_item_id) key is already taken, in which case the
   * IntegrityError is caught and the entry skipped.
   */
  function RestoreOne(e: BackupEntry, idMap: map<Option<string>, nat>, table: seq<Membership>): seq<Membership> {
    if e.pdfUrl in idMap && idMap[e.pdfUrl] != 0 && !HasKey(table, e.playlistId, idMap[e.pdfUrl])
    then table + [Membership(e.playlistId, idMap[e.pdfUrl], e.orderIndex)]
    else table
  }

  /** The restore loop over the backup, inserting into `table`. */
  function RestoreInto(backup: seq<BackupEntry>, idMap: map<Option<string>, nat>, table: seq<Membership>): seq<Membership>
    decreases |backup|
  {
    if backup == [] then table else RestoreInto(backup[1..], idMap, RestoreOne(backup[0], idMap, table))
  }

  lemma {:induction false} RestoreConcat(a: seq<BackupEntry>, b: seq<BackupEntry>, m: map<Option<string>, nat>, t: seq<Membership>)
    ensures RestoreInto(a + b, m, t) == RestoreInto(b, m, RestoreInto(a, m, t))
    decreases |a|
  {
    if a == [] {
      assert a + b == b;
    } else {
      assert (a + b)[0] == a[0];
      assert (a + b)[1..] == a[1..] + b;
      RestoreConcat(a[1..], b, m, RestoreOne(a[0], m, t));
    }
  }

  /** Restoring only appends: the rows already in the table stay, and at most one row is added per entry. */
  lemma {:induction false} RestoreExtends(b: seq<BackupEntry>, m: map<Option<string>, nat>, t: seq<Membership>)
    ensures |t| <= |RestoreInto(b, m, t)| <= |t| + |b|
    ensures RestoreInto(b, m, t)[..|t|] == t
    decreases |b|
  {
    if b != [] {
      var t' := RestoreOne(b[0], m, t);
      RestoreExtends(b[1..], m, t');
      assert t'[..|t|] == t;
      assert RestoreInto(b, m, t)[..|t|] == RestoreInto(b, m, t)[..|t'|][..|t|];
    }
  }

  /** x is the row the restore pass builds for some entry of b whose url maps to a truthy id. */
  ghost predicate BuiltFrom(b: seq<BackupEntry>, m: map<Option<string>, nat>, x: Membership) {
    exists i :: 0 <= i < |b| && b[i].pdfUrl in m && m[b[i].pdfUrl] != 0 &&
      x == Membership(b[i].playlistId, m[b[i].pdfUrl], b[i].orderIndex)
  }

  /**
   * Every restored row comes from a backup entry whose url maps to a truthy new
   * id: it carries that entry's playlist and, verbatim, its order_index.
   */
  lemma {:induction false} RestoreSound(b: seq<BackupEntry>, m: map<Option<string>, nat>, t: seq<Membership>)
    ensures forall k :: |t| <= k < |RestoreInto(b, m, t)| ==> BuiltFrom(b, m, RestoreInto(b, m, t)[k])
    decreases |b|
  {
    if b != [] {
      var t' := RestoreOne(b[0], m, t);
      var r := RestoreInto(b, m, t);
      RestoreSound(b[1..], m, t');
      RestoreExtends(b[1..], m, t');
      assert r == RestoreInto(b[1..], m, t');
      forall k | |t| <= k < |r| ensures BuiltFrom(b, m, r[k]) {
        if k < |t'| {
          assert t' != t;
          assert r[k] == r[..|t'|][k] == t'[k];
          assert t'[k] == Membership(b[0].playlistId, m[b[0].pdfUrl], b[0].orderIndex);
        } else {
          assert BuiltFrom(b[1..], m, r[k]);
          var i :| 0 <= i < |b[1..]| && b[1..][i].pdfUrl in m && m[b[1..][i].pdfUrl] != 0 &&
            r[k] == Membership(b[1..][i].playlistId, m[b[1..][i].pdfUrl], b[1..][i].orderIndex);
          assert b[1..][i] == b[i + 1];
        }
      }
    }
  }

  lemma HasKeyPrefix(t: seq<Membership>, r: seq<Membership>, p: int, id: int)
    requires |t| <= |r| && r[..|t|] == t
    requires HasKey(t, p, id)
    ensures HasKey(r, p, id)
  {
    var k :| 0 <= k < |t| && t[k].playlistId == p && t[k].itemId == id;
    assert r[k] == r[..|t|][k];
  }

  /**
   * Every backup entry whose url maps to a truthy new id ends up represented:
   * its (playlist, new id) key is in the table, inserted for it or for an
   * earlier entry with the same key (the duplicate that was skipped).
   */
  lemma {:induction false} RestoreComplete(b: seq<BackupEntry>, m: map<Option<string>, nat>, t: seq<Membership>)
    ensures forall i :: 0 <= i < |b| && b[i].pdfUrl in m && m[b[i].pdfUrl] != 0 ==>
      HasKey(RestoreInto(b, m, t), b[i].playlistId, m[b[i].pdfUrl])
    decreases |b|
  {
    if b != [] {
      var t' := RestoreOne(b[0], m, t);
      var r := RestoreInto(b, m, t);
      RestoreComplete(b[1..], m, t');
      RestoreExtends(b[1..], m, t');
      forall i | 0 <= i < |b| && b[i].pdfUrl in m && m[b[i].pdfUrl] != 0
        ensures HasKey(r, b[i].playlistId, m[b[i].pdfUrl])
      {
        if i == 0 {
          if !HasKey(t, b[0].playlistId, m[b[0].pdfUrl]) {
            assert t'[|t|] == Membership(b[0].playlistId, m[b[0].pdfUrl], b[0].orderIndex);
          }
          assert HasKey(t', b[0].playlistId, m[b[0].pdfUrl]);
          HasKeyPrefix(t', r, b[0].playlistId, m[b[0].pdfUrl]);
        } else {
          assert b[1..][i - 1] == b[i];
        }
      }
    }
  }

  /** The restore pass never breaks the (playlist_id, library_item_id) primary key. */
  lemma {:induction false} RestoreKeepsKeys(b: seq<BackupEntry>, m: map<Option<string>, nat>, t: seq<Membership>)
    requires UniqueKeys(t)
    ensures UniqueKeys(RestoreInto(b, m, t))
    decreases |b|
  {
    if b != [] {
      var t' := RestoreOne(b[0], m, t);
      if t' != t {
        var x := t'[|t|];
        forall i, j | 0 <= i < j < |t'|
          ensures t'[i].playlistId != t'[j].playlistId || t'[i].itemId != t'[j].itemId
        {
          if j == |t| {
            assert t'[i] == t[i];
          }
        }
      }
      RestoreKeepsKeys(b[1..], m, t');
    }
  }

  /** An entry whose url has no new id is dropped: the result is as if it were not in the backup. */
  lemma RestoreDropsUnmapped(b: seq<BackupEntry>, i: nat, m: map<Option<string>, nat>, t: seq<Membership>)
    requires i < |b| && b[i].pdfUrl !in m
    ensures RestoreInto(b, m, t) == RestoreInto(b[..i] + b[i + 1..], m, t)
  {
    assert b == b[..i] + ([b[i]] + b[i + 1..]);
    RestoreConcat(b[..i], [b[i]] + b[i + 1..], m, t);
    RestoreConcat(b[..i], b[i + 1..], m, t);
    var t1 := RestoreInto(b[..i], m, t);
    assert ([b[i]] + b[i + 1..])[1..] == b[i + 1..];
  }

  /** The keys the restore pass tries to insert for entries i and j differ. */
  ghost predicate DistinctTargets(b: seq<BackupEntry>, m: map<Option<string>, nat>) {
    forall i, j :: 0 <= i < j < |b| && b[i].pdfUrl in m && b[j].pdfUrl in m ==>
      b[i].playlistId != b[j].playlistId || m[b[i].pdfUrl] != m[b[j].pdfUrl]
  }

  /** The membership the restore pass builds for a mapped entry. */
  function Target(e: BackupEntry, m: map<Option<string>, nat>): Membership
    requires e.pdfUrl in m
  {
    Membership(e.playlistId, m[e.pdfUrl], e.orderIndex)
  }

  /**
   * When every url still maps to a document and no two entries collide, the
   * restored memberships are the backup itself, entry by entry and in order,
   * with only the item id replaced by the new one.
   */
  lemma {:induction false} RestoreFaithful(b: seq<BackupEntry>, m: map<Option<string>, nat>, t: seq<Membership>)
    requires forall i :: 0 <= i < |b| ==> b[i].pdfUrl in m && m[b[i].pdfUrl] != 0
    requires DistinctTargets(b, m)
    requires forall i :: 0 <= i < |b| ==> !HasKey(t, b[i].playlistId, m[b[i].pdfUrl])
    ensures |RestoreInto(b, m, t)| == |t| + |b|
    ensures forall i :: 0 <= i < |b| ==> RestoreInto(b, m, t)[|t| + i] == Target(b[i], m)
    decreases |b|
  {
    if b != [] {
      var t' := t + [Target(b[0], m)];
      FaithfulStep(b, m, t);
      RestoreFaithful(b[1..], m, t');
      FaithfulHead(b, m, t);
      forall i | 1 <= i < |b| ensures RestoreInto(b, m, t)[|t| + i] == Target(b[i], m) {
        assert b[1..][i - 1] == b[i];
      }
    }
  }

  /** The first entry of a collision-free backup is inserted, and the rest stay collision-free. */
  lemma FaithfulStep(b: seq<BackupEntry>, m: map<Option<string>, nat>, t: seq<Membership>)
    requires b != []
    requires forall i :: 0 <= i < |b| ==> b[i].pdfUrl in m && m[b[i].pdfUrl] != 0
    requires DistinctTargets(b, m)
    requires forall i :: 0 <= i < |b| ==> !HasKey(t, b[i].playlistId, m[b[i].pdfUrl])
    ensures RestoreOne(b[0], m, t) == t + [Target(b[0], m)]
    ensures RestoreInto(b, m, t) == RestoreInto(b[1..], m, t + [Target(b[0], m)])
    ensures var b', t' := b[1..], t + [Target(b[0], m)];
      (forall i :: 0 <= i < |b'| ==> b'[i].pdfUrl in m && m[b'[i].pdfUrl] != 0) &&
      DistinctTargets(b', m) &&
      (forall i :: 0 <= i < |b'| ==> !HasKey(t', b'[i].playlistId, m[b'[i].pdfUrl]))
  {
    var t' := t + [Target(b[0], m)];
    assert !HasKey(t, b[0].playlistId, m[b[0].pdfUrl]);
    forall i | 0 <= i < |b[1..]| ensures !HasKey(t', b[1..][i].playlistId, m[b[1..][i].pdfUrl]) {
      assert b[1..][i] == b[i + 1];
      assert !HasKey(t, b[i + 1].playlistId, m[b[i + 1].pdfUrl]);
    }
    assert forall i, j :: 0 <= i < j < |b[1..]| ==> b[1..][i] == b[i + 1] && b[1..][j] == b[j + 1];
  }

  /** The first entry's membership lands right after the table it was restored into. */
  lemma FaithfulHead(b: seq<BackupEntry>, m: map<Option<string>, nat>, t: seq<Membership>)
    requires b != [] && b[0].pdfUrl in m
    requires RestoreInto(b, m, t) == RestoreInto(b[1..], m, t + [Target(b[0], m)])
    requires |RestoreInto(b, m, t)| == |t| + |b|
    ensures RestoreInto(b, m, t)[|t|] == Target(b[0], m)
  {
    var t' := t + [Target(b[0], m)];
    RestoreExtends(b[1..], m, t');
    assert RestoreInto(b, m, t)[|t|] == RestoreInto(b, m, t)[..|t'|][|t|] == t'[|t|];
  }

  /** Restoring against a map with no keys restores nothing. */
  lemma {:induction false} RestoreEmptyMap(b: seq<BackupEntry>, t: seq<Membership>)
    ensures RestoreInto(b, map[], t) == t
    decreases |b|
  {
    if b != [] { RestoreEmptyMap(b[1..], t); }
  }

  // ---------------------------------------------------------------------------
  // End to end: memberships follow the relative path, not the old id

  /**
   * x stems from an old membership whose item row stored the same pdf_url as
   * the new document row x points to, with the same playlist and order_index.
   */
  ghost predicate TracedByPath(oldSongs: seq<Membership>, oldItems: seq<Item>, newItems: seq<Item>, x: Membership) {
    exists i, j, n :: 0 <= i < |oldSongs| && 0 <= j < |oldItems| && 0 <= n < |newItems| &&
      oldSongs[i].itemId == oldItems[j].id &&
      x.playlistId == oldSongs[i].playlistId && x.orderIndex == oldSongs[i].orderIndex &&
      newItems[n].id == x.itemId && newItems[n].kind == Pdf && newItems[n].pdfUrl == oldItems[j].pdfUrl
  }

  /**
   * Every membership restored after a rescan is traced by its relative path:
   * restored ids are always ids of document rows of the new table, playlist and
   * order_index are carried over unchanged, and no key is duplicated.
   */
  lemma ReconcileByPath(oldSongs: seq<Membership>, oldItems: seq<Item>, newItems: seq<Item>)
    ensures var r := RestoreInto(Backup(oldSongs, oldItems), IdMap(newItems), []);
      UniqueKeys(r) && forall k :: 0 <= k < |r| ==> TracedByPath(oldSongs, oldItems, newItems, r[k])
  {
    var b := Backup(oldSongs, oldItems);
    var m := IdMap(newItems);
    var r := RestoreInto(b, m, []);
    RestoreKeepsKeys(b, m, []);
    RestoreSound(b, m, []);
    BackupExact(oldSongs, oldItems);
    forall k | 0 <= k < |r| ensures TracedByPath(oldSongs, oldItems, newItems, r[k]) {
      assert BuiltFrom(b, m, r[k]);
      var x :| 0 <= x < |b| && b[x].pdfUrl in m && m[b[x].pdfUrl] != 0 &&
        r[k] == Membership(b[x].playlistId, m[b[x].pdfUrl], b[x].orderIndex);
      assert b[x] in b;
      var i, j :| 0 <= i < |oldSongs| && 0 <= j < |oldItems| && oldItems[j].id == oldSongs[i].itemId &&
        b[x] == BackupEntry(oldSongs[i].playlistId, oldItems[j].pdfUrl, oldSongs[i].orderIndex);
      IdMapExact(newItems, b[x].pdfUrl);
      var n :| 0 <= n < |newItems| && newItems[n].kind == Pdf && newItems[n].pdfUrl == b[x].pdfUrl &&
        newItems[n].id == m[b[x].pdfUrl] &&
        forall k' :: n < k' < |newItems| ==> newItems[k'].kind != Pdf || newItems[k'].pdfUrl != b[x].pdfUrl;
    }
  }

  /**
   * Conversely, every old membership whose item's pdf_url is still stored by
   * some document row of the new table has its playlist attached to that url's
   * new id after the restore.
   */
  lemma ReconcileKeepsSurvivors(oldSongs: seq<Membership>, oldItems: seq<Item>, newItems: seq<Item>, i: nat, j: nat, n: nat)
    requires i < |oldSongs| && j < |oldItems| && n < |newItems|
    requires oldSongs[i].itemId == oldItems[j].id
    requires newItems[n].kind == Pdf && newItems[n].pdfUrl == oldItems[j].pdfUrl
    requires forall k :: 0 <= k < |newItems| ==> newItems[k].id != 0
    ensures oldItems[j].pdfUrl in IdMap(newItems)
    ensures HasKey(RestoreInto(Backup(oldSongs, oldItems), IdMap(newItems), []),
                   oldSongs[i].playlistId, IdMap(newItems)[oldItems[j].pdfUrl])
  {
    var b := Backup(oldSongs, oldItems);
    var m := IdMap(newItems);
    var u := oldItems[j].pdfUrl;
    IdMapExact(newItems, u);
    BackupExact(oldSongs, oldItems);
    var e := BackupEntry(oldSongs[i].playlistId, u, oldSongs[i].orderIndex);
    assert e in b;
    var x :| 0 <= x < |b| && b[x] == e;
    RestoreComplete(b, m, []);
  }
}
