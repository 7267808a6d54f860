/**
 * Playlist ordering: validation of a reorder request, the effect of its
 * per-position UPDATEs, and the order_index chosen when a song is added.
 * The table-changing loops themselves are methods of Library.Library.
 */
module Playlists {
  import opened Wrappers
  import opened Rows

  /** The request's 'new_order' field: something that is not a JSON list, or a list of ids. */
  datatype OrderPayload = NotAList | IdList(ids: seq<int>)

  datatype ReorderError =
    | InvalidOrder   // missing, empty or not a list
    | ForeignId      // some id is not a member of the playlist
    | CountMismatch  // the list's length differs from the number of members
    | DuplicateId    // (corrected check only) an id occurs twice

  /** The library_item_ids currently in playlist p. */
  function Members(songs: seq<Membership>, p: int): (r: set<int>)
    ensures forall id :: id in r <==> HasKey(songs, p, id)
  {
    set k | 0 <= k < |songs| && songs[k].playlistId == p :: songs[k].itemId
  }

  predicate Distinct(s: seq<int>) {
    forall i, j :: 0 <= i < j < |s| ==> s[i] != s[j]
  }

  predicate AllMembers(ids: seq<int>, members: set<int>) {
    forall i :: 0 <= i < |ids| ==> ids[i] in members
  }

  /** The validation of reorder_playlist_songs, in its order of checks. */
  function CheckReorderAsWritten(payload: OrderPayload, members: set<int>): (r: Result<seq<int>, ReorderError>)
    ensures r.Ok? <==> payload.IdList? && payload.ids != [] && AllMembers(payload.ids, members) &&
                       |payload.ids| == |members|
    ensures r.Ok? ==> r.value == payload.ids
    ensures r == Err(InvalidOrder) <==> payload == NotAList || payload.ids == []
    ensures r == Err(ForeignId) <==> payload.IdList? && payload.ids != [] && !AllMembers(payload.ids, members)
  {
    match payload
    case NotAList => Err(InvalidOrder)
    case IdList(ids) =>
      if ids == [] then Err(InvalidOrder)
      else if !AllMembers(ids, members) then Err(ForeignId)
      else if |ids| != |members| then Err(CountMismatch)
      else Ok(ids)
  }

  /** The check the request evidently means: the list is an enumeration of the members. */
  function CheckReorder(payload: OrderPayload, members: set<int>): (r: Result<seq<int>, ReorderError>)
    ensures r.Ok? <==> payload.IdList? && payload.ids != [] && Distinct(payload.ids) &&
                       (set i | 0 <= i < |payload.ids| :: payload.ids[i]) == members
    ensures r.Ok? ==> r.value == payload.ids
  {
    match payload
    case NotAList => Err(InvalidOrder)
    case IdList(ids) =>
      EnumerationIff(ids, members);
      if ids == [] then Err(InvalidOrder)
      else if !AllMembers(ids, members) then Err(ForeignId)
      else if |ids| != |members| then Err(CountMismatch)
      else if !Distinct(ids) then Err(DuplicateId)
      else Ok(ids)
  }

  lemma {:induction false} DistinctCard(ids: seq<int>)
    requires Distinct(ids)
    ensures |set i | 0 <= i < |ids| :: ids[i]| == |ids|
    decreases |ids|
  {
    if ids != [] {
      var t := ids[..|ids| - 1];
      DistinctCard(t);
      var st := set i | 0 <= i < |t| :: t[i];
      assert forall i :: 0 <= i < |t| ==> t[i] == ids[i];
      assert (set i | 0 <= i < |ids| :: ids[i]) == st + {ids[|ids| - 1]};
      assert ids[|ids| - 1] !in st;
    }
  }

  lemma SubsetSameCard(a: set<int>, b: set<int>)
    requires a <= b && |a| == |b|
    ensures a == b
  {
    var d := b - a;
    assert b == a + d && a * d == {};
    assert |d| == 0;
    assert d == {};
    assert b == a + d == a;
  }

  lemma EnumerationIff(ids: seq<int>, members: set<int>)
    ensures Distinct(ids) && AllMembers(ids, members) && |ids| == |members| <==>
            Distinct(ids) && (set i | 0 <= i < |ids| :: ids[i]) == members
  {
    var s := set i | 0 <= i < |ids| :: ids[i];
    if Distinct(ids) {
      DistinctCard(ids);
      if AllMembers(ids, members) && |ids| == |members| { SubsetSameCard(s, members); }
      if s == members { assert forall i :: 0 <= i < |ids| ==> ids[i] in s; }
    }
  }

  /** On a list without duplicates the two checks give the same verdict. */
  lemma ChecksAgreeWithoutDuplicates(payload: OrderPayload, members: set<int>)
    requires payload.IdList? ==> Distinct(payload.ids)
    ensures CheckReorder(payload, members) == CheckReorderAsWritten(payload, members)
  {
  }

  // ---------------------------------------------------------------------------
  // The UPDATE loop's effect

  /** UPDATE PlaylistSong SET order_index = index WHERE playlist_id = p AND library_item_id = id */
  function SetOrder(songs: seq<Membership>, p: int, id: int, index: int): (r: seq<Membership>)
    ensures |r| == |songs|
    ensures forall k :: 0 <= k < |songs| ==>
      r[k] == if songs[k].playlistId == p && songs[k].itemId == id then songs[k].(orderIndex := index) else songs[k]
  {
    seq(|songs|, k requires 0 <= k < |songs| =>
      if songs[k].playlistId == p && songs[k].itemId == id then songs[k].(orderIndex := index) else songs[k])
  }

  /** The table after the UPDATEs for positions 0 .. |ids|-1, in that order. */
  function ApplyOrder(songs: seq<Membership>, p: int, ids: seq<int>): seq<Membership>
    decreases |ids|
  {
    if ids == [] then songs
    else SetOrder(ApplyOrder(songs, p, ids[..|ids| - 1]), p, ids[|ids| - 1], |ids| - 1)
  }

  /** One more UPDATE of the loop. */
  lemma ApplyOrderSnoc(songs: seq<Membership>, p: int, ids: seq<int>, i: nat)
    requires i < |ids|
    ensures ApplyOrder(songs, p, ids[..i + 1]) == SetOrder(ApplyOrder(songs, p, ids[..i]), p, ids[i], i)
  {
    assert ids[..i + 1][..i] == ids[..i];
  }

  /** The UPDATEs change only order_index, so the primary key still holds. */
  lemma ApplyOrderKeepsKeys(songs: seq<Membership>, p: int, ids: seq<int>)
    requires UniqueKeys(songs)
    ensures UniqueKeys(ApplyOrder(songs, p, ids))
  {
    ApplyOrderEffect(songs, p, ids);
  }

  /** The last position at which x occurs: the UPDATE that runs last for x. */
  function LastIndex(ids: seq<int>, x: int): (r: nat)
    requires x in ids
    ensures r < |ids| && ids[r] == x && forall j :: r < j < |ids| ==> ids[j] != x
    decreases |ids|
  {
    if ids[|ids| - 1] == x then |ids| - 1
    else
      assert x in ids[..|ids| - 1] by {
        var i :| 0 <= i < |ids| && ids[i] == x;
        assert ids[..|ids| - 1][i] == x;
      }
      LastIndex(ids[..|ids| - 1], x)
  }

  /**
   * Each row of playlist p whose item occurs in the list ends with the last
   * position of that item; every other row, and every row's key, is unchanged.
   */
  lemma {:induction false} ApplyOrderEffect(songs: seq<Membership>, p: int, ids: seq<int>)
    ensures |ApplyOrder(songs, p, ids)| == |songs|
    ensures forall k :: 0 <= k < |songs| ==>
      var r := ApplyOrder(songs, p, ids)[k];
      r.playlistId == songs[k].playlistId && r.itemId == songs[k].itemId &&
      r.orderIndex == if songs[k].playlistId == p && songs[k].itemId in ids
                      then LastIndex(ids, songs[k].itemId) else songs[k].orderIndex
    decreases |ids|
  {
    if ids != [] {
      var init := ids[..|ids| - 1];
      ApplyOrderEffect(songs, p, init);
      forall k | 0 <= k < |songs| && songs[k].itemId in init
        ensures songs[k].itemId in ids
      {
        var i :| 0 <= i < |init| && init[i] == songs[k].itemId;
        assert ids[i] == init[i];
      }
      forall k | 0 <= k < |songs| && songs[k].itemId in ids && songs[k].itemId != ids[|ids| - 1]
        ensures songs[k].itemId in init
      {
        var i :| 0 <= i < |ids| && ids[i] == songs[k].itemId;
        assert init[i] == ids[i];
      }
    }
  }

  /** Some row of playlist p holds position i. */
  ghost predicate AtOrder(songs: seq<Membership>, p: int, i: int) {
    exists k :: 0 <= k < |songs| && songs[k].playlistId == p && songs[k].orderIndex == i
  }

  /** The order_index values of playlist p are 0 .. n-1, each held by exactly one row. */
  ghost predicate DenseOrders(songs: seq<Membership>, p: int, n: nat) {
    (forall k :: 0 <= k < |songs| && songs[k].playlistId == p ==> 0 <= songs[k].orderIndex < n) &&
    (forall i :: 0 <= i < n ==> AtOrder(songs, p, i)) &&
    (forall k1, k2 :: 0 <= k1 < k2 < |songs| && songs[k1].playlistId == p && songs[k2].playlistId == p ==>
       songs[k1].orderIndex != songs[k2].orderIndex)
  }

  /**
   * An accepted (corrected) reorder leaves playlist p densely ordered with every
   * member at its position in the submitted list, and other playlists untouched.
   */
  lemma ReorderDense(songs: seq<Membership>, p: int, ids: seq<int>)
    requires UniqueKeys(songs)
    requires CheckReorder(IdList(ids), Members(songs, p)).Ok?
    ensures var r := ApplyOrder(songs, p, ids);
      |r| == |songs| && DenseOrders(r, p, |ids|) &&
      (forall k :: 0 <= k < |r| && r[k].playlistId == p ==> ids[r[k].orderIndex] == r[k].itemId) &&
      (forall k :: 0 <= k < |r| && r[k].playlistId != p ==> r[k] == songs[k])
  {
    var r := ApplyOrder(songs, p, ids);
    ApplyOrderEffect(songs, p, ids);
    var members := Members(songs, p);
    assert forall k :: 0 <= k < |songs| && songs[k].playlistId == p ==> songs[k].itemId in members;
    assert forall k :: 0 <= k < |songs| && songs[k].playlistId == p ==> songs[k].itemId in ids by {
      forall k | 0 <= k < |songs| && songs[k].playlistId == p ensures songs[k].itemId in ids {
        assert songs[k].itemId in (set i | 0 <= i < |ids| :: ids[i]);
      }
    }
    forall i | 0 <= i < |ids|
      ensures AtOrder(r, p, i)
    {
      assert ids[i] in (set j | 0 <= j < |ids| :: ids[j]);
      assert HasKey(songs, p, ids[i]);
      var k :| 0 <= k < |songs| && songs[k].playlistId == p && songs[k].itemId == ids[i];
      assert r[k].orderIndex == LastIndex(ids, ids[i]) == i;
    }
  }

  const TwoSongs := [Membership(7, 1, 0), Membership(7, 2, 1)]

  lemma TwoMembers()
    ensures Members(TwoSongs, 7) == {1, 2}
  {
    assert TwoSongs[0].itemId == 1 && TwoSongs[1].itemId == 2;
    assert HasKey(TwoSongs, 7, 1) && HasKey(TwoSongs, 7, 2);
  }

  lemma DuplicateOrder()
    ensures ApplyOrder(TwoSongs, 7, [1, 1]) == [Membership(7, 1, 1), Membership(7, 2, 1)]
  {
    assert [1, 1][..1] == [1] && [1][..0] == [];
    assert ApplyOrder(TwoSongs, 7, [1]) == TwoSongs;
  }

  /** With a duplicate id the request as written is accepted and leaves two rows on one position. */
  lemma DuplicateIdsAccepted()
    ensures var r := ApplyOrder(TwoSongs, 7, [1, 1]);
      CheckReorderAsWritten(IdList([1, 1]), Members(TwoSongs, 7)).Ok? &&
      CheckReorder(IdList([1, 1]), Members(TwoSongs, 7)) == Err(DuplicateId) &&
      r == [Membership(7, 1, 1), Membership(7, 2, 1)] && !DenseOrders(r, 7, 2)
  {
    TwoMembers();
    DuplicateOrder();
    var r := ApplyOrder(TwoSongs, 7, [1, 1]);
    assert r[0].orderIndex == r[1].orderIndex;
  }

  // ---------------------------------------------------------------------------
  // add_song_to_playlist

  datatype AddError = ItemIdRequired | AlreadyInPlaylist

  /** SELECT MAX(order_index) FROM PlaylistSong WHERE playlist_id = p */
  function MaxOrder(songs: seq<Membership>, p: int): (r: Option<int>)
    ensures r.None? <==> forall k :: 0 <= k < |songs| ==> songs[k].playlistId != p
    ensures r.Some? ==> (forall k :: 0 <= k < |songs| && songs[k].playlistId == p ==> songs[k].orderIndex <= r.value) &&
                        exists k :: 0 <= k < |songs| && songs[k].playlistId == p && songs[k].orderIndex == r.value
    decreases |songs|
  {
    if songs == [] then None
    else
      var rest := MaxOrder(songs[1..], p);
      assert forall k :: 1 <= k < |songs| ==> songs[k] == songs[1..][k - 1];
      if songs[0].playlistId != p then rest
      else if rest.Some? && rest.value > songs[0].orderIndex then rest
      else Some(songs[0].orderIndex)
  }

  /** MAX(order_index) + 1, or 0 for an empty playlist: one above the largest order_index the playlist holds. */
  function NextOrder(songs: seq<Membership>, p: int): (r: int)
    ensures forall k :: 0 <= k < |songs| && songs[k].playlistId == p ==> songs[k].orderIndex < r
    ensures (forall k :: 0 <= k < |songs| ==> songs[k].playlistId != p) ==> r == 0
    ensures MaxOrder(songs, p).Some? ==> r == MaxOrder(songs, p).value + 1
    ensures (exists k :: 0 <= k < |songs| && songs[k].playlistId == p) ==>
      exists k :: 0 <= k < |songs| && songs[k].playlistId == p && songs[k].orderIndex == r - 1
  {
    match MaxOrder(songs, p)
    case None => 0
    case Some(m) => m + 1
  }

  /**
   * The membership add_song_to_playlist inserts, or why it refuses: a missing
   * or zero id, or an item already in the playlist. Nothing checks that the
   * item or the playlist exists.
   */
  function PlanAdd(songs: seq<Membership>, p: int, itemId: Option<int>): (r: Result<Membership, AddError>)
    ensures r == Err(ItemIdRequired) <==> itemId.None? || itemId.value == 0
    ensures r == Err(AlreadyInPlaylist) <==> itemId.Some? && itemId.value != 0 && HasKey(songs, p, itemId.value)
    ensures r.Ok? ==> r.value.playlistId == p && r.value.itemId == itemId.value &&
                      r.value.orderIndex == NextOrder(songs, p)
  {
    if itemId.None? || itemId.value == 0 then Err(ItemIdRequired)
    else if HasKey(songs, p, itemId.value) then Err(AlreadyInPlaylist)
    else Ok(Membership(p, itemId.value, NextOrder(songs, p)))
  }

  /** Appending an accepted membership keeps the primary key and a dense order. */
  lemma AddKeepsInvariants(songs: seq<Membership>, p: int, itemId: Option<int>, n: nat)
    requires UniqueKeys(songs) && PlanAdd(songs, p, itemId).Ok?
    ensures UniqueKeys(songs + [PlanAdd(songs, p, itemId).value])
    ensures DenseOrders(songs, p, n) ==> DenseOrders(songs + [PlanAdd(songs, p, itemId).value], p, n + 1)
  {
    var m := PlanAdd(songs, p, itemId).value;
    var r := songs + [m];
    if DenseOrders(songs, p, n) {
      assert m.orderIndex == n by {
        if n == 0 {
          assert forall k :: 0 <= k < |songs| ==> songs[k].playlistId != p;
        } else {
          assert AtOrder(songs, p, n - 1);
          var k :| 0 <= k < |songs| && songs[k].playlistId == p && songs[k].orderIndex == n - 1;
          var mo := MaxOrder(songs, p);
          var j :| 0 <= j < |songs| && songs[j].playlistId == p && songs[j].orderIndex == mo.value;
        }
      }
      forall i | 0 <= i < n + 1
        ensures AtOrder(r, p, i)
      {
        if i == n { assert r[|songs|] == m; }
        else {
          assert AtOrder(songs, p, i);
          var k :| 0 <= k < |songs| && songs[k].playlistId == p && songs[k].orderIndex == i;
          assert r[k] == songs[k];
        }
      }
    }
  }
}
