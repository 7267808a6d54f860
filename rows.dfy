/**
 * The rows of the three tables the synchronisation logic reads and writes:
 * LibraryItem (folders and pdf documents), PlaylistSong (memberships) and the
 * per-item metadata columns. Timestamps are not modelled.
 */
module Rows {
  import opened Wrappers

  datatype Kind = Folder | Pdf

  /** A nullable text column value: JSON null / SQL NULL, or a string. */
  type Text = Option<string>

  /** Python truthiness of a nullable string: present and not empty. */
  predicate Truthy(t: Text) {
    t.Some? && t.value != ""
  }

  /** One LibraryItem row; meta holds the user-editable metadata columns that are set. */
  datatype Item = Item(id: nat, name: string, kind: Kind, parentId: Option<nat>,
                       pdfUrl: Option<string>, meta: map<string, Text>)

  /** One PlaylistSong row; its primary key is (playlistId, itemId). */
  datatype Membership = Membership(playlistId: int, itemId: int, orderIndex: int)

  /** The fixed Root folder every scan inserts first. */
  const RootId: nat := 1
  const RootItem: Item := Item(RootId, "Root", Folder, None, None, map[])

  predicate UniqueIds(items: seq<Item>) {
    forall i, j :: 0 <= i < j < |items| ==> items[i].id != items[j].id
  }

  /** Every parent link points to a smaller id (an item is inserted after its folder). */
  predicate ParentBeforeChild(items: seq<Item>) {
    forall i :: 0 <= i < |items| && items[i].parentId.Some? ==> items[i].parentId.value < items[i].id
  }

  predicate HasKey(songs: seq<Membership>, playlistId: int, itemId: int) {
    exists k :: 0 <= k < |songs| && songs[k].playlistId == playlistId && songs[k].itemId == itemId
  }

  /** The PlaylistSong primary key holds: no two rows share (playlistId, itemId). */
  predicate UniqueKeys(songs: seq<Membership>) {
    forall i, j :: 0 <= i < j < |songs| ==>
      songs[i].playlistId != songs[j].playlistId || songs[i].itemId != songs[j].itemId
  }

  /** SELECT ... FROM LibraryItem WHERE id = ?: the first row with that id. */
  function FindItem(items: seq<Item>, id: int): (r: Option<Item>)
    ensures r.Some? ==> r.value in items && r.value.id == id
    ensures r.None? ==> forall k :: 0 <= k < |items| ==> items[k].id != id
  {
    if items == [] then None
    else if items[0].id == id then Some(items[0])
    else FindItem(items[1..], id)
  }
}
