/**
 * Two worked rescans of a playlist holding A.pdf (order 0) and B.pdf (order 1):
 * with both files still present the playlist comes back with the same paths in
 * the same order; with B.pdf deleted only A.pdf remains, at order 0.
 */
module Scenarios {
  import opened Wrappers
  import opened Rows
  import opened Paths
  import opened Scan
  import opened Reconcile
  import opened Rescans

  const DocA := Item(2, "A.pdf", Pdf, Some(RootId), Some("A.pdf"), map[])
  const DocB := Item(3, "B.pdf", Pdf, Some(RootId), Some("B.pdf"), map[])
  const OldItems := [RootItem, DocA, DocB]
  const OldSongs := [Membership(1, 2, 0), Membership(1, 3, 1)]

  lemma ExampleNames()
    ensures EndsWithPdf("A.pdf") && EndsWithPdf("B.pdf")
  {
    assert Lower("A.pdf") == "a.pdf";
    assert Lower("B.pdf") == "b.pdf";
  }

  lemma ExampleBackup()
    ensures Backup(OldSongs, OldItems) == [BackupEntry(1, Some("A.pdf"), 0), BackupEntry(1, Some("B.pdf"), 1)]
  {
    assert OldItems[1..] == [DocA, DocB] && OldItems[1..][1..] == [DocB] && OldItems[1..][1..][1..] == [];
    assert [DocA, DocB][1..] == [DocB] && [DocB][1..] == [];
    var s0 := OldSongs[0];
    var s1 := OldSongs[1];
    assert s0 == Membership(1, 2, 0) && s1 == Membership(1, 3, 1);
    assert JoinRows(s0, []) == [];
    assert JoinRows(s0, [DocB]) == [] + JoinRows(s0, []);
    assert JoinRows(s0, [DocA, DocB]) == [BackupEntry(1, Some("A.pdf"), 0)] + JoinRows(s0, [DocB]);
    assert JoinRows(s0, OldItems) == [BackupEntry(1, Some("A.pdf"), 0)];
    assert JoinRows(s1, [DocB]) == [BackupEntry(1, Some("B.pdf"), 1)] && JoinRows(s1, [DocA, DocB]) == JoinRows(s1, [DocB]);
    assert JoinRows(s1, OldItems) == [BackupEntry(1, Some("B.pdf"), 1)];
    assert OldSongs[1..] == [OldSongs[1]] && OldSongs[1..][1..] == [];
  }

  /** An empty directory still gets its folder row, directly below Root. */
  lemma EmptyDirectoryKept(lastSeq: nat)
    ensures ScannedTable(Some([Dir("d", [])]), lastSeq) ==
            [RootItem, Item(StartId(lastSeq), "d", Folder, Some(RootId), None, map[])]
  {
    var es := [Dir("d", [])];
    assert es[1..] == [];
    assert ChildPath("", "d") == "d";
  }

  const NewA := Item(4, "A.pdf", Pdf, Some(1), Some("A.pdf"), map[])
  const NewB := Item(5, "B.pdf", Pdf, Some(1), Some("B.pdf"), map[])

  lemma ExampleTableBoth()
    ensures ScannedTable(Some([File("A.pdf"), File("B.pdf")]), 3) == [RootItem, NewA, NewB]
  {
    ExampleNames();
    var es := [File("A.pdf"), File("B.pdf")];
    assert StartId(3) == 4;
    assert es[1..] == [File("B.pdf")] && es[1..][1..] == [];
    assert ChildPath("", "A.pdf") == "A.pdf" && ChildPath("", "B.pdf") == "B.pdf";
    assert ForestRows([File("B.pdf")], "", RootId, 5) == [NewB];
  }

  lemma ExampleTableOne()
    ensures ScannedTable(Some([File("A.pdf")]), 3) == [RootItem, NewA]
  {
    ExampleNames();
    assert StartId(3) == 4;
    assert ChildPath("", "A.pdf") == "A.pdf";
    assert ForestRows([File("A.pdf")], "", RootId, 4) == [NewA];
  }

  const MapBoth := map[Some("A.pdf") := 4, Some("B.pdf") := 5]
  const MapA := map[Some("A.pdf") := 4]
  const EntryA := BackupEntry(1, Some("A.pdf"), 0)
  const EntryB := BackupEntry(1, Some("B.pdf"), 1)

  lemma ExampleMaps()
    ensures IdMap([RootItem, NewA, NewB]) == MapBoth
    ensures IdMap([RootItem, NewA]) == MapA
  {
    var a := NewA;
    var b := NewB;
    assert [RootItem, a, b][..2] == [RootItem, a] && [RootItem, a][..1] == [RootItem] && [RootItem][..0] == [];
    assert IdMap([RootItem]) == map[];
    assert IdMap([RootItem, a]) == map[Some("A.pdf") := 4];
    assert Some("A.pdf") != Some("B.pdf") by { assert "A.pdf"[0] != "B.pdf"[0]; }
  }

  lemma RestoreTwo(e0: BackupEntry, e1: BackupEntry, m: map<Option<string>, nat>)
    ensures RestoreInto([e0, e1], m, []) == RestoreOne(e1, m, RestoreOne(e0, m, []))
  {
    assert [e0, e1][1..] == [e1] && [e1][1..] == [];
    var t0 := RestoreOne(e0, m, []);
    assert RestoreInto([e0, e1], m, []) == RestoreInto([e1], m, t0);
    assert RestoreInto([e1], m, t0) == RestoreInto([], m, RestoreOne(e1, m, t0));
  }

  lemma FidelityInput()
    ensures Restored(OldSongs, OldItems, [File("A.pdf"), File("B.pdf")], 3) == RestoreInto([EntryA, EntryB], MapBoth, [])
  {
    ExampleBackup();
    ExampleTableBoth();
    ExampleMaps();
  }

  lemma DropInput()
    ensures Restored(OldSongs, OldItems, [File("A.pdf")], 3) == RestoreInto([EntryA, EntryB], MapA, [])
  {
    ExampleBackup();
    ExampleTableOne();
    ExampleMaps();
  }

  lemma FirstRestored(m: map<Option<string>, nat>)
    requires m == MapBoth || m == MapA
    ensures RestoreOne(EntryA, m, []) == [Membership(1, 4, 0)]
  {
    assert Some("A.pdf") in m && m[Some("A.pdf")] == 4;
  }

  lemma SecondRestored()
    ensures RestoreOne(EntryB, MapBoth, [Membership(1, 4, 0)]) == [Membership(1, 4, 0), Membership(1, 5, 1)]
  {
    assert Some("B.pdf") in MapBoth && MapBoth[Some("B.pdf")] == 5;
    assert !HasKey([Membership(1, 4, 0)], 1, 5);
  }

  /** With both files unchanged the playlist is restored onto the new ids, same paths, same order. */
  lemma ReconciliationFidelity()
    ensures Restored(OldSongs, OldItems, [File("A.pdf"), File("B.pdf")], 3) == [Membership(1, 4, 0), Membership(1, 5, 1)]
  {
    FidelityInput();
    RestoreTwo(EntryA, EntryB, MapBoth);
    FirstRestored(MapBoth);
    SecondRestored();
  }

  /** With B.pdf deleted, only A.pdf remains in the playlist, at order 0. */
  lemma ReconciliationDrop()
    ensures Restored(OldSongs, OldItems, [File("A.pdf")], 3) == [Membership(1, 4, 0)]
  {
    DropInput();
    RestoreTwo(EntryA, EntryB, MapA);
    assert Some("B.pdf") !in MapA by { assert "A.pdf"[0] != "B.pdf"[0]; }
    FirstRestored(MapA);
  }
}
