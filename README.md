# Sheet-Pro library synchronisation, modelled in Dafny

Sheet-Pro is a Flask server. It mirrors a directory of sheet-music PDFs into
an SQLite library and keeps playlists of those documents. This project models
the library synchronisation logic of `app.py` and proves properties of it. The
database tables are Dafny sequences and the filesystem is an abstract tree.

- **Rescan** (`scan_pdfs_and_populate_db`). The model takes the snapshot of
  `(playlist_id, pdf_url, order_index)` triples, wipes both tables and
  re-inserts Root with id 1. It then walks the tree depth first, in listing
  order, and restores each triple onto the new id of the same `pdf_url`.
  `App.Library` holds the `LibraryItem` rows, the `PlaylistSong` rows and the
  AUTOINCREMENT counter. `Library.Rescan` and its helper methods do the work as
  loops and recursive calls. Each is proved against the pure functions
  `Scan.ScannedTable` (the rows the walk inserts) and `Reconcile.RestoreInto`
  (the restore pass).
- **Materialiser** (`build_nested_structure` in `get_library`, module
  `Materialize`). It builds nested folder contents from the flat table. The
  sort key `(type == 'pdf', name.lower())` is a stable insertion sort.
- **Reorder** (`reorder_playlist_songs`). `Playlists` checks the request and
  states the effect of the UPDATE loop. `Library.Reorder` runs the loop.
- **Rename** (`rename_library_item`). `Rename` computes the plan and every
  refusal. `Library.Rename` performs the row update.
- **Metadata** (`update_library_item_metadata`). `Metadata` holds the
  allow-list loop, the rating and playtime checks and the "no fields" refusal.
  `Library.UpdateMetadata` performs the UPDATE.
- **Add to playlist** (`add_song_to_playlist`). `Playlists.PlanAdd` decides the
  outcome. `Library.AddSong` inserts the row and then looks the item up.

`Paths` models the POSIX behaviour of `os.path.join`, `dirname` and
`basename`, plus ASCII `str.lower`. `Scenarios` and `MaterializeExample` work
through concrete examples.

Four inputs are parameters of the model:

- the storage listing: `None` when the storage path is unset or not a
  directory;
- the set of paths `os.path.exists` reports;
- whether `os.rename` fails;
- `float()` acceptance of a string.

Two facts about the code that a reader might not expect:

- The sort key `name.lower()` orders "a.pdf" before "B.pdf".
  `MaterializeExample.FoldersFirstThenCaseInsensitive` proves the order m, Z,
  a.pdf, B.pdf for a folder holding those four entries.
- The metadata allow-list names the time-signature column `time`.

## Model

| member | source | states |
|---|---|---|
| Rows.FindItem | app.py:465-466 | the row found has the requested id; None means no row has it |
| Paths.Lower | app.py:87 | same length, each character lower-cased (ASCII) |
| Paths.LowerAppend | app.py:87 | lower-casing distributes over concatenation |
| Paths.EndsWithPdf | app.py:87 | `name.lower().endswith('.pdf')`: the lowered name's last four characters are ".pdf"; Paths.WithPdfSuffix and Scan.EntryUrls rely on it |
| Paths.WithPdfSuffix | app.py:479-480 | the result always ends in ".pdf" case-insensitively; the name is kept when it already did, else ".pdf" is appended |
| Paths.SplitPoint | app.py:475-476 | the split index of basename/dirname: preceded by '/', nothing after it contains '/' |
| Paths.RStripSlash | app.py:476 | rstrip('/') leaves a prefix not ending in '/' and strips only slashes |
| Paths.PathJoin | app.py:481 | posixpath.join: an absolute second part replaces the first, else one '/' separates them unless the first is empty or ends in '/'; characterised by Paths.JoinSplit and Rename.JoinExtends |
| Paths.Basename | app.py:475 | the part of the path after its last '/'; characterised by Paths.SplitPoint and Paths.JoinSplit |
| Paths.Dirname | app.py:476 | the part before the last '/', trailing slashes stripped unless only slashes remain; characterised by Paths.DirnameShaped and Paths.JoinSplit |
| Paths.DirnameShaped | app.py:476 | every dirname is empty, all slashes, or does not end in '/' |
| Paths.JoinSplit | app.py:476-482 | joining a dirname-shaped directory with a slash-free name and splitting again gives back the directory (dirname) and the name (basename) |
| Scan.ChildPath | app.py:105 | a top-level entry's relative path is its name, a nested entry's is its name joined onto its folder's; Scan.EntryUrls and Scan.EntryFolders characterise the paths it builds |
| Scan.EntryRows | app.py:82-106 | insert_scanned_item: nothing for a non-".pdf" file, a document row for a ".pdf" file, a folder row followed by its listing's rows for a directory; characterised by Scan.EntryShape, Scan.EntryUrls, Scan.EntryFolders and Scan.EntryShift |
| Scan.ForestRows | app.py:102-106 | the listing loop: each entry's rows in listing order, numbered on; characterised by Scan.ForestShape, Scan.ForestUrls, Scan.ForestFolders and Scan.ForestShift |
| Scan.StartId | app.py:77-98 | the first id after Root's explicit id 1 raised the counter to at least 1; Scan.ScannedTableShape states the ids it yields |
| Scan.ScannedTable | app.py:60-112 | the table after a scan: Root, then the walk of the storage listing when there is one; characterised by Scan.ScannedTableShape, Rescans.ScannedDocuments and Rescans.ScannedFolders |
| Scan.ScanCounter | app.py:77-112 | the counter a scan leaves: at least 1 and at least the old counter, and the next scan starts one id after the last row this one inserted |
| Scan.ForestLoopStep | app.py:102-112 | one iteration of a listing loop: entry i's rows followed by the rest's rows are the rows still to come from i on, and the counter advances by as many |
| Scan.EntryShape | app.py:82-106 | the rows inserted for one entry carry consecutive ids from the next counter value; each row links to the containing folder or to an earlier folder row of the entry; only documents carry a pdf_url and their names end in ".pdf" |
| Scan.ForestShape | app.py:102-112 | the same shape for a whole listing, every top-level row linking to the listing's folder |
| Scan.ScannedTableShape | app.py:60-112 | after any scan row 0 is Root (id 1, no parent); ids are unique and above the old counter; parents come earlier and are folders; with no storage directory the table is just Root |
| Scan.EntryPaths | app.py:97-106 | every document row inserted for an entry stores the path spelled by its chain of parent folders |
| Scan.ForestPaths | app.py:102-112 | the same for a whole listing |
| Scan.ScannedUrlsArePaths | app.py:97-112 | each document stores its parent folder's path joined with its name, up to Root; a top-level document stores its bare name |
| Scan.EntryUrls | app.py:83-97 | the pdf_urls one entry inserts are exactly the relative paths of the ".pdf" files below it |
| Scan.ForestUrls | app.py:102-112 | the set of pdf_urls a walk stores equals the set of ".pdf" paths of the listing, read off the tree independently |
| Scan.EntryFolders | app.py:82-106 | the folder rows one entry inserts, with paths rebuilt from their parent links, are exactly the directories at and below it |
| Scan.ForestFolders | app.py:102-112 | the folder rows a walk inserts stand for exactly the directories of the listing: each directory has one, and each folder row's parent chain spells a directory's path |
| Scan.EntryShift | app.py:82-106 | walking one entry from another starting id and parent gives the same rows with ids and links moved by the offset |
| Scan.ForestShift | app.py:102-112 | the same for a whole listing |
| Scan.RescanIsomorphic | app.py:60-112 | rescanning an unchanged tree rebuilds the same mirror: Root is identical; every other row keeps name, kind, pdf_url and link structure; ids move by one offset |
| Reconcile.JoinRows | app.py:50-54 | the JOIN for one membership: one triple per item row whose id matches, in table order; characterised by Reconcile.JoinRowsExact |
| Reconcile.Backup | app.py:50-55 | playlist_backup: the JOIN rows of each membership in table order; characterised by Reconcile.BackupExact |
| Reconcile.IdMap | app.py:122-123 | new_id_map: pdf_url to id over document rows, a later row overwriting an earlier one; characterised by Reconcile.IdMapExact |
| Reconcile.RestoreOne | app.py:130-140 | one entry of the restore loop: insert onto the mapped id when it is truthy and the key is free, else skip; Reconcile.RestoreSound and Reconcile.RestoreKeepsKeys state its effect |
| Reconcile.RestoreInto | app.py:125-142 | the restore loop over the backup; characterised by Reconcile.RestoreSound, Reconcile.RestoreComplete, Reconcile.RestoreFaithful and Reconcile.RestoreDropsUnmapped |
| Reconcile.JoinRowsExact | app.py:50-54 | the join rows of one membership are exactly its playlist and order paired with the pdf_url of each item row carrying its id |
| Reconcile.BackupExact | app.py:50-55 | the backup holds exactly one triple per membership/item pair the join matches |
| Reconcile.IdMapExact | app.py:122-123 | a url is a key exactly when some document row stores it; it maps to the id of the last such row, never to a folder |
| Reconcile.IdMapNoDocuments | app.py:122-123 | a table with no document rows gives an empty map |
| Reconcile.RestoreExtends | app.py:125-142 | the restore pass only appends, at most one row per entry |
| Reconcile.RestoreSound | app.py:130-138 | every restored row comes from an entry whose url maps to a truthy new id; playlist and order_index are copied verbatim |
| Reconcile.RestoreComplete | app.py:130-140 | every entry whose url maps to a truthy id ends up with its (playlist, new id) key in the table, inserted for it or for an earlier duplicate |
| Reconcile.RestoreKeepsKeys | app.py:133-140 | duplicate-key inserts are skipped, so the PlaylistSong primary key always holds |
| Reconcile.RestoreDropsUnmapped | app.py:130-142 | an entry whose url is absent from the map is dropped: the result is as if it were not in the backup |
| Reconcile.RestoreFaithful | app.py:125-138 | with every url mapped and no key collision, the restored rows are the backup entry by entry, in order, with only the item id replaced |
| Reconcile.RestoreEmptyMap | app.py:119-123 | an empty map restores nothing |
| Reconcile.ReconcileByPath | app.py:48-142 | each restored membership points to a new document row storing the same pdf_url as an old member of the same playlist, at the same order_index; no key is duplicated |
| Reconcile.ReconcileKeepsSurvivors | app.py:120-140 | each old membership whose pdf_url some new document still stores is re-attached to that url's new id |
| Rescans.ScannedRows | app.py:76-112 | row k of a scanned table is Root for k = 0 and row k-1 of the walk otherwise; no id is 0 |
| Rescans.ScannedPathStored | app.py:83-112 | every ".pdf" file of the tree is stored by a document row of the scanned table |
| Rescans.ScannedRowIsPath | app.py:83-112 | every document row of the scanned table stores the path of a ".pdf" file of the tree |
| Rescans.ScannedDocuments | app.py:83-112 | the document rows store exactly the ".pdf" paths of the tree, both directions |
| Rescans.ScannedFolders | app.py:82-112 | the folder rows below Root stand for exactly the directories of the tree |
| Rescans.RescanKeepsPresentPaths | app.py:48-142 | a playlist entry whose document's path is still a ".pdf" file of the tree is restored onto the new row for that path |
| Rescans.RescanDropsVanishedPaths | app.py:48-142 | every membership a rescan leaves points to a document whose path is still a ".pdf" file of the tree and was an old member's path, same playlist and order_index; entries whose file vanished are gone |
| Rescans.RescanLibraryRoot | app.py:310-336 | after any rescan get_library finds Root at id 1 and lists the tree below it |
| Rescans.RescanTwice | app.py:60-112 | two consecutive rescans of an unchanged tree give the same mirror, the second's non-root ids moved up by the number of rows the first inserted below Root |
| App.RenameRows | app.py:502-503 | the row with that id takes the new name and pdf_url; every other row is unchanged |
| App.UpdateRows | app.py:551-556 | the row with that id takes the assignments on its metadata; every other row is unchanged |
| App.SameLinksValid | app.py:551-556 | the table constraints depend only on ids and parent links, so UPDATEs of other columns keep them |
| App.Library.InsertItem | app.py:93-98 | the row goes at the end with id lastrowid = counter + 1, and the counter advances to it |
| App.Library.InsertScanned | app.py:82-106 | appends exactly EntryRows for the entry and advances the counter by their number; memberships are untouched |
| App.Library.InsertListing | app.py:102-112 | the listing loop appends exactly ForestRows for the listing, one entry after another |
| App.Library.RebuildItems | app.py:60-112 | the wiped and rebuilt table equals ScannedTable of the listing and the counter becomes ScanCounter; ids are unique, within the counter, parents first |
| App.Library.RestoreMemberships | app.py:125-142 | the memberships become RestoreInto of the backup; restored_count counts only the inserts that succeeded |
| App.Library.ScannedValid | app.py:76-112 | a scanned table meets the table constraints below the counter the scan leaves |
| App.Library.Rescan | app.py:38-145 | items become ScannedTable(listing, old counter) and the counter ScanCounter of it; memberships become the restore of the old backup over the new table's map; the count returned is the number restored; the constraints hold |
| App.Library.Reorder | app.py:735-755 | the verdict is the duplicate-free check; on acceptance the loop's table is ApplyOrder of the ids; on refusal nothing changes; items and counter are untouched |
| App.Library.AddSong | app.py:676-702 | a refusal changes nothing; otherwise the membership PlanAdd computes is appended and committed; the reply is the item's row, or ItemMissing exactly when no row has that id |
| App.Library.Rename | app.py:461-511 | the outcome is the corrected plan, or MoveFailed when the move fails; on success only that row's name and pdf_url change; on any error nothing changes |
| App.Library.UpdateMetadata | app.py:522-560 | a validation error is returned as is; a missing id gives NoSuchItem without change; otherwise the validated assignments are applied to that row |
| App.Library.SetColumns | app.py:551-557 | the UPDATE applies the assignments to the row with that id and keeps the constraints |
| App.Library.Contents | app.py:306-338 | get_library's contents: empty without a Root row, else the built tree below the first Root |
| Materialize.LexLe | app.py:333 | Python's string `<=`: code-point order, a prefix first; Materialize.LexLeRefl, LexLeTotal, LexLeTrans and LexLeAntisym show it is a total order |
| Materialize.KeyOf | app.py:333 | the sort key `(type == 'pdf', name.lower())`; Materialize.KeyLe orders it |
| Materialize.KeyLe | app.py:333 | tuple comparison of two keys: False before True, then the lowered names; Materialize.KeyLeRefl, KeyLeTotal, KeyLeTrans and KeyLeAntisym show it is a total order |
| Materialize.Insert | app.py:333 | one step of the stable sort: x goes before the first element whose key it does not exceed; Materialize.InsertPermutes, InsertSorted and InsertWithKey characterise it |
| Materialize.SortByKey | app.py:333 | sorted(children, key=...) as a stable insertion sort; Materialize.SortSorted and Materialize.SortStable characterise it |
| Materialize.LexLeRefl | app.py:333 | Python string comparison is reflexive |
| Materialize.LexLeTotal | app.py:333 | and total |
| Materialize.LexLeTrans | app.py:333 | and transitive |
| Materialize.LexLeAntisym | app.py:333 | and antisymmetric |
| Materialize.KeyLeRefl | app.py:333 | the tuple key order is reflexive |
| Materialize.KeyLeTotal | app.py:333 | total |
| Materialize.KeyLeTrans | app.py:333 | transitive |
| Materialize.KeyLeAntisym | app.py:333 | antisymmetric |
| Materialize.InsertPermutes | app.py:333 | insertion adds exactly one element |
| Materialize.InsertSorted | app.py:333 | insertion into a sorted list keeps it sorted |
| Materialize.SortSorted | app.py:333 | sorted() yields key order and a permutation of its input |
| Materialize.SortOrders | app.py:333 | the sort yields key order |
| Materialize.SortPermutes | app.py:333 | the sort is a permutation |
| Materialize.InsertWithKey | app.py:333 | insertion puts x among the elements of its key after none of them |
| Materialize.SortStable | app.py:333 | the sort is stable: elements sharing a key keep their input order |
| Materialize.ChildrenOf | app.py:325-326 | every child returned is a table row whose parent_id is the folder |
| Materialize.ChildrenOfExact | app.py:325-326 | each row occurs among a folder's children exactly as often as in the table when its parent_id is the folder, else never |
| Materialize.NodeFor | app.py:327-330 | the copy of one child row; a folder's copy carries its own materialised contents; Materialize.BuildNodes characterises it |
| Materialize.BuildEach | app.py:325-331 | the children list in table order, one copy per child; characterised by Materialize.BuildEachExact |
| Materialize.Build | app.py:323-333 | build_nested_structure; characterised by Materialize.BuildSortsChildren and Materialize.BuildMembers |
| Materialize.BuildEachExact | app.py:325-330 | one node per child, in order, each the copy of that child |
| Materialize.BuildSortsChildren | app.py:323-333 | a folder's contents are a sorted, stable permutation of its children's copies |
| Materialize.BuildMembers | app.py:323-333 | a node is in a folder's contents exactly when it is the copy of a row whose parent_id is that folder |
| Materialize.BuildMemberFrom | app.py:323-333 | each node of the contents is a child's copy |
| Materialize.BuildMemberTo | app.py:323-333 | each child's copy is in the contents |
| Materialize.BuildNodes | app.py:326-330 | every node in a folder's contents has that folder as parent; only folder nodes carry contents, their own materialised contents |
| Materialize.FindRoot | app.py:310-314 | the id of the first row with no parent named "Root": None exactly when there is none |
| Materialize.LibraryContents | app.py:316-336 | no Root gives empty contents, else the tree built below the first Root |
| MaterializeExample.ExampleChildList | app.py:325-326 | with rows Z, a.pdf, B.pdf, m below Root, Root's children are those rows in table order; both folders are empty |
| MaterializeExample.ExampleSort | app.py:333 | the key order sorts Z, a.pdf, B.pdf, m as m, Z, a.pdf, B.pdf |
| MaterializeExample.ExampleContents | app.py:323-336 | the library contents of that table are the nodes m, Z, a.pdf, B.pdf |
| MaterializeExample.FoldersFirstThenCaseInsensitive | app.py:310-336 | get_library lists folder "m", folder "Z", then "a.pdf", "B.pdf" |
| Playlists.Members | app.py:741-742 | the set of item ids with a membership in the playlist |
| Playlists.CheckReorderAsWritten | app.py:735-748 | the checks as written: refused for a missing, empty or non-list order; for a foreign id; for a count that differs from the member set's size; otherwise accepted with the list as given |
| Playlists.CheckReorder | app.py:735-748 | the corrected check accepts exactly the non-empty duplicate-free lists enumerating the member set |
| Playlists.DistinctCard | app.py:747 | a duplicate-free list has as many distinct ids as elements |
| Playlists.EnumerationIff | app.py:744-748 | for a duplicate-free list, "all members and right length" is the same as "enumerates the members" |
| Playlists.ChecksAgreeWithoutDuplicates | app.py:735-748 | on lists without duplicates both checks give the same verdict |
| Playlists.SetOrder | app.py:753-754 | one UPDATE sets order_index on the rows with that playlist and item only |
| Playlists.ApplyOrder | app.py:752-754 | the UPDATE loop over the list, position by position; characterised by Playlists.ApplyOrderEffect and Playlists.ReorderDense |
| Playlists.ApplyOrderSnoc | app.py:752-754 | one more UPDATE of the loop |
| Playlists.ApplyOrderKeepsKeys | app.py:752-754 | the UPDATEs keep the primary key |
| Playlists.LastIndex | app.py:752-754 | the last position of an id: the UPDATE that runs last for it |
| Playlists.ApplyOrderEffect | app.py:752-754 | each row of the playlist whose item is listed ends at the item's last position; other rows and every key are unchanged |
| Playlists.ReorderDense | app.py:735-754 | an accepted reorder leaves the playlist densely ordered 0..n-1, each member at its position in the list; other playlists are untouched |
| Playlists.DuplicateIdsAccepted | app.py:741-754 | for members {1, 2} the list [1, 1] passes the checks as written and leaves both rows at position 1; the corrected check refuses it |
| Playlists.MaxOrder | app.py:688-689 | MAX(order_index) of the playlist: None exactly for an empty playlist, else attained and an upper bound |
| Playlists.NextOrder | app.py:688-690 | MAX(order_index) + 1, one above the largest order_index the playlist holds, which it attains; 0 for an empty playlist |
| Playlists.PlanAdd | app.py:676-695 | ItemIdRequired exactly for a missing or zero id; AlreadyInPlaylist exactly for an existing membership; else the membership at the next order |
| Playlists.AddKeepsInvariants | app.py:682-696 | adding keeps the primary key and extends a dense order 0..n-1 to 0..n |
| Rename.PlanRenameAsWritten | app.py:461-496 | each refusal exactly in its case, in the code's order: missing name, unknown item, folder, NULL pdf_url, storage unset, another existing file at the new path, missing source; accepted exactly when every check passes, with the final name and both paths |
| Rename.FinalName | app.py:479-480 | the new file name: the request's name with ".pdf" appended unless already there; Paths.WithPdfSuffix and Rename.RenameKeepsFolder characterise it |
| Rename.PlanRename | app.py:461-496 | the corrected plan refuses exactly the names containing '/' and then agrees with the code |
| Rename.RenameKeepsFolder | app.py:474-482 | an accepted new name ends in ".pdf", kept as given when it did, and the new path is that name inside the old folder |
| Rename.JoinExtends | app.py:488-489 | joining onto a relative path keeps the first argument as a prefix |
| Rename.DirnameOfRelative | app.py:476 | the dirname of a relative path is relative |
| Rename.RenameStaysInStorage | app.py:488-489 | for a relative stored path the renamed file stays under the storage root |
| Rename.AbsoluteNameEscapes | app.py:479-489 | as written, the new name "/tmp/y.pdf" is accepted and becomes the new path itself; the corrected plan refuses it |
| Metadata.PlaytimeOk | app.py:541-543 | re.match(r'^\d{1,2}:\d{2}$'): one or two digits, a colon, two digits, optionally a final newline; Metadata.PlaytimeExamples pins it down |
| Metadata.BadValue | app.py:535-543 | a truthy rating that float() refuses, or a truthy playtime that fails the pattern; Metadata.CollectVerdict states when each holds |
| Metadata.ErrorFor | app.py:539-543 | the error of a failing field: InvalidRating for rating, InvalidPlaytime for playtime; Metadata.MetadataVerdict characterises the verdicts |
| Metadata.Collect | app.py:530-546 | the allow-list loop: the first failing field's error, else one clause per present field; characterised by Metadata.CollectExact |
| Metadata.ValidateMetadata | app.py:522-549 | the loop, then the "no fields" refusal; characterised by Metadata.MetadataVerdict and Metadata.AcceptedIsSelected |
| Metadata.Selected | app.py:530-546 | the reference result: the assignments are exactly the allowed fields present in the request, with its values |
| Metadata.CollectClauses | app.py:528-546 | the loop's clauses equal Collect over the field list |
| Metadata.BuildAssignments | app.py:528-549 | the loop followed by the "no fields" refusal equals ValidateMetadata |
| Metadata.CollectExact | app.py:530-546 | the loop succeeds exactly when no present field fails its check; then its clauses are Selected; on failure the error is the first failing field's |
| Metadata.SelectedEmpty | app.py:548-549 | the selection is empty exactly when no allowed field is present |
| Metadata.CheckedFields | app.py:522-525 | "rating" and "playtime" each occur once in the allow-list, rating first |
| Metadata.CollectVerdict | app.py:534-546 | over such a list: InvalidRating exactly for a bad rating; InvalidPlaytime exactly for a good rating and a bad playtime; success otherwise, with the selected clauses |
| Metadata.MetadataVerdict | app.py:522-549 | the request's verdict: InvalidRating, InvalidPlaytime and NoFields each exactly in their case; on acceptance the allowed fields named, in allow-list order |
| Metadata.AcceptedIsSelected | app.py:530-549 | an accepted request's assignments are the selection |
| Metadata.UnknownFieldsIgnored | app.py:530-531 | keys outside the allow-list never change the verdict |
| Metadata.CollectIgnores | app.py:530-531 | the same for any field list that lacks the key |
| Metadata.PlaytimeExamples | app.py:541-543 | "3:07", "12:30" and "12:30\n" match the pattern; "123:00", "3:7" and "ab:cd" do not |
| Metadata.ApplyAssignments | app.py:551-556 | the columns set after the UPDATE are the old ones plus the assigned fields |
| Metadata.UpdateSetsFields | app.py:545-556 | after an accepted update each named allowed field holds the requested value; every other column keeps its value |
| Metadata.SelectedEffect | app.py:545-556 | the same for any field list |
| Metadata.ApplyEffect | app.py:551-556 | each assigned field takes its value; unassigned columns keep theirs |
| Metadata.ApplyKeeps | app.py:551-556 | a column no assignment names keeps its value |
| Scenarios.ExampleBackup | app.py:50-55 | the backup of a playlist holding A.pdf (order 0) and B.pdf (order 1) |
| Scenarios.EmptyDirectoryKept | app.py:93-106 | an empty directory still gets its folder row directly below Root |
| Scenarios.ExampleTableBoth | app.py:76-112 | rescanning A.pdf and B.pdf with counter 3 inserts them as ids 4 and 5 below Root |
| Scenarios.ExampleTableOne | app.py:76-112 | with only A.pdf left it is inserted as id 4 |
| Scenarios.ExampleMaps | app.py:122-123 | the new pdf_url to id maps of both tables |
| Scenarios.ReconciliationFidelity | app.py:48-142 | both files unchanged: the playlist comes back on the new ids, same paths, same order |
| Scenarios.ReconciliationDrop | app.py:48-142 | B.pdf deleted: only A.pdf remains, at order 0 |

## Left out

- Flask routing, `jsonify`, HTTP status codes and the static page routes. Handler outcomes are result datatypes instead.
- The other routes of `app.py`: storage path configuration, playlists CRUD, song deletion and file serving. They are not part of the synchronisation logic.
- `init_db`, the schema DDL and ALTERs, and the sqlite connection handling. The tables are Dafny sequences. The AUTOINCREMENT counter is a field.
- sqlite errors other than the primary-key IntegrityError of the restore pass, and `rollback`. These are storage failures, not logic.
- Atomicity across the two commits of a rescan, and concurrent requests. These are storage and concurrency concerns.
- Timestamps (`date_created`, `date_last_played`) and their formatting. These are clock values that no other logic reads.
- Real filesystem calls. The listing is an abstract tree whose child order is `os.listdir`'s order. Which paths exist is a set, and a failing `os.rename` is a flag. `abspath` and `normpath` are not modelled.
- A request with no JSON body, or JSON values of other types. Text values are null or strings; the item id is an optional integer.
- Metadata values of a rescan. The rebuilt rows start without metadata, as in the code, and the model does not track the old values.
- `staticlksjfd/fullscreen_script.js`. It is browser UI.
- The order of rows a SELECT without ORDER BY returns. The model takes the backup JOIN (app.py:50-54) membership by membership, each against the item rows in table order, and `get_library`'s SELECT (app.py:306) in table order. SQLite promises neither order. The first decides which of two backup entries that collide on (playlist, new id) is restored, and so which order_index survives. The second decides the relative order of siblings whose sort keys are equal.
- Paths.Lower: lower-cases ASCII letters only. Python's `str.lower` also folds non-ASCII letters.
- Metadata.PlaytimeOk: `\d` matches ASCII digits only. Python's `re` also accepts other Unicode decimal digits.
- Metadata.BadValue: `float()` acceptance is the parameter `isNumber`. Float parsing is not modelled.
- Materialize.Build: requires parent ids below their children's ids. That rules out cycles, on which the code's recursion never ends. Every scanned table meets it (`Scan.ScannedTableShape`), and `Library.Valid` keeps it.
- App.Library.Reorder: uses the corrected duplicate-free check. The code's check is `Playlists.CheckReorderAsWritten` (see Findings).
- App.Library.Rename: uses the corrected plan, which refuses names with '/'. The code's plan is `Rename.PlanRenameAsWritten` (see Findings).

## Findings

| source | as written | input that shows it | evidently intended | confidence | as-written member | corrected member |
|---|---|---|---|---|---|---|
| app.py:741-754 | membership compares each id with the set and the list length with the set's size, so duplicates pass | members {1, 2}, new_order [1, 1]: accepted, both rows end at position 1 and item 2 keeps no position of its own | the list is an enumeration of the members without duplicates, leaving positions 0..n-1 | not executed | Playlists.CheckReorderAsWritten, Playlists.DuplicateIdsAccepted | Playlists.CheckReorder, Playlists.ReorderDense |
| app.py:479-489 | the new name is joined onto the old folder, and posixpath.join drops the prefix when the name is absolute | new_name "/tmp/y.pdf": the new relative and absolute paths are both "/tmp/y.pdf", outside the storage root | the renamed file stays in its folder, so a name containing '/' is refused | not executed | Rename.PlanRenameAsWritten, Rename.AbsoluteNameEscapes | Rename.PlanRename, Rename.RenameKeepsFolder, Rename.RenameStaysInStorage |
