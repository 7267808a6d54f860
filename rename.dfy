/**
 * rename_library_item: the path computation and every refusal that happens
 * before the file is moved. The move itself and the row update are
 * Library.Library.Rename.
 */
module Rename {
  import opened Wrappers
  import opened Rows
  import opened Paths

  datatype RenameError =
    | NameRequired    // new_name missing or empty
    | ItemNotFound    // no row with that id
    | NotAPdf         // the row is a folder
    | MissingPath     // a pdf row whose pdf_url is NULL: basename(None) raises
    | StorageUnset    // the storage root is not configured
    | Conflict        // another file already has the new path
    | SourceMissing   // the file to rename is not on disk
    | InvalidName     // (corrected plan only) the new name contains '/'
    | MoveFailed      // os.rename raised (Library.Rename only)

  /** What the rename will do: the new name and relative path, and both absolute paths. */
  datatype RenamePlan = RenamePlan(finalName: string, newRel: string, oldAbs: string, newAbs: string)

  /** The name the row and the file get: the requested name with ".pdf" appended unless present. */
  function FinalName(newName: string): string {
    WithPdfSuffix(newName)
  }

  /** The request passed the checks that precede the storage lookup: a name, and a pdf row with a pdf_url. */
  predicate Ready(item: Option<Item>, newName: Text) {
    Truthy(newName) && item.Some? && item.value.kind == Pdf && item.value.pdfUrl.Some?
  }

  /** The new relative path: the final name inside the folder of the old relative path. */
  function NewRel(oldRel: string, newName: string): string {
    PathJoin(Dirname(oldRel), FinalName(newName))
  }

  /**
   * The rename as written. item is the row looked up by id, onDisk the paths
   * os.path.exists reports.
   */
  function PlanRenameAsWritten(item: Option<Item>, newName: Text, storage: Text, onDisk: set<string>): (r: Result<RenamePlan, RenameError>)
    ensures r == Err(NameRequired) <==> !Truthy(newName)
    ensures r == Err(ItemNotFound) <==> Truthy(newName) && item.None?
    ensures r == Err(NotAPdf) <==> Truthy(newName) && item.Some? && item.value.kind != Pdf
    ensures r == Err(MissingPath) <==> Truthy(newName) && item.Some? && item.value.kind == Pdf && item.value.pdfUrl.None?
    ensures r == Err(StorageUnset) <==> Ready(item, newName) && !Truthy(storage)
    ensures r == Err(Conflict) <==> (Ready(item, newName) && Truthy(storage) &&
      var oldAbs := PathJoin(storage.value, item.value.pdfUrl.value);
      var newAbs := PathJoin(storage.value, NewRel(item.value.pdfUrl.value, newName.value));
      newAbs in onDisk && newAbs != oldAbs)
    ensures r == Err(SourceMissing) <==> (Ready(item, newName) && Truthy(storage) &&
      var oldAbs := PathJoin(storage.value, item.value.pdfUrl.value);
      var newAbs := PathJoin(storage.value, NewRel(item.value.pdfUrl.value, newName.value));
      !(newAbs in onDisk && newAbs != oldAbs) && oldAbs !in onDisk)
    ensures r.Ok? <==> (Ready(item, newName) && Truthy(storage) &&
      var oldAbs := PathJoin(storage.value, item.value.pdfUrl.value);
      var newAbs := PathJoin(storage.value, NewRel(item.value.pdfUrl.value, newName.value));
      !(newAbs in onDisk && newAbs != oldAbs) && oldAbs in onDisk)
    ensures r != Err(InvalidName) && r != Err(MoveFailed)
    ensures r.Ok? ==> (item.Some? && item.value.kind == Pdf && item.value.pdfUrl.Some? && Truthy(storage) &&
      var oldRel := item.value.pdfUrl.value;
      r.value.finalName == FinalName(newName.value) &&
      r.value.newRel == PathJoin(Dirname(oldRel), r.value.finalName) &&
      r.value.oldAbs == PathJoin(storage.value, oldRel) &&
      r.value.newAbs == PathJoin(storage.value, r.value.newRel) &&
      r.value.oldAbs in onDisk && (r.value.newAbs in onDisk ==> r.value.newAbs == r.value.oldAbs))
  {
    if !Truthy(newName) then Err(NameRequired)
    else if item.None? then Err(ItemNotFound)
    else if item.value.kind != Pdf then Err(NotAPdf)
    else if item.value.pdfUrl.None? then Err(MissingPath)
    else
      var oldRel := item.value.pdfUrl.value;
      var finalName := FinalName(newName.value);
      var newRel := PathJoin(Dirname(oldRel), finalName);
      if !Truthy(storage) then Err(StorageUnset)
      else
        var oldAbs := PathJoin(storage.value, oldRel);
        var newAbs := PathJoin(storage.value, newRel);
        if newAbs in onDisk && oldAbs != newAbs then Err(Conflict)
        else if oldAbs !in onDisk then Err(SourceMissing)
        else Ok(RenamePlan(finalName, newRel, oldAbs, newAbs))
  }

  /** The rename evidently intended: the file stays in its folder, so a name with '/' is refused. */
  function PlanRename(item: Option<Item>, newName: Text, storage: Text, onDisk: set<string>): (r: Result<RenamePlan, RenameError>)
    ensures r == Err(InvalidName) <==> Truthy(newName) && !NoSlash(newName.value)
    ensures r.Ok? ==> Truthy(newName) && NoSlash(newName.value) && r == PlanRenameAsWritten(item, newName, storage, onDisk)
    ensures Truthy(newName) && NoSlash(newName.value) ==> r == PlanRenameAsWritten(item, newName, storage, onDisk)
  {
    if Truthy(newName) && !NoSlash(newName.value) then Err(InvalidName)
    else PlanRenameAsWritten(item, newName, storage, onDisk)
  }

  /**
   * On an accepted rename the new file name ends in ".pdf" (case-insensitively),
   * keeps the requested name when it already did, and the new relative path is
   * that name inside the old file's folder.
   */
  lemma RenameKeepsFolder(item: Option<Item>, newName: Text, storage: Text, onDisk: set<string>)
    requires PlanRename(item, newName, storage, onDisk).Ok?
    ensures var plan := PlanRename(item, newName, storage, onDisk).value;
      var oldRel := item.value.pdfUrl.value;
      EndsWithPdf(plan.finalName) &&
      (EndsWithPdf(newName.value) ==> plan.finalName == newName.value) &&
      (!EndsWithPdf(newName.value) ==> plan.finalName == newName.value + ".pdf") &&
      Dirname(plan.newRel) == Dirname(oldRel) && Basename(plan.newRel) == plan.finalName
  {
    var plan := PlanRename(item, newName, storage, onDisk).value;
    var oldRel := item.value.pdfUrl.value;
    assert plan.finalName == FinalName(newName.value) && plan.newRel == PathJoin(Dirname(oldRel), plan.finalName);
    DirnameShaped(oldRel);
    SuffixNoSlash(newName.value);
    JoinSplit(Dirname(oldRel), plan.finalName);
  }

  /** Appending ".pdf" adds no '/'. */
  lemma SuffixNoSlash(n: string)
    requires NoSlash(n)
    ensures NoSlash(FinalName(n))
  {
    if !EndsWithPdf(n) {
      var f := n + ".pdf";
      forall i | 0 <= i < |f| ensures f[i] != '/' {
        if i >= |n| { assert f[i] == ".pdf"[i - |n|]; }
      }
    }
  }

  /** posixpath.join keeps its first argument as a prefix unless the second is absolute. */
  lemma JoinExtends(a: string, b: string)
    requires !(|b| > 0 && b[0] == '/')
    ensures |a| <= |PathJoin(a, b)| && PathJoin(a, b)[..|a|] == a
  {
  }

  lemma {:induction false} DirnameOfRelative(p: string)
    requires !(|p| > 0 && p[0] == '/')
    ensures !(|Dirname(p)| > 0 && Dirname(p)[0] == '/')
  {
    var head := p[..SplitPoint(p)];
    if head != [] && !AllSlash(head) {
      var r := RStripSlash(head);
      if |r| > 0 { assert r[0] == head[0] == p[0]; }
    }
  }

  /** For a relative stored path the renamed file stays under the storage root. */
  lemma RenameStaysInStorage(item: Option<Item>, newName: Text, storage: Text, onDisk: set<string>)
    requires PlanRename(item, newName, storage, onDisk).Ok?
    requires var u := item.value.pdfUrl.value; !(|u| > 0 && u[0] == '/')
    ensures var plan := PlanRename(item, newName, storage, onDisk).value;
      |storage.value| <= |plan.newAbs| && plan.newAbs[..|storage.value|] == storage.value
  {
    var plan := PlanRename(item, newName, storage, onDisk).value;
    var d := Dirname(item.value.pdfUrl.value);
    RenameKeepsFolder(item, newName, storage, onDisk);
    DirnameOfRelative(item.value.pdfUrl.value);
    var f := plan.finalName;
    assert f[0] != '/' by {
      assert NoSlash(newName.value);
      if EndsWithPdf(newName.value) { assert f == newName.value; }
      else if |newName.value| == 0 { assert false; }
      else { assert f[0] == newName.value[0]; }
    }
    assert !(|plan.newRel| > 0 && plan.newRel[0] == '/') by {
      if d != [] && d[|d| - 1] != '/' { assert plan.newRel[0] == d[0]; }
    }
    JoinExtends(storage.value, plan.newRel);
  }

  /**
   * As written, a new name that is an absolute path (such as "/tmp/y.pdf") is
   * accepted and becomes the new path itself, outside the storage root and
   * the file's folder; the corrected plan refuses it.
   */
  lemma AbsoluteNameEscapes(item: Item, name: string, storage: string, onDisk: set<string>)
    requires item.kind == Pdf && item.pdfUrl.Some?
    requires |name| > 0 && name[0] == '/' && EndsWithPdf(name)
    requires storage != ""
    requires PathJoin(storage, item.pdfUrl.value) in onDisk && name !in onDisk
    ensures var r := PlanRenameAsWritten(Some(item), Some(name), Some(storage), onDisk);
      r.Ok? && r.value.newRel == name && r.value.newAbs == name
    ensures PlanRename(Some(item), Some(name), Some(storage), onDisk) == Err(InvalidName)
  {
    assert !NoSlash(name);
  }
}
