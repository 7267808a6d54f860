/**
 * update_library_item_metadata: which fields of a request become column
 * assignments, and when the request is refused. float() parsing is the
 * parameter isNumber; the playtime pattern is written out.
 */
module Metadata {
  import opened Wrappers
  import opened Rows

  /** The columns a request may set, in the order they are examined. */
  const AllowedFields: seq<string> :=
    ["title", "composer", "genre", "tag", "label", "rating", "difficulty", "playtime", "key", "time"]

  datatype MetaError = InvalidRating | InvalidPlaytime | NoFields

  /** One "field = ?" clause with its value. */
  datatype Assignment = Assignment(field: string, value: Text)

  predicate IsDigit(c: char) {
    '0' <= c <= '9'
  }

  /** One or two digits, ':', two digits. */
  predicate Clock(m: string) {
    (|m| == 4 && IsDigit(m[0]) && m[1] == ':' && IsDigit(m[2]) && IsDigit(m[3])) ||
    (|m| == 5 && IsDigit(m[0]) && IsDigit(m[1]) && m[2] == ':' && IsDigit(m[3]) && IsDigit(m[4]))
  }

  /** re.match(r'^\d{1,2}:\d{2}$', s): '$' also matches before one final newline. */
  predicate PlaytimeOk(s: string) {
    Clock(s) || (|s| > 0 && s[|s| - 1] == '\n' && Clock(s[..|s| - 1]))
  }

  /** The field's value is checked and fails its check. */
  predicate BadValue(field: string, v: Text, isNumber: string -> bool) {
    (field == "rating" && Truthy(v) && !isNumber(v.value)) ||
    (field == "playtime" && Truthy(v) && !PlaytimeOk(v.value))
  }

  function ErrorFor(field: string): MetaError {
    if field == "rating" then InvalidRating else InvalidPlaytime
  }

  /** The loop over fields: the first failing field stops it, otherwise every present field is collected. */
  function Collect(fields: seq<string>, data: map<string, Text>, isNumber: string -> bool): Result<seq<Assignment>, MetaError>
    decreases |fields|
  {
    if fields == [] then Ok([])
    else if fields[0] in data && BadValue(fields[0], data[fields[0]], isNumber) then Err(ErrorFor(fields[0]))
    else
      var rest := Collect(fields[1..], data, isNumber);
      if rest.Err? then rest
      else if fields[0] in data then Ok([Assignment(fields[0], data[fields[0]])] + rest.value)
      else rest
  }

  /** The request's verdict: the assignments to make, or why nothing is updated. */
  function ValidateMetadata(data: map<string, Text>, isNumber: string -> bool): Result<seq<Assignment>, MetaError> {
    match Collect(AllowedFields, data, isNumber)
    case Err(e) => Err(e)
    case Ok(a) => if a == [] then Err(NoFields) else Ok(a)
  }

  /** The assignments for the fields of `fields` present in data, in that order: the reference for a success. */
  function Selected(fields: seq<string>, data: map<string, Text>): (r: seq<Assignment>)
    ensures forall a :: a in r <==> a.field in fields && a.field in data && a.value == data[a.field]
    decreases |fields|
  {
    if fields == [] then []
    else
      var rest := Selected(fields[1..], data);
      assert forall f :: f in fields <==> f == fields[0] || f in fields[1..];
      if fields[0] in data then [Assignment(fields[0], data[fields[0]])] + rest else rest
  }

  /** The clauses already collected, in front of the verdict on the remaining fields. */
  function Prepend(done: seq<Assignment>, rest: Result<seq<Assignment>, MetaError>): Result<seq<Assignment>, MetaError> {
    match rest
    case Err(e) => Err(e)
    case Ok(x) => Ok(done + x)
  }

  /** The loop over a field list, appending one clause per present field and stopping at a failing one. */
  method CollectClauses(fields: seq<string>, data: map<string, Text>, isNumber: string -> bool)
    returns (r: Result<seq<Assignment>, MetaError>)
    ensures r == Collect(fields, data, isNumber)
  {
    var clauses: seq<Assignment> := [];
    var i := 0;
    assert fields[0..] == fields;
    var whole := Collect(fields, data, isNumber);
    if whole.Ok? { assert [] + whole.value == whole.value; }
    while i < |fields|
      invariant 0 <= i <= |fields|
      invariant whole == Prepend(clauses, Collect(fields[i..], data, isNumber))
    {
      var field := fields[i];
      assert fields[i..][0] == field && fields[i..][1..] == fields[i + 1..];
      if field in data {
        var value := data[field];
        if BadValue(field, value, isNumber) {
          return Err(ErrorFor(field));
        }
        var rest := Collect(fields[i + 1..], data, isNumber);
        if rest.Ok? {
          assert clauses + ([Assignment(field, value)] + rest.value) == (clauses + [Assignment(field, value)]) + rest.value;
        }
        clauses := clauses + [Assignment(field, value)];
      }
      i := i + 1;
    }
    assert fields[i..] == [];
    assert clauses + [] == clauses;
    return Ok(clauses);
  }

  /** update_library_item_metadata's validation: the clauses to apply, or the refusal. */
  method BuildAssignments(data: map<string, Text>, isNumber: string -> bool) returns (r: Result<seq<Assignment>, MetaError>)
    ensures r == ValidateMetadata(data, isNumber)
  {
    r := CollectClauses(AllowedFields, data, isNumber);
    if r.Ok? && r.value == [] {
      r := Err(NoFields);
    }
  }

  lemma {:induction false} CollectExact(fields: seq<string>, data: map<string, Text>, isNumber: string -> bool)
    ensures Collect(fields, data, isNumber).Ok? <==>
      forall i :: 0 <= i < |fields| && fields[i] in data ==> !BadValue(fields[i], data[fields[i]], isNumber)
    ensures Collect(fields, data, isNumber).Ok? ==> Collect(fields, data, isNumber).value == Selected(fields, data)
    ensures Collect(fields, data, isNumber).Err? ==> exists i :: (0 <= i < |fields| && fields[i] in data &&
      BadValue(fields[i], data[fields[i]], isNumber) && Collect(fields, data, isNumber).error == ErrorFor(fields[i]) &&
      forall j :: 0 <= j < i && fields[j] in data ==> !BadValue(fields[j], data[fields[j]], isNumber))
    decreases |fields|
  {
    if fields != [] {
      CollectExact(fields[1..], data, isNumber);
      assert forall i :: 1 <= i < |fields| ==> fields[i] == fields[1..][i - 1];
      var r := Collect(fields, data, isNumber);
      if r.Err? && !(fields[0] in data && BadValue(fields[0], data[fields[0]], isNumber)) {
        var i :| 0 <= i < |fields[1..]| && fields[1..][i] in data && BadValue(fields[1..][i], data[fields[1..][i]], isNumber) &&
          r.error == ErrorFor(fields[1..][i]) &&
          forall j :: 0 <= j < i && fields[1..][j] in data ==> !BadValue(fields[1..][j], data[fields[1..][j]], isNumber);
        assert fields[i + 1] == fields[1..][i];
        assert forall j :: 1 <= j < i + 1 ==> fields[j] == fields[1..][j - 1];
      }
    }
  }

  lemma SelectedEmpty(fields: seq<string>, data: map<string, Text>)
    ensures Selected(fields, data) == [] <==> forall f :: f in fields ==> f !in data
  {
    if Selected(fields, data) != [] {
      assert Selected(fields, data)[0] in Selected(fields, data);
    }
  }

  /** "rating" and "playtime" each occur once in the allow-list, rating first. */
  lemma CheckedFields()
    ensures AllowedFields[5] == "rating" && AllowedFields[7] == "playtime"
    ensures forall i :: 0 <= i < |AllowedFields| && i != 5 && i != 7 ==>
      AllowedFields[i] != "rating" && AllowedFields[i] != "playtime"
  {
  }

  /**
   * The loop's verdict over any field list in which "rating" (at ri) comes
   * before "playtime" (at pi) and neither occurs again.
   */
  lemma CollectVerdict(fields: seq<string>, data: map<string, Text>, isNumber: string -> bool, ri: nat, pi: nat)
    requires ri < pi < |fields| && fields[ri] == "rating" && fields[pi] == "playtime"
    requires forall i :: 0 <= i < |fields| && i != ri && i != pi ==> fields[i] != "rating" && fields[i] != "playtime"
    ensures var c := Collect(fields, data, isNumber);
      var ratingBad := "rating" in data && BadValue("rating", data["rating"], isNumber);
      var playtimeBad := "playtime" in data && BadValue("playtime", data["playtime"], isNumber);
      (c == Err(InvalidRating) <==> ratingBad) &&
      (c == Err(InvalidPlaytime) <==> !ratingBad && playtimeBad) &&
      (c.Ok? <==> !ratingBad && !playtimeBad) &&
      (c.Ok? ==> c.value == Selected(fields, data))
  {
    CollectExact(fields, data, isNumber);
    var c := Collect(fields, data, isNumber);
    if c.Err? {
      var i :| 0 <= i < |fields| && fields[i] in data &&
        BadValue(fields[i], data[fields[i]], isNumber) && c.error == ErrorFor(fields[i]) &&
        forall j :: 0 <= j < i && fields[j] in data ==> !BadValue(fields[j], data[fields[j]], isNumber);
      assert i == ri || i == pi;
    }
  }

  /**
   * A request is accepted exactly when it names an allowed field and its rating
   * and playtime (when present and non-empty) pass their checks; it then sets
   * exactly the allowed fields it names, to the values it gives, in allow-list
   * order. A bad rating is reported before a bad playtime.
   */
  lemma MetadataVerdict(data: map<string, Text>, isNumber: string -> bool)
    ensures var r := ValidateMetadata(data, isNumber);
      var ratingBad := "rating" in data && BadValue("rating", data["rating"], isNumber);
      var playtimeBad := "playtime" in data && BadValue("playtime", data["playtime"], isNumber);
      (r == Err(InvalidRating) <==> ratingBad) &&
      (r == Err(InvalidPlaytime) <==> !ratingBad && playtimeBad) &&
      (r == Err(NoFields) <==> !ratingBad && !playtimeBad && forall f :: f in AllowedFields ==> f !in data) &&
      (r.Ok? ==> r.value == Selected(AllowedFields, data))
  {
    CheckedFields();
    CollectVerdict(AllowedFields, data, isNumber, 5, 7);
    SelectedEmpty(AllowedFields, data);
  }

  /** An accepted request's assignments are the allowed fields it names. */
  lemma AcceptedIsSelected(data: map<string, Text>, isNumber: string -> bool)
    requires ValidateMetadata(data, isNumber).Ok?
    ensures ValidateMetadata(data, isNumber).value == Selected(AllowedFields, data)
  {
    CollectExact(AllowedFields, data, isNumber);
  }

  /** Keys outside the allow-list never change the verdict. */
  lemma UnknownFieldsIgnored(data: map<string, Text>, k: string, v: Text, isNumber: string -> bool)
    requires k !in AllowedFields
    ensures ValidateMetadata(data[k := v], isNumber) == ValidateMetadata(data, isNumber)
  {
    CollectIgnores(AllowedFields, data, k, v, isNumber);
  }

  lemma {:induction false} CollectIgnores(fields: seq<string>, data: map<string, Text>, k: string, v: Text, isNumber: string -> bool)
    requires k !in fields
    ensures Collect(fields, data[k := v], isNumber) == Collect(fields, data, isNumber)
    decreases |fields|
  {
    if fields != [] {
      assert fields[0] != k;
      assert k !in fields[1..];
      CollectIgnores(fields[1..], data, k, v, isNumber);
    }
  }

  /** Examples of the playtime pattern. */
  lemma PlaytimeExamples()
    ensures PlaytimeOk("3:07") && PlaytimeOk("12:30") && PlaytimeOk("12:30\n")
    ensures !PlaytimeOk("123:00") && !PlaytimeOk("3:7") && !PlaytimeOk("ab:cd")
  {
    assert "12:30\n"[..5] == "12:30";
    assert "3:7"[..2] == "3:";
  }

  /** The row's metadata after the UPDATE: each assigned column takes its value. */
  function ApplyAssignments(meta: map<string, Text>, a: seq<Assignment>): (r: map<string, Text>)
    ensures forall f :: f in r <==> f in meta || exists i :: 0 <= i < |a| && a[i].field == f
    decreases |a|
  {
    if a == [] then meta
    else
      var r := ApplyAssignments(meta[a[0].field := a[0].value], a[1..]);
      assert forall i :: 1 <= i < |a| ==> a[i] == a[1..][i - 1];
      r
  }

  /** After an accepted update each named allowed field holds the requested value; other columns keep theirs. */
  lemma UpdateSetsFields(meta: map<string, Text>, data: map<string, Text>, isNumber: string -> bool)
    requires ValidateMetadata(data, isNumber).Ok?
    ensures var m := ApplyAssignments(meta, ValidateMetadata(data, isNumber).value);
      (forall f :: f in AllowedFields && f in data ==> f in m && m[f] == data[f]) &&
      (forall f :: f in meta && !(f in AllowedFields && f in data) ==> f in m && m[f] == meta[f])
  {
    AcceptedIsSelected(data, isNumber);
    SelectedEffect(meta, AllowedFields, data);
  }

  /** Applying the selected assignments of any field list sets exactly the listed fields present in data. */
  lemma SelectedEffect(meta: map<string, Text>, fields: seq<string>, data: map<string, Text>)
    ensures var m := ApplyAssignments(meta, Selected(fields, data));
      (forall f :: f in fields && f in data ==> f in m && m[f] == data[f]) &&
      (forall f :: f in meta && !(f in fields && f in data) ==> f in m && m[f] == meta[f])
  {
    var a := Selected(fields, data);
    forall i | 0 <= i < |a| ensures a[i].field in data && a[i].value == data[a[i].field] {
      assert a[i] in a;
    }
    ApplyEffect(meta, a, data);
    var m := ApplyAssignments(meta, a);
    forall f | f in fields && f in data ensures f in m && m[f] == data[f] {
      assert Assignment(f, data[f]) in a;
      var i :| 0 <= i < |a| && a[i] == Assignment(f, data[f]);
    }
    forall f | f in meta && !(f in fields && f in data) ensures f in m && m[f] == meta[f] {
      forall i | 0 <= i < |a| ensures a[i].field != f { assert a[i] in a; }
    }
  }

  lemma {:induction false} ApplyEffect(meta: map<string, Text>, a: seq<Assignment>, data: map<string, Text>)
    requires forall i :: 0 <= i < |a| ==> a[i].field in data && a[i].value == data[a[i].field]
    ensures var m := ApplyAssignments(meta, a);
      (forall i :: 0 <= i < |a| ==> a[i].field in m && m[a[i].field] == data[a[i].field]) &&
      (forall f :: f in meta && (forall i :: 0 <= i < |a| ==> a[i].field != f) ==> f in m && m[f] == meta[f])
    decreases |a|
  {
    if a != [] {
      ApplyEffect(meta[a[0].field := a[0].value], a[1..], data);
      assert forall i :: 1 <= i < |a| ==> a[i] == a[1..][i - 1];
      var m := ApplyAssignments(meta, a);
      forall i | 0 <= i < |a| ensures a[i].field in m && m[a[i].field] == data[a[i].field] {
        if i == 0 && !(exists j :: 0 <= j < |a[1..]| && a[1..][j].field == a[0].field) {
          ApplyKeeps(meta[a[0].field := a[0].value], a[1..], a[0].field);
        }
      }
    }
  }

  lemma {:induction false} ApplyKeeps(meta: map<string, Text>, a: seq<Assignment>, f: string)
    requires f in meta && forall i :: 0 <= i < |a| ==> a[i].field != f
    ensures f in ApplyAssignments(meta, a) && ApplyAssignments(meta, a)[f] == meta[f]
    decreases |a|
  {
    if a != [] {
      assert forall i :: 1 <= i < |a| ==> a[i] == a[1..][i - 1];
      ApplyKeeps(meta[a[0].field := a[0].value], a[1..], f);
    }
  }
}
