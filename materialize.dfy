/**
 * get_library's build_nested_structure: the flat LibraryItem table turned into
 * nested folder contents, each folder's children sorted by the key
 * (type == 'pdf', name.lower()) — folders first, then documents, each group in
 * ascending lower-cased name order, ties kept in table order (sorted is stable).
 */
module Materialize {
  import opened Wrappers
  import opened Rows
  import opened Paths
  import opened Seqs

  /** One node of the payload; only folder nodes carry `contents`. */
  datatype Node = Node(id: nat, name: string, kind: Kind, parentId: Option<nat>,
                       filePath: Option<string>, contents: Option<seq<Node>>)

  // ---------------------------------------------------------------------------
  // The sort key and its order

  /** Python's str comparison: lexicographic by code point, a proper prefix sorting first. */
  predicate LexLe(a: string, b: string)
    decreases |a|
  {
    a == [] || (b != [] && (a[0] < b[0] || (a[0] == b[0] && LexLe(a[1..], b[1..]))))
  }

  lemma {:induction false} LexLeRefl(a: string)
    ensures LexLe(a, a)
    decreases |a|
  {
    if a != [] { LexLeRefl(a[1..]); }
  }

  lemma {:induction false} LexLeTotal(a: string, b: string)
    ensures LexLe(a, b) || LexLe(b, a)
    decreases |a|
  {
    if a != [] && b != [] && a[0] == b[0] { LexLeTotal(a[1..], b[1..]); }
  }

  lemma {:induction false} LexLeTrans(a: string, b: string, c: string)
    requires LexLe(a, b) && LexLe(b, c)
    ensures LexLe(a, c)
    decreases |a|
  {
    if a != [] && b != [] && c != [] && a[0] == b[0] == c[0] { LexLeTrans(a[1..], b[1..], c[1..]); }
  }

  lemma {:induction false} LexLeAntisym(a: string, b: string)
    requires LexLe(a, b) && LexLe(b, a)
    ensures a == b
    decreases |a|
  {
    if a != [] && b != [] {
      LexLeAntisym(a[1..], b[1..]);
      assert a == [a[0]] + a[1..] && b == [b[0]] + b[1..];
    }
  }

  datatype Key = Key(isPdf: bool, lowered: string)

  /** (x['type'] == 'pdf', x['name'].lower()) */
  function KeyOf(n: Node): Key {
    Key(n.kind == Pdf, Lower(n.name))
  }

  /** Tuple comparison: False sorts before True, then the lower-cased name. */
  predicate KeyLe(a: Key, b: Key) {
    (!a.isPdf && b.isPdf) || (a.isPdf == b.isPdf && LexLe(a.lowered, b.lowered))
  }

  lemma KeyLeRefl(a: Key)
    ensures KeyLe(a, a)
  {
    LexLeRefl(a.lowered);
  }

  lemma KeyLeTotal(a: Key, b: Key)
    ensures KeyLe(a, b) || KeyLe(b, a)
  {
    LexLeTotal(a.lowered, b.lowered);
  }

  lemma KeyLeTrans(a: Key, b: Key, c: Key)
    requires KeyLe(a, b) && KeyLe(b, c)
    ensures KeyLe(a, c)
  {
    if a.isPdf == b.isPdf == c.isPdf { LexLeTrans(a.lowered, b.lowered, c.lowered); }
  }

  lemma KeyLeAntisym(a: Key, b: Key)
    requires KeyLe(a, b) && KeyLe(b, a)
    ensures a == b
  {
    LexLeAntisym(a.lowered, b.lowered);
  }

  // ---------------------------------------------------------------------------
  // sorted(children, key=...) as a stable insertion sort

  predicate Sorted(s: seq<Node>) {
    forall i, j :: 0 <= i < j < |s| ==> KeyLe(KeyOf(s[i]), KeyOf(s[j]))
  }

  /** Insert x before the first element whose key is not below x's. */
  function Insert(x: Node, s: seq<Node>): seq<Node>
    decreases |s|
  {
    if s == [] then [x]
    else if KeyLe(KeyOf(x), KeyOf(s[0])) then [x] + s
    else [s[0]] + Insert(x, s[1..])
  }

  function SortByKey(s: seq<Node>): seq<Node>
    decreases |s|
  {
    if s == [] then [] else Insert(s[0], SortByKey(s[1..]))
  }

  /** The elements of s with key k, in order. */
  function WithKey(s: seq<Node>, k: Key): seq<Node>
    decreases |s|
  {
    if s == [] then [] else (if KeyOf(s[0]) == k then [s[0]] else []) + WithKey(s[1..], k)
  }

  /** Every key in s is at least k. */
  predicate AllAbove(k: Key, s: seq<Node>) {
    forall i :: 0 <= i < |s| ==> KeyLe(k, KeyOf(s[i]))
  }

  lemma SortedCons(h: Node, t: seq<Node>)
    requires AllAbove(KeyOf(h), t) && Sorted(t)
    ensures Sorted([h] + t)
  {
    var r := [h] + t;
    forall i, j | 0 <= i < j < |r| ensures KeyLe(KeyOf(r[i]), KeyOf(r[j])) {
      if i == 0 { assert r[j] == t[j - 1]; } else { assert r[i] == t[i - 1] && r[j] == t[j - 1]; }
    }
  }

  lemma {:induction false} InsertPermutes(x: Node, s: seq<Node>)
    ensures multiset(Insert(x, s)) == multiset(s) + multiset{x}
    decreases |s|
  {
    if s != [] && !KeyLe(KeyOf(x), KeyOf(s[0])) {
      InsertPermutes(x, s[1..]);
      assert Insert(x, s) == [s[0]] + Insert(x, s[1..]);
      assert multiset(s) == multiset{s[0]} + multiset(s[1..]) by {
        assert s == [s[0]] + s[1..];
      }
    }
  }

  lemma {:induction false} InsertAbove(k: Key, x: Node, s: seq<Node>)
    requires AllAbove(k, s) && KeyLe(k, KeyOf(x))
    ensures AllAbove(k, Insert(x, s))
    decreases |s|
  {
    if s != [] && !KeyLe(KeyOf(x), KeyOf(s[0])) {
      InsertAbove(k, x, s[1..]);
      var t := Insert(x, s[1..]);
      assert forall j :: 0 <= j < |t| ==> ([s[0]] + t)[j + 1] == t[j];
    }
  }

  lemma {:induction false} InsertSorted(x: Node, s: seq<Node>)
    requires Sorted(s)
    ensures Sorted(Insert(x, s))
    decreases |s|
  {
    if s != [] {
      if KeyLe(KeyOf(x), KeyOf(s[0])) {
        forall j | 0 <= j < |s| ensures KeyLe(KeyOf(x), KeyOf(s[j])) {
          if j > 0 { KeyLeTrans(KeyOf(x), KeyOf(s[0]), KeyOf(s[j])); }
        }
        SortedCons(x, s);
      } else {
        KeyLeTotal(KeyOf(x), KeyOf(s[0]));
        InsertSorted(x, s[1..]);
        assert AllAbove(KeyOf(s[0]), s[1..]) by {
          forall j | 0 <= j < |s[1..]| ensures KeyLe(KeyOf(s[0]), KeyOf(s[1..][j])) {
            assert s[1..][j] == s[j + 1];
          }
        }
        InsertAbove(KeyOf(s[0]), x, s[1..]);
        SortedCons(s[0], Insert(x, s[1..]));
      }
    }
  }

  /** The sort key order holds, and the result is a permutation of the input. */
  lemma SortSorted(s: seq<Node>)
    ensures Sorted(SortByKey(s))
    ensures multiset(SortByKey(s)) == multiset(s)
  {
    SortOrders(s);
    SortPermutes(s);
  }

  lemma {:induction false} SortOrders(s: seq<Node>)
    ensures Sorted(SortByKey(s))
    decreases |s|
  {
    if s != [] {
      SortOrders(s[1..]);
      InsertSorted(s[0], SortByKey(s[1..]));
    }
  }

  lemma {:induction false} SortPermutes(s: seq<Node>)
    ensures multiset(SortByKey(s)) == multiset(s)
    decreases |s|
  {
    if s != [] {
      var t := SortByKey(s[1..]);
      assert SortByKey(s) == Insert(s[0], t);
      SortPermutes(s[1..]);
      InsertPermutes(s[0], t);
      assert multiset(s) == multiset{s[0]} + multiset(s[1..]) by {
        assert s == [s[0]] + s[1..];
      }
    }
  }

  lemma {:induction false} InsertWithKey(x: Node, s: seq<Node>, k: Key)
    ensures WithKey(Insert(x, s), k) == (if KeyOf(x) == k then [x] else []) + WithKey(s, k)
    decreases |s|
  {
    var xs: seq<Node> := if KeyOf(x) == k then [x] else [];
    if s == [] {
      WithKeyCons(x, [], k);
      assert [x] + [] == [x];
    } else if KeyLe(KeyOf(x), KeyOf(s[0])) {
      WithKeyCons(x, s, k);
    } else {
      var ys: seq<Node> := if KeyOf(s[0]) == k then [s[0]] else [];
      KeyLeRefl(KeyOf(x));
      assert xs == [] || ys == [];
      InsertWithKey(x, s[1..], k);
      WithKeyCons(s[0], Insert(x, s[1..]), k);
      WithKeyCons(s[0], s[1..], k);
      ConsSplit(s);
      SwapEmpty(ys, xs, WithKey(s[1..], k));
    }
  }

  lemma WithKeyCons(y: Node, s: seq<Node>, k: Key)
    ensures WithKey([y] + s, k) == (if KeyOf(y) == k then [y] else []) + WithKey(s, k)
  {
    assert ([y] + s)[0] == y && ([y] + s)[1..] == s;
  }

  /** Stability: the elements sharing any one key keep their input order. */
  lemma {:induction false} SortStable(s: seq<Node>, k: Key)
    ensures WithKey(SortByKey(s), k) == WithKey(s, k)
    decreases |s|
  {
    if s != [] {
      SortStable(s[1..], k);
      InsertWithKey(s[0], SortByKey(s[1..]), k);
    }
  }

  // ---------------------------------------------------------------------------
  // build_nested_structure

  /** One more than the largest id: every recursion below moves to a larger id. */
  function Bound(items: seq<Item>): (r: nat)
    ensures forall k :: 0 <= k < |items| ==> items[k].id < r
  {
    if items == [] then 0
    else
      var b := Bound(items[1..]);
      assert forall k :: 1 <= k < |items| ==> items[k] == items[1..][k - 1];
      if items[0].id < b then b else items[0].id + 1
  }

  /** [item for item in flat_list if item['parent_id'] == current_parent_id], in table order. */
  function ChildrenOf(items: seq<Item>, p: nat): (r: seq<Item>)
    ensures forall i :: 0 <= i < |r| ==> r[i] in items && r[i].parentId == Some(p)
    decreases |items|
  {
    if items == [] then []
    else (if items[0].parentId == Some(p) then [items[0]] else []) + ChildrenOf(items[1..], p)
  }

  lemma ChildBelowBound(items: seq<Item>, c: Item, p: nat)
    requires ParentBeforeChild(items)
    requires c in items && c.parentId == Some(p)
    ensures p < c.id < Bound(items)
  {
  }

  /** The copy of child c, with the nested contents when c is a folder. */
  function NodeFor(items: seq<Item>, p: nat, c: Item): Node
    requires ParentBeforeChild(items)
    requires c in items && c.parentId == Some(p)
    decreases Bound(items) - p, 0, 0
  {
    ChildBelowBound(items, c, p);
    Node(c.id, c.name, c.kind, c.parentId, c.pdfUrl,
         if c.kind == Folder then Some(Build(items, c.id)) else None)
  }

  function BuildEach(items: seq<Item>, p: nat, cs: seq<Item>): seq<Node>
    requires ParentBeforeChild(items)
    requires forall i :: 0 <= i < |cs| ==> cs[i] in items && cs[i].parentId == Some(p)
    decreases Bound(items) - p, 0, |cs|
  {
    if cs == [] then [] else [NodeFor(items, p, cs[0])] + BuildEach(items, p, cs[1..])
  }

  /** The sorted contents of the folder with id p. */
  function Build(items: seq<Item>, p: nat): seq<Node>
    requires ParentBeforeChild(items)
    decreases Bound(items) - p, 1
  {
    SortByKey(BuildEach(items, p, ChildrenOf(items, p)))
  }

  lemma {:induction false} BuildEachExact(items: seq<Item>, p: nat, cs: seq<Item>)
    requires ParentBeforeChild(items)
    requires forall i :: 0 <= i < |cs| ==> cs[i] in items && cs[i].parentId == Some(p)
    ensures |BuildEach(items, p, cs)| == |cs|
    ensures forall i :: 0 <= i < |cs| ==> BuildEach(items, p, cs)[i] == NodeFor(items, p, cs[i])
    decreases |cs|
  {
    if cs != [] {
      BuildEachExact(items, p, cs[1..]);
      assert forall i :: 1 <= i < |cs| ==> cs[i] == cs[1..][i - 1];
    }
  }

  /** Each row occurs among the children exactly as often as in the table when its parent_id is p, else never. */
  lemma {:induction false} ChildrenOfExact(items: seq<Item>, p: nat, c: Item)
    ensures multiset(ChildrenOf(items, p))[c] == if c.parentId == Some(p) then multiset(items)[c] else 0
    decreases |items|
  {
    if items != [] {
      var head: seq<Item> := if items[0].parentId == Some(p) then [items[0]] else [];
      var rest := ChildrenOf(items[1..], p);
      ChildrenOfExact(items[1..], p, c);
      assert multiset(ChildrenOf(items, p)) == multiset(head) + multiset(rest);
      ConsSplit(items);
      assert multiset(items) == multiset([items[0]]) + multiset(items[1..]);
    }
  }

  /**
   * The contents of folder p are a permutation of its children's copies, in
   * sort key order, with children sharing a key kept in table order.
   */
  lemma BuildSortsChildren(items: seq<Item>, p: nat)
    requires ParentBeforeChild(items)
    ensures multiset(Build(items, p)) == multiset(BuildEach(items, p, ChildrenOf(items, p)))
    ensures |Build(items, p)| == |ChildrenOf(items, p)|
    ensures Sorted(Build(items, p))
    ensures forall key :: WithKey(Build(items, p), key) == WithKey(BuildEach(items, p, ChildrenOf(items, p)), key)
  {
    var each := BuildEach(items, p, ChildrenOf(items, p));
    BuildEachExact(items, p, ChildrenOf(items, p));
    SortSorted(each);
    forall key ensures WithKey(Build(items, p), key) == WithKey(each, key) { SortStable(each, key); }
    assert |Build(items, p)| == |multiset(Build(items, p))| == |multiset(each)| == |each|;
  }

  /** A node is in folder p's contents exactly when it is the copy of a row whose parent_id is p. */
  lemma BuildMembers(items: seq<Item>, p: nat, n: Node)
    requires ParentBeforeChild(items)
    ensures n in Build(items, p) <==>
      exists k :: 0 <= k < |items| && items[k].parentId == Some(p) && n == NodeFor(items, p, items[k])
  {
    if n in Build(items, p) {
      BuildMemberFrom(items, p, n);
    }
    if exists k :: 0 <= k < |items| && items[k].parentId == Some(p) && n == NodeFor(items, p, items[k]) {
      var k :| 0 <= k < |items| && items[k].parentId == Some(p) && n == NodeFor(items, p, items[k]);
      BuildMemberTo(items, p, k);
    }
  }

  lemma BuildMemberFrom(items: seq<Item>, p: nat, n: Node)
    requires ParentBeforeChild(items)
    requires n in Build(items, p)
    ensures exists k :: 0 <= k < |items| && items[k].parentId == Some(p) && n == NodeFor(items, p, items[k])
  {
    var cs := ChildrenOf(items, p);
    var each := BuildEach(items, p, cs);
    BuildSortsChildren(items, p);
    BuildEachExact(items, p, cs);
    assert n in multiset(Build(items, p));
    assert n in multiset(each);
    var i :| 0 <= i < |each| && each[i] == n;
    assert cs[i] in items;
    var k :| 0 <= k < |items| && items[k] == cs[i];
  }

  lemma BuildMemberTo(items: seq<Item>, p: nat, k: nat)
    requires ParentBeforeChild(items)
    requires k < |items| && items[k].parentId == Some(p)
    ensures NodeFor(items, p, items[k]) in Build(items, p)
  {
    var cs := ChildrenOf(items, p);
    var each := BuildEach(items, p, cs);
    ChildrenOfExact(items, p, items[k]);
    assert items[k] in multiset(cs);
    var i :| 0 <= i < |cs| && cs[i] == items[k];
    BuildEachExact(items, p, cs);
    assert each[i] in multiset(each);
    BuildSortsChildren(items, p);
    assert each[i] in multiset(Build(items, p));
  }

  /** Every node of folder p's contents has parent p, and carries contents iff it is a folder: its own materialised contents. */
  lemma BuildNodes(items: seq<Item>, p: nat, i: nat)
    requires ParentBeforeChild(items)
    requires i < |Build(items, p)|
    ensures var n := Build(items, p)[i];
      n.parentId == Some(p) &&
      (n.contents.Some? <==> n.kind == Folder) &&
      (n.kind == Folder ==> n.contents == Some(Build(items, n.id)))
  {
    var n := Build(items, p)[i];
    BuildMembers(items, p, n);
  }

  // ---------------------------------------------------------------------------
  // get_library

  /** The id of the first row with no parent named "Root". */
  function FindRoot(items: seq<Item>): (r: Option<nat>)
    ensures r.Some? <==> exists k :: 0 <= k < |items| && items[k].parentId.None? && items[k].name == "Root"
    ensures r.Some? ==> exists k :: (0 <= k < |items| && items[k].parentId.None? && items[k].name == "Root" &&
      items[k].id == r.value && forall j :: 0 <= j < k ==> !(items[j].parentId.None? && items[j].name == "Root"))
    decreases |items|
  {
    if items == [] then None
    else if items[0].parentId.None? && items[0].name == "Root" then Some(items[0].id)
    else
      var r := FindRoot(items[1..]);
      assert forall k :: 1 <= k < |items| ==> items[k] == items[1..][k - 1];
      r
  }

  /** The contents of the payload's Root: empty when the table has no Root row. */
  function LibraryContents(items: seq<Item>): (r: seq<Node>)
    requires ParentBeforeChild(items)
    ensures FindRoot(items).None? ==> r == []
    ensures FindRoot(items).Some? ==> r == Build(items, FindRoot(items).value)
  {
    match FindRoot(items)
    case None => []
    case Some(id) => Build(items, id)
  }
}

/** A worked instance of the listing order. */
module MaterializeExample {
  import opened Wrappers
  import opened Rows
  import opened Materialize
  import opened Paths

  function Names(ns: seq<Node>): (r: seq<string>)
    ensures |r| == |ns| && forall i :: 0 <= i < |ns| ==> r[i] == ns[i].name
  {
    if ns == [] then [] else [ns[0].name] + Names(ns[1..])
  }

  const RowZ := Item(2, "Z", Folder, Some(1), None, map[])
  const RowA := Item(3, "a.pdf", Pdf, Some(1), Some("a.pdf"), map[])
  const RowB := Item(4, "B.pdf", Pdf, Some(1), Some("B.pdf"), map[])
  const RowM := Item(5, "m", Folder, Some(1), None, map[])
  const Table := [RootItem, RowZ, RowA, RowB, RowM]

  lemma TableOrdered()
    ensures ParentBeforeChild(Table)
  {
  }

  lemma {:induction false} AllChildren(s: seq<Item>, p: nat)
    requires forall i :: 0 <= i < |s| ==> s[i].parentId == Some(p)
    ensures ChildrenOf(s, p) == s
    decreases |s|
  {
    if s != [] {
      AllChildren(s[1..], p);
    }
  }

  lemma {:induction false} NoChildren(s: seq<Item>, p: nat)
    requires forall i :: 0 <= i < |s| ==> s[i].parentId != Some(p)
    ensures ChildrenOf(s, p) == []
    decreases |s|
  {
    if s != [] {
      NoChildren(s[1..], p);
    }
  }

  /** The rows below Root, and below either folder, in table order. */
  lemma ExampleChildList(id: nat)
    requires id == 1 || id == 2 || id == 5
    ensures ChildrenOf(Table, id) == if id == 1 then [RowZ, RowA, RowB, RowM] else []
  {
    var rest := [RowZ, RowA, RowB, RowM];
    assert Table[1..] == rest;
    assert ChildrenOf(Table, id) == ChildrenOf(rest, id);
    if id == 1 {
      AllChildren(rest, id);
    } else {
      NoChildren(rest, id);
    }
  }

  lemma EmptyFolder(id: nat)
    requires id == 2 || id == 5
    ensures ParentBeforeChild(Table) && Build(Table, id) == []
  {
    TableOrdered();
    ExampleChildList(id);
    assert BuildEach(Table, id, []) == [];
  }

  const Z := Node(2, "Z", Folder, Some(1), None, Some([]))
  const A := Node(3, "a.pdf", Pdf, Some(1), Some("a.pdf"), None)
  const B := Node(4, "B.pdf", Pdf, Some(1), Some("B.pdf"), None)
  const M := Node(5, "m", Folder, Some(1), None, Some([]))

  lemma ExampleKeys()
    ensures KeyOf(Z) == Key(false, "z") && KeyOf(M) == Key(false, "m")
    ensures KeyOf(A) == Key(true, "a.pdf") && KeyOf(B) == Key(true, "b.pdf")
  {
    assert Lower("Z") == "z" && Lower("m") == "m";
    assert Lower("a.pdf") == "a.pdf" by {
      assert Lower(".pdf") == ".pdf";
    }
    assert Lower("B.pdf") == "b.pdf" by {
      assert Lower(".pdf") == ".pdf";
    }
  }

  lemma InsertB()
    ensures Insert(B, [M]) == [M, B]
  {
    ExampleKeys();
    assert !KeyLe(KeyOf(B), KeyOf(M));
    assert [M][1..] == [];
  }

  lemma InsertA()
    ensures Insert(A, [M, B]) == [M, A, B]
  {
    ExampleKeys();
    assert !KeyLe(KeyOf(A), KeyOf(M));
    assert [M, B][1..] == [B];
    assert LexLe("a.pdf", "b.pdf");
  }

  lemma InsertZ()
    ensures Insert(Z, [M, A, B]) == [M, Z, A, B]
  {
    ExampleKeys();
    assert !LexLe("z", "m");
    assert [M, A, B][1..] == [A, B];
  }

  lemma ExampleSort()
    ensures SortByKey([Z, A, B, M]) == [M, Z, A, B]
  {
    assert [Z, A, B, M][1..] == [A, B, M] && [A, B, M][1..] == [B, M] && [B, M][1..] == [M];
    assert SortByKey([M]) == [M] by { assert [M][1..] == []; }
    InsertB();
    InsertA();
    InsertZ();
    assert SortByKey([B, M]) == Insert(B, SortByKey([M]));
    assert SortByKey([A, B, M]) == Insert(A, SortByKey([B, M]));
    assert SortByKey([Z, A, B, M]) == Insert(Z, SortByKey([A, B, M]));
  }

  lemma ExampleNodes()
    ensures ParentBeforeChild(Table)
    ensures NodeFor(Table, 1, RowZ) == Z && NodeFor(Table, 1, RowA) == A
    ensures NodeFor(Table, 1, RowB) == B && NodeFor(Table, 1, RowM) == M
  {
    EmptyFolder(2);
    EmptyFolder(5);
  }

  lemma BuildEachFour(items: seq<Item>, p: nat, c0: Item, c1: Item, c2: Item, c3: Item)
    requires ParentBeforeChild(items)
    requires c0 in items && c1 in items && c2 in items && c3 in items
    requires c0.parentId == c1.parentId == c2.parentId == c3.parentId == Some(p)
    ensures BuildEach(items, p, [c0, c1, c2, c3]) ==
      [NodeFor(items, p, c0), NodeFor(items, p, c1), NodeFor(items, p, c2), NodeFor(items, p, c3)]
  {
    var cs := [c0, c1, c2, c3];
    BuildEachExact(items, p, cs);
    var e := BuildEach(items, p, cs);
    assert e == [e[0], e[1], e[2], e[3]];
  }

  lemma ExampleChildren()
    ensures ParentBeforeChild(Table) && BuildEach(Table, 1, ChildrenOf(Table, 1)) == [Z, A, B, M]
  {
    ExampleNodes();
    ExampleChildList(1);
    assert RowZ in Table && RowA in Table && RowB in Table && RowM in Table;
    BuildEachFour(Table, 1, RowZ, RowA, RowB, RowM);
  }

  lemma TableRoot()
    ensures FindRoot(Table) == Some(1)
  {
  }

  lemma ExampleContents()
    ensures ParentBeforeChild(Table) && LibraryContents(Table) == [M, Z, A, B]
  {
    TableOrdered();
    TableRoot();
    ExampleChildren();
    ExampleSort();
    assert Build(Table, 1) == SortByKey([Z, A, B, M]);
  }

  lemma FourNames(a: Node, b: Node, c: Node, d: Node)
    ensures Names([a, b, c, d]) == [a.name, b.name, c.name, d.name]
  {
    var n := Names([a, b, c, d]);
    assert n[0] == a.name && n[1] == b.name && n[2] == c.name && n[3] == d.name;
  }

  /**
   * Folder "Z", document "a.pdf", document "B.pdf", folder "m" under Root list
   * as m, Z, a.pdf, B.pdf: folders before documents, each group by lower-cased name.
   */
  lemma FoldersFirstThenCaseInsensitive()
    ensures ParentBeforeChild(Table) && Names(LibraryContents(Table)) == ["m", "Z", "a.pdf", "B.pdf"]
  {
    ExampleContents();
    FourNames(M, Z, A, B);
  }
}
