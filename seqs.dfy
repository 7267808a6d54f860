/** Small facts about sequences that the walk and sort proofs use. */
module Seqs {

  /** The ends of a walk over a listing: all entries still to come, then none. */
  lemma DropEnds<T, U>(s: seq<T>, rows: seq<U>)
    ensures s[0..] == s && s[|s|..] == [] && rows + [] == rows
  {
  }

  lemma DropOne<T>(s: seq<T>, i: nat)
    requires i < |s|
    ensures s[i..] != [] && s[i..][0] == s[i] && s[i..][1..] == s[i + 1..]
  {
  }

  lemma AppendAssoc<T>(a: seq<T>, b: seq<T>, c: seq<T>)
    ensures a + b + c == a + (b + c)
  {
  }

  lemma ConsTail<T>(x: T, s: seq<T>)
    ensures ([x] + s)[0] == x && ([x] + s)[1..] == s
  {
  }

  lemma ConsSplit<T>(s: seq<T>)
    requires s != []
    ensures [s[0]] + s[1..] == s
  {
  }

  /** Two parts of which at least one is empty can be put in either order. */
  lemma SwapEmpty<T>(a: seq<T>, b: seq<T>, c: seq<T>)
    requires a == [] || b == []
    ensures a + (b + c) == b + (a + c)
  {
    if a == [] { assert a + (b + c) == b + c; assert a + c == c; }
    else { assert b + c == c; assert b + (a + c) == a + c; }
  }
}
