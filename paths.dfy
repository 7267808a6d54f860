/**
 * String and path helpers the library code relies on: ASCII lower-casing
 * (str.lower), the case-insensitive ".pdf" suffix test, and the POSIX
 * behaviour of os.path.join, os.path.dirname and os.path.basename.
 */
module Paths {

  function LowerChar(c: char): char {
    if 'A' <= c <= 'Z' then (c as int + 32) as char else c
  }

  /** str.lower() restricted to ASCII letters. */
  function Lower(s: string): (r: string)
    ensures |r| == |s|
    ensures forall i :: 0 <= i < |s| ==> r[i] == LowerChar(s[i])
  {
    if s == [] then [] else [LowerChar(s[0])] + Lower(s[1..])
  }

  lemma {:induction false} LowerAppend(a: string, b: string)
    ensures Lower(a + b) == Lower(a) + Lower(b)
  {
    var l, r := Lower(a + b), Lower(a) + Lower(b);
    assert |l| == |r|;
    forall i | 0 <= i < |l| ensures l[i] == r[i] {
      if i < |a| { assert (a + b)[i] == a[i]; } else { assert (a + b)[i] == b[i - |a|]; }
    }
  }

  /** name.lower().endswith('.pdf') */
  predicate EndsWithPdf(name: string) {
    var l := Lower(name);
    |l| >= 4 && l[|l| - 4..] == ".pdf"
  }

  /** The rename handler's suffix rule: append ".pdf" unless already present. */
  function WithPdfSuffix(name: string): (r: string)
    ensures EndsWithPdf(r)
    ensures EndsWithPdf(name) ==> r == name
    ensures !EndsWithPdf(name) ==> r == name + ".pdf"
  {
    if EndsWithPdf(name) then name
    else
      LowerAppend(name, ".pdf");
      assert Lower(".pdf") == ".pdf";
      name + ".pdf"
  }

  predicate NoSlash(s: string) {
    forall i :: 0 <= i < |s| ==> s[i] != '/'
  }

  predicate AllSlash(s: string) {
    forall i :: 0 <= i < |s| ==> s[i] == '/'
  }

  /** posixpath.join(a, b): an absolute b replaces a; otherwise one '/' separates them. */
  function PathJoin(a: string, b: string): string {
    if |b| > 0 && b[0] == '/' then b
    else if a == [] || a[|a| - 1] == '/' then a + b
    else a + "/" + b
  }

  /** Index just after the last '/' of p (0 when p has none): p.rfind('/') + 1. */
  function SplitPoint(p: string): (r: nat)
    ensures r <= |p|
    ensures r > 0 ==> p[r - 1] == '/'
    ensures NoSlash(p[r..])
  {
    if p == [] then 0
    else if p[|p| - 1] == '/' then |p|
    else
      var r := SplitPoint(p[..|p| - 1]);
      assert p[r..] == p[..|p| - 1][r..] + [p[|p| - 1]];
      r
  }

  /** head.rstrip('/') */
  function RStripSlash(s: string): (r: string)
    ensures r == [] || r[|r| - 1] != '/'
    ensures |r| <= |s| && r == s[..|r|]
    ensures AllSlash(s[|r|..])
  {
    if s != [] && s[|s| - 1] == '/' then
      var r := RStripSlash(s[..|s| - 1]);
      assert s[|r|..] == s[..|s| - 1][|r|..] + ['/'];
      r
    else s
  }

  /** posixpath.basename */
  function Basename(p: string): string {
    p[SplitPoint(p)..]
  }

  /** posixpath.dirname: the part before the last '/', trailing slashes stripped unless it is all slashes. */
  function Dirname(p: string): string {
    var head := p[..SplitPoint(p)];
    if head != [] && !AllSlash(head) then RStripSlash(head) else head
  }

  /** The shape every dirname has: empty, all slashes, or not ending in '/'. */
  predicate DirShaped(d: string) {
    d == [] || AllSlash(d) || d[|d| - 1] != '/'
  }

  lemma DirnameShaped(p: string)
    ensures DirShaped(Dirname(p))
  {
  }

  lemma {:induction false} SplitPointAfterSlash(d: string, n: string)
    requires |d| > 0 && d[|d| - 1] == '/'
    requires NoSlash(n)
    ensures SplitPoint(d + n) == |d|
    decreases |n|
  {
    if n == [] {
      assert d + n == d;
    } else {
      var p := d + n;
      assert p[|p| - 1] == n[|n| - 1];
      assert p[..|p| - 1] == d + n[..|n| - 1];
      SplitPointAfterSlash(d, n[..|n| - 1]);
    }
  }

  lemma {:induction false} RStripSlashOfDirSlash(d: string)
    requires d != [] && d[|d| - 1] != '/'
    ensures RStripSlash(d + "/") == d
  {
    var s := d + "/";
    assert s[..|s| - 1] == d;
  }

  /**
   * Joining a directory-shaped prefix with a slash-free name and splitting the
   * result again gives back both parts: dirname recovers the directory and
   * basename the name.
   */
  lemma JoinSplit(d: string, n: string)
    requires DirShaped(d)
    requires NoSlash(n)
    ensures Dirname(PathJoin(d, n)) == d
    ensures Basename(PathJoin(d, n)) == n
  {
    if d == [] {
      JoinSplitEmpty(n);
    } else if d[|d| - 1] == '/' {
      JoinSplitSlash(d, n);
    } else {
      JoinSplitPlain(d, n);
    }
  }

  /** A bare name has no folder part. */
  lemma JoinSplitEmpty(n: string)
    requires NoSlash(n)
    ensures Dirname(PathJoin([], n)) == [] && Basename(PathJoin([], n)) == n
  {
    assert PathJoin([], n) == n;
    assert SplitPoint(n) == 0;
  }

  /** A directory of slashes only (such as "/") is kept as it is. */
  lemma JoinSplitSlash(d: string, n: string)
    requires |d| > 0 && d[|d| - 1] == '/' && AllSlash(d)
    requires NoSlash(n)
    ensures Dirname(PathJoin(d, n)) == d && Basename(PathJoin(d, n)) == n
  {
    var p := d + n;
    assert PathJoin(d, n) == p;
    SplitPointAfterSlash(d, n);
    assert p[..|d|] == d;
    assert p[|d|..] == n;
  }

  /** Otherwise join puts one '/' between them, which dirname strips again. */
  lemma JoinSplitPlain(d: string, n: string)
    requires |d| > 0 && d[|d| - 1] != '/'
    requires NoSlash(n)
    ensures Dirname(PathJoin(d, n)) == d && Basename(PathJoin(d, n)) == n
  {
    var ds := d + "/";
    var p := ds + n;
    assert PathJoin(d, n) == p;
    SplitPointAfterSlash(ds, n);
    assert p[..|ds|] == ds;
    assert ds[|ds| - 2] != '/';
    assert !AllSlash(ds);
    RStripSlashOfDirSlash(d);
    assert p[|ds|..] == n;
  }
}
