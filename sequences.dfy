/** Facts about sequences that the proofs of the other modules cite, kept
    apart so that each is proved in a context with nothing else in it. */
module Sequences {

  lemma PrefixGrow<T>(s: seq<T>, a: seq<T>, b: seq<T>)
    requires |a| <= |s| && a == s[..|a|] && |b| <= |s| - |a| && b == s[|a|..][..|b|]
    ensures a + b == s[..|a + b|]
  {
  }

  lemma PrefixParts<T>(s: seq<T>, a: seq<T>, b: seq<T>)
    requires |a + b| <= |s| && a + b == s[..|a + b|]
    ensures a == s[..|a|] && b == s[|a|..|a| + |b|]
  {
    assert a == (a + b)[..|a|] && b == (a + b)[|a|..];
  }

  lemma SnocAssoc<T>(a: seq<T>, b: seq<T>, x: T)
    ensures (a + b) + [x] == a + (b + [x])
  {
  }

  lemma DropDrop<T>(s: seq<T>, a: seq<T>, b: seq<T>)
    requires |a + b| <= |s|
    ensures s[|a|..][|b|..] == s[|a + b|..]
  {
  }

  lemma AppendAssoc<T>(a: seq<T>, b: seq<T>, c: seq<T>)
    ensures (a + b) + c == a + (b + c)
  {
  }

  lemma PrefixWithin<T>(s: seq<T>, f: seq<T>, k: nat, m: nat)
    requires |f| <= |s| && f == s[..|f|] && k + m <= |f|
    ensures f[k..k + m] == s[k..][..m]
  {
  }

  lemma ConsSlices<T>(t0: seq<T>, x: T, rs: seq<T>)
    ensures |t0| <= |t0 + [x] + rs| && (t0 + [x] + rs)[..|t0|] == t0
    ensures (t0 + [x] + rs)[|t0|..] == [x] + rs && ([x] + rs)[0] == x && ([x] + rs)[1..] == rs
  {
  }

  lemma ConsTail<T>(x: T, a: seq<T>)
    ensures ([x] + a)[1..] == a && ([x] + a)[0] == x
  {
  }

  lemma SlicesOfFour<T>(a: seq<T>, b: seq<T>, d: seq<T>, e: seq<T>)
    ensures (a + b + d + e)[..|a|] == a
    ensures (a + b + d + e)[|a|..|a| + |b|] == b
    ensures (a + b + d + e)[|a| + |b|..|a| + |b| + |d|] == d
    ensures (a + b + d + e)[|a| + |b| + |d|..] == e
  {
  }

  lemma PairSlices<T>(x: T, y: T)
    ensures [] + [x] == [x, y][..1] && [x, y][..1] + [y] == [x, y]
  {
  }
}
