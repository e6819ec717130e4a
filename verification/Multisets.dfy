/** Sequences with the same elements. */
module Multisets {
  lemma SameElements<T>(s: seq<T>, t: seq<T>)
    requires multiset(s) == multiset(t)
    ensures |s| == |t| && forall x :: x in s <==> x in t
  {
    assert |multiset(s)| == |s| && |multiset(t)| == |t|;
    forall x ensures x in s <==> x in t { assert x in s <==> x in multiset(s); }
  }

  lemma DropLast<T>(s: seq<T>)
    requires s != []
    ensures s == s[..|s| - 1] + [s[|s| - 1]]
    ensures multiset(s[..|s| - 1]) == multiset(s) - multiset{s[|s| - 1]}
  {
    assert s == s[..|s| - 1] + [s[|s| - 1]];
  }

  lemma TakeOut<T>(s: seq<T>, x: T) returns (u: seq<T>, v: seq<T>)
    requires x in s
    ensures s == u + ([x] + v) && multiset(u + v) == multiset(s) - multiset{x}
  {
    var k :| 0 <= k < |s| && s[k] == x;
    u, v := s[..k], s[k + 1..];
    assert s == u + ([x] + v);
  }
}
