/** Facts about finite sets and sequences of small numbers. */
module Finite {

  /** The numbers from 0 up to, not including, n. */
  ghost function Below(n: nat): (s: set<int>)
    ensures |s| == n
    ensures forall x :: x in s <==> 0 <= x < n
  {
    if n == 0 then {} else Below(n - 1) + {n - 1}
  }

  lemma {:induction false} SubsetSize<T>(a: set<T>, b: set<T>)
    requires a <= b
    ensures |a| <= |b|
    ensures |a| == |b| ==> a == b
  {
    if x :| x in a {
      SubsetSize(a - {x}, b - {x});
    }
  }

  ghost predicate Distinct<T>(s: seq<T>) {
    forall i, j :: 0 <= i < j < |s| ==> s[i] != s[j]
  }

  /** A sequence without repetitions is no longer than the set it draws from. */
  lemma {:induction false} Pigeonhole<T>(s: seq<T>, all: set<T>)
    requires Distinct(s) && forall x :: x in s ==> x in all
    ensures |s| <= |all|
  {
    if s != [] {
      var x := s[0];
      forall y | y in s[1..]
        ensures y in all - {x}
      {
        var i :| 1 <= i < |s| && s[i] == y;
      }
      Pigeonhole(s[1..], all - {x});
    }
  }
}
