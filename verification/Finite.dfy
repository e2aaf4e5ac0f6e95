/** Cardinality facts about finite sets that the counting arguments share. */
module Finite {
  import opened Sequences

  /** The set {0, ..., n-1}. */
  ghost function Range(n: nat): (r: set<nat>)
    ensures forall x: nat :: x in r <==> x < n
    ensures |r| == n
  {
    if n == 0 then {} else Range(n - 1) + {n - 1}
  }

  lemma {:induction false} SubsetCard<T>(a: set<T>, b: set<T>)
    requires a <= b
    ensures |a| <= |b|
    ensures a != b ==> |a| < |b|
  {
    if a != {} {
      var x :| x in a;
      SubsetCard(a - {x}, b - {x});
    }
  }

  /** A sequence without repetitions has as many members as positions. */
  lemma {:induction false} DistinctCard<T>(s: seq<T>)
    requires NoRepeats(s)
    ensures |(set x | x in s)| == |s|
  {
    if s == [] {
      assert (set x | x in s) == {};
    } else {
      var n := |s| - 1;
      var front := s[..n];
      DistinctCard(front);
      assert s == front + [s[n]] && s[n] !in front;
      assert (set x | x in s) == (set x | x in front) + {s[n]};
    }
  }

  /** An injective map does not shrink a set. */
  lemma {:induction false} InjectionCard<S, T>(a: set<S>, b: set<T>, f: map<S, T>)
    requires forall x :: x in a ==> x in f && f[x] in b
    requires forall x, y :: x in a && y in a && f[x] == f[y] ==> x == y
    ensures |a| <= |b|
    decreases |a|
  {
    if a != {} {
      var x :| x in a;
      InjectionCard(a - {x}, b - {f[x]}, f);
    }
  }
}
