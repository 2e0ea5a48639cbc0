/** Finite sets of numbers, and counting with them. */
module FiniteSets {
  predicate NoDuplicates(f: seq<nat>) {
    forall j, k :: 0 <= j < k < |f| ==> f[j] != f[k]
  }

  /** The numbers below n. */
  function Indices(n: nat): (s: set<nat>)
    ensures |s| == n && forall i: nat :: i in s <==> i < n
  {
    if n == 0 then {} else Indices(n - 1) + {n - 1}
  }

  /** The elements of a duplicate-free sequence. */
  function Elements(f: seq<nat>): (s: set<nat>)
    requires NoDuplicates(f)
    ensures |s| == |f| && forall x :: x in s <==> x in f
  {
    if f == [] then {} else Elements(f[..|f| - 1]) + {f[|f| - 1]}
  }

  lemma {:induction false} SubsetSize<T>(a: set<T>, b: set<T>)
    requires a <= b
    ensures |a| <= |b| && (|a| == |b| ==> a == b)
  {
    if a != {} {
      var x :| x in a;
      SubsetSize(a - {x}, b - {x});
    }
  }

  /** Small numbers, each at most once, leave no room for one more. */
  lemma Pigeonhole(f: seq<nat>, n: nat)
    requires NoDuplicates(f) && forall k :: 0 <= k < |f| ==> f[k] < n
    ensures |f| <= n && (|f| == n ==> forall i :: 0 <= i < n ==> i in f)
  {
    hide *;
    SubsetSize(Elements(f), Indices(n));
  }
}
