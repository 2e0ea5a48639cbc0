/** Reachability between garbage-collected objects, and what a recursive mark establishes. */
module Reachability {
  import opened Slabs

  /** The constructed objects by address. */
  type Graph = map<Addr, Object>

  function Children(o: Object): seq<Addr> {
    o.early + o.late
  }

  /** Every reference leads to a constructed object. */
  ghost predicate Closed(g: Graph) {
    forall x, c :: x in g && c in Children(g[x]) ==> c in g
  }

  /** Successive elements are parent and child. */
  ghost predicate Path(g: Graph, p: seq<Addr>) {
    && |p| > 0
    && (forall k :: 0 <= k < |p| ==> p[k] in g)
    && (forall k :: 0 < k < |p| ==> p[k] in Children(g[p[k - 1]]))
  }

  ghost predicate Connects(g: Graph, p: seq<Addr>, a: Addr, x: Addr) {
    Path(g, p) && p[0] == a && p[|p| - 1] == x
  }

  ghost predicate Reaches(g: Graph, a: Addr, x: Addr) {
    exists p :: Connects(g, p, a, x)
  }

  /** The objects that some root reaches. */
  ghost function Reachable(g: Graph, roots: set<Addr>): set<Addr> {
    set x | x in g && exists r :: r in roots && Reaches(g, r, x)
  }

  lemma ReachesItself(g: Graph, a: Addr)
    requires a in g
    ensures Reaches(g, a, a)
  {
    assert Connects(g, [a], a, a);
  }

  /** A child reaches what it reaches through its parent. */
  lemma ReachesThroughChild(g: Graph, a: Addr, c: Addr, x: Addr)
    requires a in g && c in Children(g[a]) && Reaches(g, c, x)
    ensures Reaches(g, a, x)
  {
    var p :| Connects(g, p, c, x);
    var q := [a] + p;
    forall k | 0 < k < |q|
      ensures q[k] in Children(g[q[k - 1]])
    {
      if k > 1 {
        assert q[k] == p[k - 1] && q[k - 1] == p[k - 2];
      }
    }
    assert Connects(g, q, a, x);
  }

  /** A set that contains every child of its elements contains whatever a path leads to. */
  lemma {:induction false} PathStaysInside(g: Graph, p: seq<Addr>, s: set<Addr>)
    requires Path(g, p) && p[0] in s
    requires forall x, c :: x in s && x in g && c in Children(g[x]) ==> c in s
    ensures p[|p| - 1] in s
  {
    if |p| > 1 {
      PathStaysInside(g, p[..|p| - 1], s);
    }
  }

  /** Children of reachable objects are reachable. */
  lemma ReachableIsClosed(g: Graph, roots: set<Addr>, x: Addr, c: Addr)
    requires x in Reachable(g, roots) && c in Children(g[x]) && c in g
    ensures c in Reachable(g, roots)
  {
    var r :| r in roots && Reaches(g, r, x);
    var p :| Connects(g, p, r, x);
    var q := p + [c];
    forall k | 0 < k < |q|
      ensures q[k] in Children(g[q[k - 1]])
    {
      if k < |p| {
        assert q[k] == p[k] && q[k - 1] == p[k - 1];
      }
    }
    assert Connects(g, q, r, c);
  }

  /** The survivors among the objects g: marked ones, and away from the main thread those not safe to destroy. */
  ghost function Survivors(g: Graph, marked: set<Addr>, main: bool): (s: Graph)
    ensures forall a :: a in s <==> a in g && (a in marked || !(main || g[a].threadSafe))
    ensures forall a :: a in s ==> s[a] == g[a]
  {
    map a | a in g && (a in marked || !(main || g[a].threadSafe)) :: g[a]
  }

  // Marking.

  /** Only activations have early references, none of them to another activation. */
  ghost predicate EarlyAreOrdinary(g: Graph) {
    forall x, c :: x in g && c in g[x].early && c in g ==> g[x].kind.Activation? && g[c].kind.Ordinary?
  }

  /** An early reference from one activation of s to another. */
  ghost predicate EarlyStep(g: Graph, s: set<Addr>, x: Addr, c: Addr) {
    x in s && x in g && c in s && c in g && g[x].kind.Activation? && g[c].kind.Activation? && c in g[x].early
  }

  /** The rank falls along early references between activations of s. */
  ghost predicate Falls(g: Graph, s: set<Addr>, rank: Addr -> nat) {
    forall x, c :: EarlyStep(g, s, x, c) ==> rank(c) < rank(x)
  }

  /** Every reference in s leads to an object of s, and only activations have early ones. */
  ghost predicate SelfContained(g: Graph, s: set<Addr>) {
    && s <= g.Keys && (forall x, c :: x in s && c in Children(g[x]) ==> c in s)
    && (forall x :: x in s && g[x].early != [] ==> g[x].kind.Activation?)
  }

  lemma InsideHeap(g: Graph, s: set<Addr>, a: Addr)
    requires SelfContained(g, s) && a in s
    ensures a in g
  {}

  /** What marking from a adds to the marks m0: reached objects only, each with all its children. */
  ghost predicate MarksFrom(g: Graph, a: Addr, m0: set<Addr>, m1: set<Addr>) {
    && m0 <= m1 && m1 <= g.Keys + m0
    && (forall x :: x in m1 && x !in m0 ==> Reaches(g, a, x))
    && (forall x, c :: x in m1 && x !in m0 && c in Children(g[x]) ==> c in m1)
  }

  /** The same while a itself is in progress: its children are still to come. */
  ghost predicate MarksUnder(g: Graph, a: Addr, m0: set<Addr>, m1: set<Addr>) {
    && m0 <= m1 && m1 <= g.Keys + m0
    && (forall x :: x in m1 && x !in m0 ==> Reaches(g, a, x))
    && (forall x, c :: x in m1 && x !in m0 && x != a && c in Children(g[x]) ==> c in m1)
  }

  lemma MarksUnderStarts(g: Graph, a: Addr, m: set<Addr>)
    requires a in g
    ensures MarksUnder(g, a, m, m) && MarksUnder(g, a, m, m + {a})
  {
    ReachesItself(g, a);
  }

  /** Marking a child keeps a in progress. */
  lemma MarksUnderChild(g: Graph, a: Addr, c: Addr, m0: set<Addr>, m1: set<Addr>, m2: set<Addr>)
    requires MarksUnder(g, a, m0, m1) && a in g && c in Children(g[a]) && MarksFrom(g, c, m1, m2)
    ensures MarksUnder(g, a, m0, m2)
  {
    forall x | x in m2 && x !in m0
      ensures Reaches(g, a, x)
    {
      if x !in m1 {
        ReachesThroughChild(g, a, c, x);
      }
    }
  }

  /** Setting a's own mark keeps it in progress. */
  lemma MarksUnderSelf(g: Graph, a: Addr, m0: set<Addr>, m1: set<Addr>)
    requires MarksUnder(g, a, m0, m1) && a in g
    ensures MarksUnder(g, a, m0, m1 + {a})
  {
    ReachesItself(g, a);
  }

  /** Once its children are marked, a is done. */
  lemma MarksUnderEnds(g: Graph, a: Addr, m0: set<Addr>, m1: set<Addr>)
    requires MarksUnder(g, a, m0, m1) && a in g && forall c :: c in Children(g[a]) ==> c in m1
    ensures MarksFrom(g, a, m0, m1)
  {}

  /** Children of an object in progress are objects, early ones that are activations of lower rank. */
  lemma ChildrenAreObjects(g: Graph, s: set<Addr>, rank: Addr -> nat, a: Addr)
    requires SelfContained(g, s) && Falls(g, s, rank) && a in s
    ensures a in g && (g[a].kind.Ordinary? ==> g[a].early == [])
    ensures forall k :: 0 <= k < |g[a].early| ==> g[a].early[k] in s && g[a].early[k] in g && g[a].early[k] in Children(g[a])
    ensures forall k :: 0 <= k < |g[a].early| && g[g[a].early[k]].kind.Activation? ==> rank(g[a].early[k]) < rank(a)
    ensures forall k :: 0 <= k < |g[a].late| ==> g[a].late[k] in s && g[a].late[k] in g && g[a].late[k] in Children(g[a])
  {
    forall k | 0 <= k < |g[a].early|
      ensures g[a].early[k] in s && g[a].early[k] in Children(g[a])
      ensures g[g[a].early[k]].kind.Activation? ==> rank(g[a].early[k]) < rank(a)
    {
      assert Children(g[a])[k] == g[a].early[k];
      assert g[g[a].early[k]].kind.Activation? ==> EarlyStep(g, s, a, g[a].early[k]);
    }
    forall k | 0 <= k < |g[a].late|
      ensures g[a].late[k] in s && g[a].late[k] in Children(g[a])
    {
      assert Children(g[a])[|g[a].early| + k] == g[a].late[k];
    }
  }

  lemma MarksGrow(g: Graph, a: Addr, m0: set<Addr>, m1: set<Addr>)
    requires MarksFrom(g, a, m0, m1) || MarksUnder(g, a, m0, m1)
    ensures m0 <= m1
  {}

  lemma AllChildrenMarked(o: Object, m: set<Addr>)
    requires forall k :: 0 <= k < |o.early| ==> o.early[k] in m
    requires forall k :: 0 <= k < |o.late| ==> o.late[k] in m
    ensures forall c :: c in Children(o) ==> c in m
  {}

  /** What marking from several roots has added to no marks at all. */
  ghost predicate MarksFromRoots(g: Graph, roots: set<Addr>, m: set<Addr>) {
    && m <= g.Keys && (forall r :: r in roots && r in g ==> r in m)
    && (forall x :: x in m ==> exists r :: r in roots && Reaches(g, r, x))
    && (forall x, c :: x in m && c in Children(g[x]) ==> c in m)
  }

  lemma OneMoreRoot(g: Graph, roots: set<Addr>, r: Addr, m0: set<Addr>, m1: set<Addr>)
    requires MarksFromRoots(g, roots, m0) && r in m1 && (MarksFrom(g, r, m0, m1) || m1 == m0)
    ensures MarksFromRoots(g, roots + {r}, m1)
  {
    hide Reaches, Children;
    forall x | x in m1
      ensures exists s :: s in roots + {r} && Reaches(g, s, x)
    {
      if x in m0 {
        var s :| s in roots && Reaches(g, s, x);
        assert s in roots + {r};
      } else {
        assert r in roots + {r};
      }
    }
  }

  lemma MarksFromNoRoots(g: Graph)
    ensures MarksFromRoots(g, {}, {})
  {}

  /** Marking from all the roots marks exactly what they reach. */
  lemma MarkedIsReachable(g: Graph, roots: set<Addr>, m: set<Addr>)
    requires MarksFromRoots(g, roots, m)
    ensures m == Reachable(g, roots)
  {
    hide Reaches, Children;
    forall x | x in Reachable(g, roots)
      ensures x in m
    {
      var r :| r in roots && Reaches(g, r, x);
      StaysInside(g, r, x, m);
    }
  }

  lemma StaysInside(g: Graph, r: Addr, x: Addr, m: set<Addr>)
    requires Reaches(g, r, x) && (r in g ==> r in m)
    requires forall y, c :: y in m && y in g && c in Children(g[y]) ==> c in m
    ensures x in m
  {
    var p :| Connects(g, p, r, x);
    PathStaysInside(g, p, m);
  }

  /** Roots that are objects are reached. */
  lemma RootsAreReached(g: Graph, roots: set<Addr>)
    ensures forall r :: r in roots && r in g ==> r in Reachable(g, roots)
  {
    hide Reaches;
    forall r | r in roots && r in g
      ensures r in Reachable(g, roots)
    {
      ReachesItself(g, r);
    }
  }

  // When marking ends: early references are visited before their holder is marked.

  /** A chain of early references between activations of s. */
  ghost predicate EarlyPath(g: Graph, s: set<Addr>, p: seq<Addr>) {
    && |p| > 0 && (forall k :: 0 <= k < |p| ==> p[k] in s && p[k] in g)
    && (forall k :: 0 < k < |p| ==> EarlyStep(g, s, p[k - 1], p[k]))
  }

  ghost predicate EarlyCycle(g: Graph, s: set<Addr>, p: seq<Addr>) {
    EarlyPath(g, s, p) && |p| > 1 && p[0] == p[|p| - 1]
  }

  /** No activation in s comes back to itself through early references. */
  ghost predicate Ends(g: Graph, s: set<Addr>) {
    forall p :: !EarlyCycle(g, s, p)
  }

  /** Ranks fall along a chain. */
  lemma {:induction false} RankOnPath(g: Graph, s: set<Addr>, rank: Addr -> nat, p: seq<Addr>)
    requires Falls(g, s, rank) && EarlyPath(g, s, p)
    ensures rank(p[|p| - 1]) + |p| - 1 <= rank(p[0])
  {
    var n := |p| - 1;
    if n > 0 {
      RankOnPath(g, s, rank, p[..n]);
      assert EarlyStep(g, s, p[n - 1], p[n]);
    }
  }

  /** Without cycles no chain meets an activation twice, so none is longer than there are objects. */
  lemma PathsAreShort(g: Graph, s: set<Addr>, p: seq<Addr>)
    requires Ends(g, s) && EarlyPath(g, s, p)
    ensures |p| <= |g|
  {
    forall i, j | 0 <= i < j < |p|
      ensures p[i] != p[j]
    {
      if p[i] == p[j] {
        assert EarlyCycle(g, s, p[i..j + 1]);
      }
    }
    DistinctAreFew(p, g.Keys);
  }

  lemma {:induction false} DistinctAreFew(p: seq<Addr>, t: set<Addr>)
    requires (forall i, j :: 0 <= i < j < |p| ==> p[i] != p[j]) && forall i :: 0 <= i < |p| ==> p[i] in t
    ensures |p| <= |t|
  {
    if p != [] {
      var n := |p| - 1;
      DistinctAreFew(p[..n], t - {p[n]});
    }
  }

  /** There is a chain of n steps from x. */
  ghost predicate Starts(g: Graph, s: set<Addr>, x: Addr, n: nat) {
    exists p :: EarlyPath(g, s, p) && p[0] == x && |p| == n + 1
  }

  /** The steps of a longest chain from x, up to a bound. */
  ghost function Longest(g: Graph, s: set<Addr>, x: Addr, bound: nat): (n: nat)
    ensures n <= bound && (n > 0 ==> Starts(g, s, x, n))
    ensures forall m :: n < m <= bound ==> !Starts(g, s, x, m)
  {
    if bound == 0 || Starts(g, s, x, bound) then bound else Longest(g, s, x, bound - 1)
  }

  lemma OneStepMore(g: Graph, s: set<Addr>, x: Addr, c: Addr, n: nat)
    requires EarlyStep(g, s, x, c) && (n == 0 || Starts(g, s, c, n))
    ensures Starts(g, s, x, n + 1)
  {
    var p := [c];
    if n > 0 {
      p :| EarlyPath(g, s, p) && p[0] == c && |p| == n + 1;
    }
    var q := [x] + p;
    forall k | 0 < k < |q|
      ensures EarlyStep(g, s, q[k - 1], q[k])
    {
      if k > 1 {
        assert q[k - 1] == p[k - 2] && q[k] == p[k - 1];
      }
    }
    assert EarlyPath(g, s, q);
  }

  /** Some rank falls along early references exactly when no cycle of activations runs through them. */
  lemma RankIffNoCycle(g: Graph, s: set<Addr>)
    ensures (exists rank: Addr -> nat :: Falls(g, s, rank)) <==> Ends(g, s)
  {
    if rank: Addr -> nat :| Falls(g, s, rank) {
      forall p
        ensures !EarlyCycle(g, s, p)
      {
        if EarlyCycle(g, s, p) {
          RankOnPath(g, s, rank, p);
        }
      }
    }
    if Ends(g, s) {
      var rank := x => Longest(g, s, x, |g|);
      forall x, c | EarlyStep(g, s, x, c)
        ensures rank(c) < rank(x)
      {
        OneStepMore(g, s, x, c, rank(c));
        var p :| EarlyPath(g, s, p) && p[0] == x && |p| == rank(c) + 2;
        PathsAreShort(g, s, p);
      }
      assert Falls(g, s, rank);
    }
  }

  /** What the roots reach can be marked: its references are good, and the order of marking ends. */
  ghost predicate Markable(g: Graph, roots: set<Addr>) {
    SelfContained(g, Reachable(g, roots)) && Ends(g, Reachable(g, roots))
  }

  /** A heap in order can be marked from any roots. */
  lemma GoodHeapIsMarkable(g: Graph, roots: set<Addr>)
    requires Closed(g) && EarlyAreOrdinary(g)
    ensures Markable(g, roots)
  {
    var s := Reachable(g, roots);
    forall x, c | x in s && c in Children(g[x])
      ensures c in s
    {
      ReachableIsClosed(g, roots, x, c);
    }
    forall x | x in s && g[x].early != []
      ensures g[x].kind.Activation?
    {
      assert g[x].early[0] == Children(g[x])[0] && g[x].early[0] in g[x].early;
      assert g[x].early[0] in g;
    }
    assert Falls(g, s, x => 0);
    RankIffNoCycle(g, s);
  }

  /** A path survives if everything reachable does. */
  lemma PathSurvives(g: Graph, h: Graph, r: set<Addr>, a: Addr, x: Addr)
    requires r <= g.Keys && r <= h.Keys && (forall y :: y in r ==> h[y] == g[y])
    requires forall y, c :: y in r && y in g && c in Children(g[y]) ==> c in r
    requires a in r && Reaches(g, a, x)
    ensures Reaches(h, a, x)
  {
    hide Children;
    var p :| Connects(g, p, a, x);
    forall k | 0 <= k < |p|
      ensures p[k] in r
    {
      assert Path(g, p[..k + 1]);
      PathStaysInside(g, p[..k + 1], r);
    }
    assert Connects(h, p, a, x);
  }

  /** Whoever survives, what the roots reach stays what it was. */
  lemma ReachableSurvives(g: Graph, roots: set<Addr>, main: bool)
    requires SelfContained(g, Reachable(g, roots))
    ensures var s, r := Survivors(g, Reachable(g, roots), main), Reachable(g, roots);
      Reachable(s, roots) == r && r <= s.Keys && forall x :: x in r ==> s[x] == g[x]
  {
    hide Survivors, Children, Reaches;
    var s, r := Survivors(g, Reachable(g, roots), main), Reachable(g, roots);
    RootsAreReached(g, roots);
    forall x | x in Reachable(s, roots)
      ensures x in r
    {
      var a :| a in roots && Reaches(s, a, x);
      StaysInside(s, a, x, r);
    }
    forall x | x in r
      ensures x in Reachable(s, roots)
    {
      var a :| a in roots && Reaches(g, a, x);
      StartIsObject(g, a, x);
      PathSurvives(g, s, r, a, x);
    }
  }

  lemma StartIsObject(g: Graph, a: Addr, x: Addr)
    requires Reaches(g, a, x)
    ensures a in g
  {}

  /** After any collection, on whichever thread and whatever dangles, the same roots can be marked again. */
  lemma MarkableAgain(g: Graph, roots: set<Addr>, main: bool)
    requires Markable(g, roots)
    ensures Markable(Survivors(g, Reachable(g, roots), main), roots)
  {
    hide Survivors, Children, Reachable;
    var s, r := Survivors(g, Reachable(g, roots), main), Reachable(g, roots);
    ReachableSurvives(g, roots, main);
    forall p
      ensures EarlyCycle(s, r, p) ==> EarlyCycle(g, r, p)
    {}
  }
}
