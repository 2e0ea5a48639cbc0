/** References that native code holds to script objects (bindings/runtime_root.cpp): counted per root, protected once per root. */
module NativeReferences {
  import opened CountedSets

  /** The roots' counted sets. */
  type References = map<nat, map<nat, nat>>

  /** The roots whose set contains an object. */
  ghost function Holding(roots: References, x: nat): (s: set<nat>)
    ensures forall r :: r in s <==> r in roots && x in roots[r]
  {
    set r | r in roots && x in roots[r]
  }

  ghost function Holders(roots: References, x: nat): nat {
    |Holding(roots, x)|
  }

  lemma SetChanges(s: set<nat>, t: set<nat>, r: nat, before: bool, now: bool)
    requires forall q :: q != r ==> (q in s <==> q in t)
    requires (r in s <==> before) && (r in t <==> now)
    ensures |t| == |s| - (if before then 1 else 0) + (if now then 1 else 0)
  {
    assert s - {r} == t - {r};
    if before {
      assert s == (s - {r}) + {r};
    } else {
      assert s == s - {r};
    }
    if now {
      assert t == (t - {r}) + {r};
    } else {
      assert t == t - {r};
    }
  }

  /** One root's set changes. */
  lemma HoldersAfterUpdate(roots: References, r: nat, m: map<nat, nat>, x: nat)
    ensures Holders(roots[r := m], x)
      == Holders(roots, x) - (if r in roots && x in roots[r] then 1 else 0) + (if x in m then 1 else 0)
  {
    hide Holding;
    SetChanges(Holding(roots, x), Holding(roots[r := m], x), r, r in roots && x in roots[r], x in m);
  }

  /** One root goes. */
  lemma HoldersAfterRemoval(roots: References, r: nat, x: nat)
    ensures Holders(roots - {r}, x) == Holders(roots, x) - (if r in roots && x in roots[r] then 1 else 0)
  {
    hide Holding;
    SetChanges(Holding(roots, x), Holding(roots - {r}, x), r, r in roots && x in roots[r], false);
  }

  /** Every object is protected once for each root that holds it, on top of what others have contributed. */
  ghost predicate Conserved(roots: References, protected: map<nat, nat>, others: map<nat, nat>) {
    && (forall r :: r in roots ==> Positive(roots[r])) && Positive(protected)
    && (forall x :: Count(protected, x) == Count(others, x) + Holders(roots, x))
  }

  /** A root's set and the protection counts change together for one object, and only for that one. */
  lemma ChangeConserves(roots: References, protected: map<nat, nat>, others: map<nat, nat>,
    r: nat, m: map<nat, nat>, protected1: map<nat, nat>)
    requires Conserved(roots, protected, others) && Positive(m) && Positive(protected1)
    requires forall y ::
      Count(protected1, y) == Count(protected, y) - (if r in roots && y in roots[r] then 1 else 0) + (if y in m then 1 else 0)
    ensures Conserved(roots[r := m], protected1, others)
  {
    hide Holders, Count, Positive;
    forall y
      ensures Count(protected1, y) == Count(others, y) + Holders(roots[r := m], y)
    {
      HoldersAfterUpdate(roots, r, m, y);
    }
  }

  lemma AddingConserves(roots: References, protected: map<nat, nat>, others: map<nat, nat>, r: nat, x: nat)
    requires Conserved(roots, protected, others) && r in roots
    ensures Conserved(roots[r := Add(roots[r], x)], if Count(roots[r], x) == 0 then Add(protected, x) else protected, others)
  {
    hide Holders, Add, Count, Positive;
    Counts(roots[r], x);
    Counts(protected, x);
    ChangeConserves(roots, protected, others, r, Add(roots[r], x), if Count(roots[r], x) == 0 then Add(protected, x) else protected);
  }

  lemma ProtectedByHolder(roots: References, protected: map<nat, nat>, others: map<nat, nat>, r: nat, x: nat)
    requires Conserved(roots, protected, others) && r in roots && x in roots[r]
    ensures Count(protected, x) > 0
  {
    assert r in Holding(roots, x);
  }

  lemma RemovingConserves(roots: References, protected: map<nat, nat>, others: map<nat, nat>, r: nat, x: nat)
    requires Conserved(roots, protected, others) && r in roots && x in roots[r]
    ensures Conserved(roots[r := Remove(roots[r], x)], if Count(roots[r], x) == 1 then Remove(protected, x) else protected, others)
  {
    hide Holders, Remove, Count, Positive;
    Counts(roots[r], x);
    Counts(protected, x);
    ProtectedByHolder(roots, protected, others, r, x);
    ChangeConserves(roots, protected, others, r, Remove(roots[r], x), if Count(roots[r], x) == 1 then Remove(protected, x) else protected);
  }

  datatype Root = NoRoot | RootObject(id: nat)

  class NativeRoots {
    var roots: References
    /** The collector's protection counts. */
    var protected: map<nat, nat>
    /** What everyone else has contributed to them. */
    ghost const others: map<nat, nat>

    ghost predicate Valid()
      reads this
    {
      Conserved(roots, protected, others)
    }

    constructor (protected: map<nat, nat>)
      requires Positive(protected)
      ensures Valid() && roots == map[] && this.protected == protected && others == protected
    {
      this.protected, roots := protected, map[];
      others := protected;
    }

    /** A root's set, made on first use. */
    method GetReferencesSet(r: nat) returns (m: map<nat, nat>)
      requires Valid()
      modifies `roots
      ensures Valid() && r in roots && roots[r] == m
      ensures roots == old(roots)[r := if r in old(roots) then old(roots)[r] else map[]]
    {
      hide Holders, Count;
      if r !in roots {
        ChangeConserves(roots, protected, others, r, map[], protected);
        roots := roots[r := map[]];
      }
      m := roots[r];
    }

    /** Some root's set with the object, if there is one. */
    method FindReferenceSet(x: nat) returns (root: Root)
      ensures root.NoRoot? ==> forall r :: r in roots ==> x !in roots[r]
      ensures root.RootObject? ==> root.id in roots && x in roots[root.id]
    {
      var rest := roots.Keys;
      while rest != {}
        invariant rest <= roots.Keys && forall r :: r in roots && r !in rest ==> x !in roots[r]
        decreases |rest|
      {
        var r :| r in rest;
        if x in roots[r] {
          return RootObject(r);
        }
        rest := rest - {r};
      }
      root := NoRoot;
    }

    /** One more reference from a root; the first one protects the object. */
    method AddNativeReference(root: Root, x: nat)
      requires Valid()
      modifies this
      ensures Valid()
      ensures roots == match root
        case NoRoot => old(roots)
        case RootObject(r) => old(roots)[r := Add(if r in old(roots) then old(roots)[r] else map[], x)]
    {
      hide Conserved, Add, Count;
      if root.RootObject? {
        var m := GetReferencesSet(root.id);
        AddingConserves(roots, protected, others, root.id, x);
        if Count(m, x) == 0 {
          protected := Add(protected, x);
        }
        roots := roots[root.id := Add(m, x)];
      }
    }

    /** One reference less, from whichever root is found to hold the object; its last one there unprotects it. */
    method RemoveNativeReference(x: nat)
      requires Valid()
      modifies this
      ensures Valid()
      ensures if forall r :: r in old(roots) ==> x !in old(roots)[r] then roots == old(roots) && protected == old(protected)
        else exists r :: r in old(roots) && x in old(roots)[r] && roots == old(roots)[r := Remove(old(roots)[r], x)]
    {
      hide Conserved, Remove, Count;
      var root := FindReferenceSet(x);
      if root.RootObject? {
        var m := roots[root.id];
        RemovingConserves(roots, protected, others, root.id, x);
        if Count(m, x) == 1 {
          protected := Remove(protected, x);
        }
        roots := roots[root.id := Remove(m, x)];
      }
    }

    /** One protection less for each object of a set. */
    method UnprotectAll(m: map<nat, nat>)
      requires Positive(protected) && forall x :: x in m ==> Count(protected, x) > 0
      modifies `protected
      ensures Positive(protected)
      ensures forall x :: Count(protected, x) == Count(old(protected), x) - if x in m then 1 else 0
    {
      hide Remove;
      var rest := m.Keys;
      while rest != {}
        invariant rest <= m.Keys && Positive(protected)
        invariant forall x :: Count(protected, x) == Count(old(protected), x) - if x in m && x !in rest then 1 else 0
        decreases |rest|
      {
        var x :| x in rest;
        Counts(protected, x);
        assert Count(protected, x) == Count(old(protected), x) > 0;
        protected := Remove(protected, x);
        rest := rest - {x};
      }
    }

    /** A root's end: each object it holds loses one protection, and the set is forgotten. */
    method Destroy(r: nat)
      requires Valid()
      modifies this
      ensures Valid() && roots == old(roots) - {r}
    {
      hide Holders, Count;
      var m := GetReferencesSet(r);
      ghost var roots1 := roots;
      forall x | x in m
        ensures Count(protected, x) > 0
      {
        ProtectedByHolder(roots, protected, others, r, x);
      }
      UnprotectAll(m);
      roots := roots - {r};
      forall x
        ensures Holders(roots, x) == Holders(roots1, x) - if x in m then 1 else 0
      {
        HoldersAfterRemoval(roots1, r, x);
      }
      assert roots == old(roots) - {r};
    }
  }

  /** Once no root is left, the protection counts are what everyone else has made them. */
  lemma NothingLeftProtected(n: NativeRoots)
    requires n.Valid() && n.roots == map[]
    ensures forall x :: Count(n.protected, x) == Count(n.others, x)
  {
    forall x
      ensures Holders(n.roots, x) == 0
    {
      assert Holding(n.roots, x) == {};
    }
  }
}
