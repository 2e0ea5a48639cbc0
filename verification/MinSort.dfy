/** The generic case of sort (array_object.cpp): selection sort over any object with indexed properties. */
module MinSort {
  import opened ArrayStorage

  /** The comparison of defined values: the comparator's result, or that of the strings, is negative. */
  type Before = (nat, nat) -> bool

  /** What a comparator must be for sorting to mean anything: a strict weak order. */
  ghost predicate Consistent(before: Before) {
    && (forall x :: !before(x, x))
    && (forall x, y, z :: before(x, y) && before(y, z) ==> before(x, z))
    && (forall x, y, z :: before(x, z) ==> before(x, y) || before(y, z))
  }

  /** x may stand in front of y: undefined goes last. */
  predicate InOrder(before: Before, x: Slot, y: Slot) {
    !y.Of? || (x.Of? && !before(y.v, x.v))
  }

  lemma OrderIsTransitive(before: Before, x: Slot, y: Slot, z: Slot)
    requires Consistent(before) && InOrder(before, x, y) && InOrder(before, y, z)
    ensures InOrder(before, x, z)
  {}

  lemma OrderIsTotal(before: Before, x: Slot, y: Slot)
    requires Consistent(before)
    ensures InOrder(before, x, y) || InOrder(before, y, x)
  {}

  ghost predicate Sorted(before: Before, v: seq<Slot>) {
    forall i, j :: 0 <= i < j < |v| ==> InOrder(before, v[i], v[j])
  }

  /** The first n elements are in their places. */
  ghost predicate Settled(before: Before, v: seq<Slot>, n: nat) {
    forall i, j :: 0 <= i < j < |v| && i < n ==> InOrder(before, v[i], v[j])
  }

  /** v[m] may stand in front of every element from i up to j. */
  ghost predicate Least(before: Before, v: seq<Slot>, m: nat, i: nat, j: nat) {
    m < |v| && j <= |v| && forall k :: i <= k < j ==> InOrder(before, v[m], v[k])
  }

  function Swapped(v: seq<Slot>, i: nat, m: nat): seq<Slot>
    requires i < |v| && m < |v|
  {
    v[i := v[m]][m := v[i]]
  }

  lemma SwapKeepsElements(v: seq<Slot>, i: nat, m: nat)
    requires i < |v| && m < |v|
    ensures multiset(Swapped(v, i, m)) == multiset(v)
  {}

  /** The least of the rest, put in front of it, is in its place. */
  lemma SwapSettles(before: Before, v: seq<Slot>, i: nat, m: nat)
    requires Consistent(before) && i <= m < |v| && Settled(before, v, i) && Least(before, v, m, i, |v|)
    ensures Settled(before, Swapped(v, i, m), i + 1)
  {}

  lemma SettledEnds(before: Before, v: seq<Slot>)
    requires |v| > 0
    ensures Settled(before, v, 0) && (Settled(before, v, |v| - 1) ==> Sorted(before, v))
  {}

  /** An object with properties under indices. */
  class IndexedObject {
    var properties: map<nat, Slot>

    function Get(i: nat): Slot
      reads this
    {
      if i in properties && properties[i].Of? then properties[i] else Undefined
    }

    /** What get returns for the first n indices. */
    ghost function Listing(n: nat): (v: seq<Slot>)
      reads this
      ensures |v| == n && forall i :: 0 <= i < n ==> v[i] == Get(i)
    {
      seq(n, i requires 0 <= i < n reads this => Get(i))
    }

    method Put(i: nat, s: Slot)
      modifies this
      ensures properties == old(properties)[i := s]
    {
      properties := properties[i := s];
    }

    /** The index of a least element from i on. */
    method FindMin(before: Before, i: nat, length: nat) returns (themin: nat)
      requires i < length
      ensures i <= themin < length
      ensures Consistent(before) ==> Least(before, Listing(length), themin, i, length)
    {
      ghost var v := Listing(length);
      themin := i;
      var minObj := Get(i);
      for j := i + 1 to length
        invariant i <= themin < j && minObj == v[themin]
        invariant Consistent(before) ==> Least(before, v, themin, i, j)
      {
        var jObj := Get(j);
        if jObj != Undefined && (minObj == Undefined || before(jObj.v, minObj.v)) {
          if Consistent(before) {
            NewLeast(before, v, themin, i, j);
          }
          themin, minObj := j, jObj;
        }
      }
    }

    /** Puts the elements at i and themin in each other's places. */
    method Swap(i: nat, themin: nat, ghost length: nat)
      requires i <= themin < length
      modifies this
      ensures Listing(length) == Swapped(old(Listing(length)), i, themin)
      ensures forall k :: k >= length ==> Get(k) == old(Get(k))
    {
      var iObj := Get(i);
      var minObj := Get(themin);
      if themin > i {
        Put(i, minObj);
        Put(themin, iObj);
      }
    }

    /** Selection sort: the same elements whatever the comparator does, and in order if it is consistent. */
    method Sort(before: Before, length: nat)
      modifies this
      ensures multiset(Listing(length)) == multiset(old(Listing(length)))
      ensures Consistent(before) ==> forall i, j :: 0 <= i < j < length ==>
        && !(Get(i) == Undefined && Get(j) != Undefined)
        && !(Get(i) != Undefined && Get(j) != Undefined && before(Get(j).v, Get(i).v))
      ensures forall k :: k >= length ==> Get(k) == old(Get(k))
    {
      hide Least, Consistent, Settled, Sorted, Swapped, Get;
      if length == 0 {
        return;
      }
      SettledEnds(before, Listing(length));
      for i := 0 to length - 1
        invariant multiset(Listing(length)) == multiset(old(Listing(length)))
        invariant Consistent(before) ==> Settled(before, Listing(length), i)
        invariant forall k :: k >= length ==> Get(k) == old(Get(k))
      {
        ghost var v := Listing(length);
        var themin := FindMin(before, i, length);
        Swap(i, themin, length);
        SwapKeepsElements(v, i, themin);
        if Consistent(before) {
          SwapSettles(before, v, i, themin);
        }
      }
      SettledEnds(before, Listing(length));
      SortedMeans(before, length);
    }

    lemma SortedMeans(before: Before, length: nat)
      ensures Sorted(before, Listing(length)) ==> forall i, j :: 0 <= i < j < length ==>
        && !(Get(i) == Undefined && Get(j) != Undefined)
        && !(Get(i) != Undefined && Get(j) != Undefined && before(Get(j).v, Get(i).v))
    {
      ghost var v := Listing(length);
      assert Sorted(before, v) ==> forall i, j :: 0 <= i < j < length ==> InOrder(before, v[i], v[j]);
    }
  }

  lemma NewLeast(before: Before, v: seq<Slot>, m: nat, i: nat, j: nat)
    requires Consistent(before) && Least(before, v, m, i, j) && j < |v| && !InOrder(before, v[m], v[j])
    ensures Least(before, v, j, i, j + 1)
  {
    forall k | i <= k < j + 1
      ensures InOrder(before, v[j], v[k])
    {
      OrderIsTotal(before, v[m], v[j]);
      OrderIsTotal(before, v[j], v[j]);
      if k < j {
        OrderIsTransitive(before, v[j], v[m], v[k]);
      }
    }
  }
}
