/** Arrays (array_object.cpp): dense slots for low indices, a property map for the rest, one index map between them. */
module ArrayStorage {
  import opened FiniteSets

  const SPARSE_ARRAY_CUTOFF: nat := 10_000
  const MAX_ARRAY_INDEX: nat := 0xffff_fffe

  /** A storage slot or property value: a null pointer, the undefined value, or another value. */
  datatype Slot = Null | Undefined | Of(v: nat)

  type ElementMap = map<nat, nat>

  /** The element at an index, if it is neither absent nor undefined. */
  function Lookup(m: ElementMap, i: nat): Slot {
    if i in m then Of(m[i]) else Null
  }

  /** Undefined values count as absent. */
  function Present(s: Slot): Slot {
    if s.Of? then s else Null
  }

  /** Setting an element to a slot; undefined and null count as absent. */
  function Set(m: ElementMap, i: nat, s: Slot): ElementMap {
    if s.Of? then m[i := s.v] else m - {i}
  }

  /** The one index map that length, storage and sparse properties stand for. */
  function ElementAt(length: nat, storage: seq<Slot>, sparse: map<nat, Slot>, i: nat): Slot {
    if i >= length then Null
    else if i < |storage| then storage[i]
    else if i in sparse then sparse[i]
    else Null
  }

  ghost function Contents(length: nat, storage: seq<Slot>, sparse: map<nat, Slot>): (m: ElementMap)
    ensures forall i: nat :: i in m <==> ElementAt(length, storage, sparse, i).Of?
    ensures forall i: nat :: i in m ==> m[i] == ElementAt(length, storage, sparse, i).v
  {
    map i: nat | i in sparse.Keys + Indices(|storage|) && ElementAt(length, storage, sparse, i).Of? :: ElementAt(length, storage, sparse, i).v
  }

  lemma SameElements(m: ElementMap, n: ElementMap)
    requires forall i :: Lookup(m, i) == Lookup(n, i)
    ensures m == n
  {
    forall i
      ensures i in m <==> i in n
      ensures i in m ==> m[i] == n[i]
    {
      assert Lookup(m, i) == Lookup(n, i);
    }
  }

  lemma LookupContents(length: nat, storage: seq<Slot>, sparse: map<nat, Slot>, i: nat)
    ensures Lookup(Contents(length, storage, sparse), i)
      == if ElementAt(length, storage, sparse, i).Of? then ElementAt(length, storage, sparse, i) else Null
  {}

  class ArrayInstance {
    var length: nat
    var storageLength: nat
    var capacity: nat
    var storage: array<Slot>
    /** The properties whose names are array indices. */
    var sparse: map<nat, Slot>

    ghost predicate Valid()
      reads this, storage
    {
      && storage.Length == capacity && storageLength <= capacity && storageLength <= length <= MAX_ARRAY_INDEX + 1
      && (forall i :: storageLength <= i < capacity ==> storage[i] == Null)
      && (forall k :: k in sparse ==> SPARSE_ARRAY_CUTOFF <= k && storageLength <= k <= MAX_ARRAY_INDEX && sparse[k] != Null)
    }

    /** No property is left at or past the length. */
    ghost predicate Tidy()
      reads this
    {
      forall k :: k in sparse ==> k < length
    }

    ghost function Elems(): ElementMap
      requires storageLength <= storage.Length
      reads this, storage
    {
      Contents(length, storage[..storageLength], sparse)
    }

    /** An empty array of a given length: slots up to the cut-off, none beyond. */
    constructor (initialLength: nat)
      requires initialLength <= MAX_ARRAY_INDEX + 1
      ensures Valid() && Tidy() && length == initialLength && Elems() == map[] && fresh(storage)
    {
      var n := if initialLength < SPARSE_ARRAY_CUTOFF then initialLength else 0;
      length, storageLength, capacity, sparse := initialLength, n, n, map[];
      storage := new Slot[n](_ => Null);
      new;
      SameElements(Elems(), map[]);
    }

    /** The own property at an index; an undefined slot counts as none, an undefined property of the map does not. */
    method GetProperty(index: nat) returns (s: Slot)
      requires storageLength <= storage.Length && index <= MAX_ARRAY_INDEX
      ensures Present(s) == Lookup(Elems(), index)
      ensures s == Undefined <==> storageLength <= index < length && index in sparse && sparse[index] == Undefined
    {
      LookupContents(length, storage[..storageLength], sparse, index);
      if index >= length {
        return Null;
      }
      if index < storageLength {
        s := storage[index];
        if s == Null || s == Undefined {
          return Null;
        }
        return;
      }
      s := if index in sparse then sparse[index] else Null;
    }

    /** Changes the number of slots in use; new and given-up ones are null. */
    method ResizeStorage(newLength: nat)
      requires storage.Length == capacity && storageLength <= capacity
      requires forall i :: storageLength <= i < capacity ==> storage[i] == Null
      modifies `storage, `storageLength, `capacity, storage
      ensures storage.Length == capacity && storageLength == newLength <= capacity
      ensures forall i :: 0 <= i < capacity ==> storage[i] == if i < old(storageLength) && i < newLength then old(storage[i]) else Null
      ensures if newLength <= old(capacity) then storage == old(storage) && capacity == old(capacity) else fresh(storage)
      ensures newLength > old(capacity) ==> capacity == if newLength > SPARSE_ARRAY_CUTOFF then newLength
        else if (newLength * 3 + 1) / 2 > SPARSE_ARRAY_CUTOFF then SPARSE_ARRAY_CUTOFF else (newLength * 3 + 1) / 2
    {
      if newLength < storageLength {
        forall i | newLength <= i < storageLength {
          storage[i] := Null;
        }
      }
      if newLength > capacity {
        var newCapacity := newLength;
        if newLength <= SPARSE_ARRAY_CUTOFF {
          newCapacity := (newLength * 3 + 1) / 2;
          if newCapacity > SPARSE_ARRAY_CUTOFF {
            newCapacity := SPARSE_ARRAY_CUTOFF;
          }
        }
        var moved := new Slot[newCapacity](_ => Null);
        forall i | 0 <= i < capacity {
          moved[i] := storage[i];
        }
        storage := moved;
        capacity := newCapacity;
      }
      storageLength := newLength;
    }

    /** Makes the index part of the array, with a slot if it is below the cut-off. */
    method Reach(index: nat)
      requires Valid() && index <= MAX_ARRAY_INDEX
      modifies `length, `storageLength, `capacity, `storage, storage
      ensures Valid() && (old(Tidy()) ==> Tidy()) && (storage == old(storage) || fresh(storage))
      ensures length == if index >= old(length) then index + 1 else old(length)
      ensures index < storageLength || SPARSE_ARRAY_CUTOFF <= index
      ensures Elems() == Contents(length, old(storage[..storageLength]), sparse)
    {
      hide Contents;
      ghost var s0 := storage[..storageLength];
      if index < SPARSE_ARRAY_CUTOFF && index >= storageLength {
        ResizeStorage(index + 1);
      }
      if index >= length {
        length := index + 1;
      }
      GrownElements(s0, sparse, length, storage[..storageLength]);
    }

    /**
     * Sets an element; past the end the array grows. Nothing else changes, unless a property that was left past
     * the old end comes back.
     */
    method Put(index: nat, value: Slot)
      requires Valid() && index <= MAX_ARRAY_INDEX && value != Null
      modifies this, storage
      ensures Valid() && (old(Tidy()) ==> Tidy()) && (storage == old(storage) || fresh(storage))
      ensures length == if index >= old(length) then index + 1 else old(length)
      ensures Elems() == Set(old(Elems()), index, value)
        <==> forall k :: k in old(sparse) && old(length) <= k < index ==> !old(sparse)[k].Of?
      ensures Elems() == Set(Contents(length, old(storage[..storageLength]), old(sparse)), index, value)
      ensures forall k :: k in sparse ==> k in old(sparse) || k == index
    {
      hide Contents, Set;
      ghost var l0, s00 := length, storage[..storageLength];
      Reach(index);
      ghost var s0, p0 := storage[..storageLength], sparse;
      if index < storageLength {
        storage[index] := value;
      } else {
        sparse := sparse[index := value];
      }
      PutElement(length, s0, p0, storage[..storageLength], sparse, index, value);
      PutRevives(l0, s00, p0, length, index, value);
    }

    /** Removes an element. */
    method DeleteProperty(index: nat)
      requires Valid() && index <= MAX_ARRAY_INDEX
      modifies this, storage
      ensures Valid() && storage == old(storage) && length == old(length) && (old(Tidy()) ==> Tidy())
      ensures Elems() == old(Elems()) - {index}
      ensures forall k :: k in sparse ==> k in old(sparse) && (index < length ==> k != index)
    {
      hide Contents, Set, Lookup, ElementAt;
      ghost var l0, s0, p0 := length, storage[..storageLength], sparse;
      if index < length {
        if index < storageLength {
          storage[index] := Null;
        } else {
          sparse := sparse - {index};
        }
      }
      DeleteElement(l0, s0, p0, storage[..storageLength], sparse, index);
    }
  
    // Changing the length.

    /** The property names that are array indices, in the property map's order. */
    ghost predicate Enumerates(names: seq<nat>)
      reads `sparse
    {
      NoDuplicates(names) && forall k :: k in names <==> k in sparse
    }

    /** The names, in whatever order the property map yields them (getSparseArrayPropertyNames). */
    method SparseNames() returns (names: seq<nat>)
      ensures Enumerates(names)
    {
      names := [];
      var rest := sparse.Keys;
      while rest != {}
        invariant NoDuplicates(names) && (forall k :: k in names ==> k in sparse && k !in rest)
        invariant forall k :: k in sparse ==> k in names || k in rest
        invariant rest <= sparse.Keys
        decreases |rest|
      {
        var k :| k in rest;
        names, rest := names + [k], rest - {k};
      }
    }

    /** Gives up the slots past the new length. */
    method GiveUpSlots(newLength: nat)
      requires Valid()
      modifies `storageLength, `capacity, `storage, storage
      ensures storage == old(storage) && capacity == old(capacity)
      ensures storageLength == if newLength <= old(storageLength) then newLength else old(storageLength)
      ensures storage[..storageLength] == old(storage[..storageLength])[..storageLength]
      ensures forall i :: storageLength <= i < capacity ==> storage[i] == Null
    {
      if newLength <= storageLength {
        ResizeStorage(newLength);
      }
    }

    /** Sets the length; the test that removes properties spares the one at exactly the new length. */
    method SetLength(newLength: nat)
      requires Valid() && newLength <= MAX_ARRAY_INDEX + 1
      modifies `length, `storageLength, `capacity, `storage, `sparse, storage
      ensures Valid() && length == newLength && storage == old(storage)
      ensures old(Tidy()) ==> Elems() == Truncated(old(Elems()), newLength)
      ensures old(Tidy()) ==> (Tidy() <==> !(newLength < old(length) && newLength in old(sparse)))
      ensures newLength >= old(length) ==>
        sparse == old(sparse) && storage[..storageLength] == old(storage[..storageLength])
      ensures forall k :: k in sparse <==> k in old(sparse) && (k <= newLength || k >= old(length))
      ensures forall k :: k in sparse ==> sparse[k] == old(sparse)[k]
    {
      hide Contents, Truncated, ElementAt, Lookup;
      ghost var l0, s0, p0 := length, storage[..storageLength], sparse;
      GiveUpSlots(newLength);
      if newLength < length {
        var names := SparseNames();
        DropSparse(newLength, names);
      }
      length := newLength;
      if old(Tidy()) {
        TruncatedElements(l0, s0, p0, length, storage[..storageLength], sparse);
        LeftBehind(l0, p0, length, sparse);
      }
    }

    /** Deletes the properties past an index; as ever, only below the length. */
    method DropSparse(newLength: nat, names: seq<nat>)
      requires Enumerates(names) && (forall k :: k in sparse ==> storageLength <= k) && newLength < length
      modifies `sparse
      ensures forall k :: k in sparse <==> k in old(sparse) && (k <= newLength || k >= length)
      ensures forall k :: k in sparse ==> sparse[k] == old(sparse)[k]
    {
      for j := 0 to |names|
        invariant forall k :: k in sparse <==> k in old(sparse) && (k <= newLength || k >= length || k !in names[..j])
        invariant forall k :: k in sparse ==> sparse[k] == old(sparse)[k]
      {
        var index := names[j];
        if index > newLength && index < length {
          sparse := sparse - {index};
        }
        assert names[..j + 1] == names[..j] + [index];
      }
      assert names[..|names|] == names;
    }

    /** Shrinking to n and growing again keeps just the first n elements, unless a property at exactly n comes back. */
    method ShrinkThenGrow(n: nat, m: nat)
      requires Valid() && Tidy() && n < length && n < m <= MAX_ARRAY_INDEX + 1
      modifies this, storage
      ensures Valid() && length == m
      ensures Elems() == Truncated(old(Elems()), n) <==> !(n in old(sparse) && old(sparse)[n].Of?)
    {
      hide Contents, Truncated;
      SetLength(n);
      ghost var s, p := storage[..storageLength], sparse;
      GrowthRevives(n, s, p, m);
      SetLength(m);
    }
  
    // Packing, the first half of sort.

    /** Moves the defined slots to the front, in order. */
    method PackSlots() returns (o: nat)
      requires storageLength <= storage.Length
      modifies storage
      ensures o == |Defined(old(storage[..storageLength]))| <= storageLength
      ensures storage[..o] == Defined(old(storage[..storageLength]))
      ensures forall i :: o <= i < storage.Length ==> storage[i] == old(storage[i])
    {
      ghost var s0 := storage[..storageLength];
      o := 0;
      for i := 0 to storageLength
        invariant o <= i && storage[..o] == Defined(s0[..i])
        invariant forall j :: o <= j < storage.Length ==> storage[j] == old(storage[j])
      {
        var v := storage[i];
        assert s0[..i + 1][..i] == s0[..i] && v == s0[i];
        if v != Null && v != Undefined {
          if o != i {
            storage[o] := v;
          }
          o := o + 1;
        }
      }
      assert s0[..storageLength] == s0;
    }

    /** Appends the values read under the property names and deletes the properties. */
    method PackSparse(o0: nat, names: seq<nat>) returns (o: nat)
      requires storage.Length == capacity && storageLength <= capacity && o0 + |names| <= storageLength
      requires Enumerates(names) && forall k :: k in sparse ==> k <= MAX_ARRAY_INDEX
      modifies `sparse, storage
      ensures o == o0 + |names| && sparse == map[]
      ensures storage[..storageLength] == Packed(length, old(storage[..storageLength]), old(sparse), names, o0)
      ensures forall i :: storageLength <= i < storage.Length ==> storage[i] == old(storage[i])
    {
      hide Contents, Packed, Read, ElementAt, Lookup;
      ghost var s1, p0 := storage[..storageLength], sparse;
      o := o0;
      assert Packed(length, s1, p0, names[..0], o0) == s1 by { PackedNothing(length, s1, p0, names[..0], o0); }
      for j := 0 to |names|
        invariant o == o0 + j
        invariant forall k :: k in sparse <==> k in p0 && k !in names[..j]
        invariant forall k :: k in sparse ==> sparse[k] == p0[k]
        invariant storage[..storageLength] == Packed(length, s1, p0, names[..j], o0)
        invariant forall i :: storageLength <= i < storage.Length ==> storage[i] == old(storage[i])
      {
        var name := names[j];
        assert name in names;
        ghost var t := storage[..storageLength];
        var v := GetProperty(name);
        v := if v == Null then Undefined else v;
        ReadIsGet(length, t, sparse, p0, name);
        PackedStep(length, s1, p0, names, j, o0);
        storage[o] := v;
        assert storage[..storageLength] == t[o := v];
        sparse := sparse - {name};
        o := o + 1;
        OneMoreName(names, j);
      }
      assert names[..|names|] == names;
    }
  
    /** Null from one slot on. */
    method ClearFrom(o: nat)
      requires o <= storageLength <= storage.Length
      modifies storage
      ensures forall i :: 0 <= i < storage.Length ==> storage[i] == if o <= i < storageLength then Null else old(storage[i])
    {
      forall i | o <= i < storageLength {
        storage[i] := Null;
      }
    }

    /** More slots, if there are fewer than needed. */
    method MakeRoom(newLength: nat, ghost s0: seq<Slot>, ghost o: nat)
      requires storage.Length == capacity && storageLength <= capacity && |s0| == storageLength && o <= storageLength
      requires forall i :: storageLength <= i < capacity ==> storage[i] == Null
      requires storage[..o] == Defined(s0) && forall i :: o <= i < storageLength ==> storage[i] == s0[i]
      modifies `storage, `storageLength, `capacity, storage
      ensures storage.Length == capacity && storageLength <= capacity && (storage == old(storage) || fresh(storage))
      ensures storageLength == if newLength > old(storageLength) then newLength else old(storageLength)
      ensures forall i :: storageLength <= i < capacity ==> storage[i] == Null
      ensures var s1 := storage[..storageLength];
        s1[..o] == Defined(s0) && forall i :: o <= i < |s1| ==> s1[i] == if i < |s0| then s0[i] else Null
    {
      hide Defined;
      ghost var d := storage[..o];
      if newLength > storageLength {
        ResizeStorage(newLength);
      }
      assert storage[..storageLength][..o] == d;
    }

    /**
     * Packs the defined elements at the front and returns their number. When the slots have to grow over a
     * property that is still to be read, its value is lost; when properties were left past the end, the slots can
     * outgrow the length.
     */
    method PushUndefinedObjectsToEnd() returns (o: nat, ghost names: seq<nat>)
      requires Valid()
      modifies `storageLength, `capacity, `storage, `sparse, storage
      ensures (Valid() <==> storageLength <= length) && (old(Tidy()) ==> Valid() && Tidy())
      ensures sparse == map[] && storageLength <= storage.Length && (storage == old(storage) || fresh(storage))
      ensures NoDuplicates(names) && (forall k :: k in names <==> k in old(sparse))
      ensures o == |Defined(old(storage[..storageLength]))| + |names|
      ensures storage[..storageLength] == PackedSlots(length, old(storage[..storageLength]), old(sparse), names)
    {
      hide Contents, Packed, Defined, PackedSlots, NoDuplicates;
      ghost var s0, p0 := storage[..storageLength], sparse;
      o := PackSlots();
      var sparseProperties := SparseNames();
      names := sparseProperties;
      var newLength := o + |sparseProperties|;
      if Tidy() {
        RoomFor(s0, p0, names, length);
      }
      MakeRoom(newLength, s0, o);
      ghost var s1 := storage[..storageLength];
      o := PackSparse(o, sparseProperties);
      ghost var t := storage[..storageLength];
      if newLength != storageLength {
        ClearFrom(o);
      }
      ResultIsPacked(length, s0, p0, names, s1, t, storage[..storageLength]);
    }
  }

  /** Null slots. */
  function Nulls(n: nat): seq<Slot> {
    seq(n, _ => Null)
  }

  /** The slots after packing: the defined ones, the values read under the names, and nothing. */
  function PackedSlots(length: nat, s0: seq<Slot>, p0: map<nat, Slot>, names: seq<nat>): (s: seq<Slot>)
    ensures |s| == if |Defined(s0)| + |names| > |s0| then |Defined(s0)| + |names| else |s0|
  {
    DefinedIsShort(s0);
    var o, n := |Defined(s0)|, |Defined(s0)| + |names|;
    var s1 := Defined(s0) + s0[o..] + Nulls(if n > |s0| then n - |s0| else 0);
    Packed(length, s1, p0, names, o)[..n] + Nulls(|s1| - n)
  }

  lemma DefinedIsShort(s: seq<Slot>)
    ensures |Defined(s)| <= |s|
  {
    TallyDefined(s, 0);
  }

  /** From the slots before reading the properties (s1) over those after (t) to the cleared result (s). */
  lemma ResultIsPacked(length: nat, s0: seq<Slot>, p0: map<nat, Slot>, names: seq<nat>, s1: seq<Slot>, t: seq<Slot>, s: seq<Slot>)
    requires var o := |Defined(s0)|;
      && o <= |s0| && |s1| == (if o + |names| > |s0| then o + |names| else |s0|)
      && s1[..o] == Defined(s0) && (forall i :: o <= i < |s1| ==> s1[i] == if i < |s0| then s0[i] else Null)
      && t == Packed(length, s1, p0, names, o) && |s| == |t|
      && (forall i :: 0 <= i < |s| ==> s[i] == if i < o + |names| then t[i] else Null)
    ensures s == PackedSlots(length, s0, p0, names)
  {
    hide Packed, Defined;
    var o, n := |Defined(s0)|, |Defined(s0)| + |names|;
    var r := Defined(s0) + s0[o..] + Nulls(if n > |s0| then n - |s0| else 0);
    assert s1 == s1[..o] + s1[o..];
    assert s1 == r;
    assert s == t[..n] + Nulls(|s1| - n);
  }

  /** What packing s0 and the properties p0 into s establishes. */
  ghost predicate PackedElements(length: nat, s0: seq<Slot>, p0: map<nat, Slot>, names: seq<nat>, s: seq<Slot>, o: nat) {
    && |Defined(s0)| + |names| == o <= |s| && (forall i :: o <= i < |s| ==> s[i] == Null)
    && (Faithful(|s0|, p0, o) ==> s[..o] == Defined(s0) + Gathered(length, p0, names))
    && (forall x: nat :: Lost(s0, p0, o, x) ==> Of(x) !in s)
  }

  /** The slots have to grow past every property that has the value x, which no slot has. */
  ghost predicate Lost(s0: seq<Slot>, p0: map<nat, Slot>, newLength: nat, x: nat) {
    Of(x) !in s0 && |s0| < newLength && forall k :: k in p0 && p0[k] == Of(x) ==> k < newLength
  }

  /** There are no more elements than the length says. */
  lemma RoomFor(s: seq<Slot>, p: map<nat, Slot>, names: seq<nat>, length: nat)
    requires |s| <= length && NoDuplicates(names) && (forall k :: k in names <==> k in p) && forall k :: k in p ==> |s| <= k < length
    ensures |Defined(s)| <= |s| && |Defined(s)| + |names| <= length
    ensures forall j :: 0 <= j < |names| ==> names[j] in p && |s| <= names[j] < length
  {
    hide Indices, Elements, Defined;
    forall j | 0 <= j < |names|
      ensures names[j] in p
    {
      assert names[j] in names;
    }
    TallyDefined(s, 0);
    var a, b := Indices(|s|), Elements(names);
    assert a !! b;
    assert |a + b| == |a| + |b|;
    SubsetSize(a + b, Indices(length));
  }

  lemma {:induction false} DefinedAreSlots(s: seq<Slot>)
    ensures forall i :: 0 <= i < |Defined(s)| ==> Defined(s)[i].Of? && Defined(s)[i] in s
  {
    if s != [] {
      var n := |s| - 1;
      DefinedAreSlots(s[..n]);
      forall i | 0 <= i < |Defined(s[..n])|
        ensures Defined(s[..n])[i] in s
      {
        assert Defined(s[..n])[i] in s[..n];
      }
    }
  }

  lemma {:induction false} GatheredAt(length: nat, p: map<nat, Slot>, names: seq<nat>)
    ensures |Gathered(length, p, names)| == |names|
    ensures forall j :: 0 <= j < |names| ==> Gathered(length, p, names)[j] == Read(length, [], p, names[j])
  {
    if names != [] {
      GatheredAt(length, p, names[..|names| - 1]);
    }
  }

  /** The packed slots, where no property is in the way, and what they cannot hold where one is. */
  lemma PackingKeeps(length: nat, s0: seq<Slot>, p0: map<nat, Slot>, names: seq<nat>)
    requires forall k :: k in p0 ==> |s0| <= k
    requires forall j :: 0 <= j < |names| ==> names[j] in p0
    ensures PackedElements(length, s0, p0, names, PackedSlots(length, s0, p0, names), |Defined(s0)| + |names|)
  {
    hide Packed, Defined, Gathered, Read;
    DefinedIsShort(s0);
    var o, n := |Defined(s0)|, |Defined(s0)| + |names|;
    var s1 := Defined(s0) + s0[o..] + Nulls(if n > |s0| then n - |s0| else 0);
    var t, s := Packed(length, s1, p0, names, o), PackedSlots(length, s0, p0, names);
    assert s == t[..n] + Nulls(|s1| - n);
    if Faithful(|s0|, p0, n) {
      PackedFront(length, s1, p0, names, o);
      assert s[..n] == t[..n] && s1[..o] == Defined(s0);
    }
    forall x: nat | Lost(s0, p0, n, x)
      ensures Of(x) !in s
    {
      DefinedAreSlots(s0);
      NotAmong(s1, s0, o, x);
      CoveredIsLost(length, s1, p0, names, o, x);
    }
  }

  lemma NotAmong(s1: seq<Slot>, s0: seq<Slot>, o: nat, x: nat)
    requires o <= |s0| <= |s1| && Of(x) !in s0
    requires forall i :: 0 <= i < o ==> s1[i] in s0
    requires forall i :: o <= i < |s1| ==> s1[i] == if i < |s0| then s0[i] else Null
    ensures Of(x) !in s1
  {}

  /** Names past the slots are read as the properties' own values, one after the other. */
  lemma PackedFront(length: nat, s: seq<Slot>, p: map<nat, Slot>, names: seq<nat>, o: nat)
    requires o + |names| <= |s| && forall j :: 0 <= j < |names| ==> |s| <= names[j]
    ensures Packed(length, s, p, names, o)[..o + |names|] == s[..o] + Gathered(length, p, names)
  {
    hide Read;
    var t := Packed(length, s, p, names, o);
    PackedFaithfully(length, s, p, names, o);
    GatheredAt(length, p, names);
    forall i | 0 <= i < o + |names|
      ensures t[i] == (s[..o] + Gathered(length, p, names))[i]
    {
      if i >= o {
        assert t[o + (i - o)] == Gathered(length, p, names)[i - o];
      }
    }
  }

  /** Packing keeps every value as often as it was, if the slots meet no property and do not outgrow the length. */
  lemma PackingKeepsOccurrences(length: nat, s0: seq<Slot>, p0: map<nat, Slot>, names: seq<nat>, s: seq<Slot>, o: nat, v: nat)
    requires |s0| <= length && |s| <= length && NoDuplicates(names) && (forall k :: k in names <==> k in p0)
    requires forall k :: k in p0 ==> |s0| <= k
    requires PackedElements(length, s0, p0, names, s, o) && Faithful(|s0|, p0, o)
    ensures Occurrences(Contents(length, s, map[]), v) == Occurrences(Contents(length, s0, p0), v)
  {
    hide Contents, Occurrences, Tally, Defined, Gathered;
    OccurrencesInParts(length, s0, p0, names, v);
    OccurrencesInParts(length, s, map[], [], v);
    TallyDefined(s0, v);
    TallyConcat(Defined(s0), Gathered(length, p0, names), v);
    assert s == s[..o] + s[o..];
    TallyConcat(s[..o], s[o..], v);
    TallyNulls(s[o..], v);
    NothingGathered(length, v);
  }

  lemma NothingGathered(length: nat, v: nat)
    ensures Tally(Gathered(length, map[], []), v) == 0
  {}

  /** It loses a value that no slot has and whose properties the slots grow over. */
  lemma PackingLoses(length: nat, s0: seq<Slot>, p0: map<nat, Slot>, names: seq<nat>, s: seq<Slot>, o: nat, v: nat)
    requires PackedElements(length, s0, p0, names, s, o) && Lost(s0, p0, o, v)
    ensures Occurrences(Contents(length, s, map[]), v) == 0
  {
    hide Contents;
    var m := Contents(length, s, map[]);
    forall i: nat | i in m
      ensures m[i] != v
    {
      LookupContents(length, s, map[], i);
      assert i < |s| && s[i] in s;
    }
    assert (set i | i in m && m[i] == v) == {};
  }

  /** Packing keeps every value as often as it was. */
  ghost predicate KeepsAll(length: nat, s0: seq<Slot>, p0: map<nat, Slot>, names: seq<nat>) {
    forall v: nat :: Occurrences(Contents(length, PackedSlots(length, s0, p0, names), map[]), v) == Occurrences(Contents(length, s0, p0), v)
  }

  /** n slots, m of them defined, and properties under just these names. */
  ghost predicate OfShape(s0: seq<Slot>, p0: map<nat, Slot>, n: nat, m: nat, names: seq<nat>) {
    |s0| == n && |Defined(s0)| == m && (forall k :: k in names <==> k in p0) && forall k :: k in p0 ==> p0[k] != Null
  }

  /** No name lies where n slots grow to when m defined ones and all the properties are packed. */
  predicate OutOfTheWay(n: nat, m: nat, names: seq<nat>) {
    m + |names| > n ==> forall j :: 0 <= j < |names| ==> m + |names| <= names[j]
  }

  /**
   * Exactly when packing is safe: an array of a given shape keeps all its values, whatever they are, if and only if the
   * slots do not grow over a property.
   */
  lemma PackingIsSafeIff(length: nat, n: nat, m: nat, names: seq<nat>)
    requires m <= n <= length && NoDuplicates(names) && forall k :: k in names ==> n <= k < length
    ensures (forall s0, p0 :: OfShape(s0, p0, n, m, names) ==> KeepsAll(length, s0, p0, names)) <==> OutOfTheWay(n, m, names)
  {
    hide KeepsAll, OfShape;
    if OutOfTheWay(n, m, names) {
      forall s0, p0 | OfShape(s0, p0, n, m, names)
        ensures KeepsAll(length, s0, p0, names)
      {
        SafeShape(length, s0, p0, n, m, names);
      }
    } else {
      var j :| 0 <= j < |names| && names[j] < m + |names|;
      var s0, p0 := UnsafeArray(length, n, m, names, j);
    }
  }

  lemma SafeShape(length: nat, s0: seq<Slot>, p0: map<nat, Slot>, n: nat, m: nat, names: seq<nat>)
    requires OfShape(s0, p0, n, m, names) && OutOfTheWay(n, m, names)
    requires n <= length && NoDuplicates(names) && forall k :: k in names ==> n <= k < length
    ensures KeepsAll(length, s0, p0, names)
  {
    hide Contents, Occurrences, PackedElements, PackedSlots, Defined;
    RoomFor(s0, p0, names, length);
    PackingKeeps(length, s0, p0, names);
    forall k | k in p0 && m + |names| > n
      ensures m + |names| <= k
    {
      assert k in names;
    }
    forall v: nat
      ensures Occurrences(Contents(length, PackedSlots(length, s0, p0, names), map[]), v) == Occurrences(Contents(length, s0, p0), v)
    {
      PackingKeepsOccurrences(length, s0, p0, names, PackedSlots(length, s0, p0, names), m + |names|, v);
    }
  }

  /** A property that the slots grow over loses its value if it is the only element that has it. */
  lemma OvergrownIsLost(length: nat, s0: seq<Slot>, p0: map<nat, Slot>, names: seq<nat>, k: nat)
    requires |s0| <= length && (forall i :: i in names <==> i in p0) && forall i :: i in p0 ==> |s0| <= i
    requires k in p0 && k < length && p0[k].Of? && p0[k] !in s0 && forall i :: i in p0 && p0[i] == p0[k] ==> i == k
    requires k < |Defined(s0)| + |names|
    ensures Occurrences(Contents(length, s0, p0), p0[k].v) > 0
    ensures Occurrences(Contents(length, PackedSlots(length, s0, p0, names), map[]), p0[k].v) == 0
    ensures !KeepsAll(length, s0, p0, names)
  {
    hide Contents, Occurrences, PackedElements, PackedSlots, Defined;
    forall j | 0 <= j < |names|
      ensures names[j] in p0
    {
      assert names[j] in names;
    }
    PackingKeeps(length, s0, p0, names);
    PackingLoses(length, s0, p0, names, PackedSlots(length, s0, p0, names), |Defined(s0)| + |names|, p0[k].v);
    OccursSomewhere(length, s0, p0, k);
  }

  /** Of a shape that is not safe, an array that loses a value. */
  lemma UnsafeArray(length: nat, n: nat, m: nat, names: seq<nat>, j: nat) returns (s0: seq<Slot>, p0: map<nat, Slot>)
    requires m <= n <= length && (forall k :: k in names ==> n <= k < length) && j < |names| && names[j] < m + |names|
    ensures OfShape(s0, p0, n, m, names) && !KeepsAll(length, s0, p0, names)
  {
    hide KeepsAll, Defined;
    s0 := seq(n, i requires 0 <= i < n => if i < m then Of(0) else Null);
    p0 := map k | k in names :: Of(k + 1);
    FirstDefined(s0, m);
    assert names[j] in names && names[j] in p0;
    OvergrownIsLost(length, s0, p0, names, names[j]);
  }

  lemma {:induction false} FirstDefined(s: seq<Slot>, m: nat)
    requires m <= |s| && forall i :: 0 <= i < |s| ==> (s[i].Of? <==> i < m)
    ensures |Defined(s)| == m
  {
    if s != [] {
      FirstDefined(s[..|s| - 1], if m == |s| then m - 1 else m);
    }
  }

  /** The smallest such array: all slots up to the cut-off in use, and one element more. */
  lemma OneElementTooMany(s0: seq<Slot>, x: nat)
    requires |s0| == SPARSE_ARRAY_CUTOFF && (forall i :: 0 <= i < |s0| ==> s0[i].Of?) && Of(x) !in s0
    ensures !KeepsAll(SPARSE_ARRAY_CUTOFF + 1, s0, map[SPARSE_ARRAY_CUTOFF := Of(x)], [SPARSE_ARRAY_CUTOFF])
  {
    hide KeepsAll, Defined;
    FirstDefined(s0, SPARSE_ARRAY_CUTOFF);
    OvergrownIsLost(SPARSE_ARRAY_CUTOFF + 1, s0, map[SPARSE_ARRAY_CUTOFF := Of(x)], [SPARSE_ARRAY_CUTOFF], SPARSE_ARRAY_CUTOFF);
  }

  lemma OccursSomewhere(length: nat, s: seq<Slot>, p: map<nat, Slot>, k: nat)
    requires k in p && |s| <= k < length && p[k].Of?
    ensures Occurrences(Contents(length, s, p), p[k].v) > 0
  {
    hide Contents;
    var m := Contents(length, s, p);
    LookupContents(length, s, p, k);
    var found := set i | i in m && m[i] == p[k].v;
    assert k in found;
    SubsetSize({k}, found);
  }

  lemma OneMoreName(names: seq<nat>, j: nat)
    requires j < |names|
    ensures names[..j + 1] == names[..j] + [names[j]] && names[..j + 1][..j] == names[..j]
  {}

  /** What get returns for an index. */
  function Read(length: nat, s: seq<Slot>, p: map<nat, Slot>, i: nat): Slot {
    if ElementAt(length, s, p, i).Of? then ElementAt(length, s, p, i) else Undefined
  }

  /** Slots s with the values read under the names put in from o on, each read seeing what was put in before. */
  function Packed(length: nat, s: seq<Slot>, p: map<nat, Slot>, names: seq<nat>, o: nat): (t: seq<Slot>)
    requires o + |names| <= |s|
    ensures |t| == |s|
  {
    var n := |names|;
    if n == 0 then s
    else var t := Packed(length, s, p, names[..n - 1], o); t[o + n - 1 := Read(length, t, p, names[n - 1])]
  }

  lemma PackedNothing(length: nat, s: seq<Slot>, p: map<nat, Slot>, names: seq<nat>, o: nat)
    requires o <= |s| && names == []
    ensures Packed(length, s, p, names, o) == s
  {}

  lemma PackedStep(length: nat, s: seq<Slot>, p: map<nat, Slot>, names: seq<nat>, j: nat, o: nat)
    requires o + |names| <= |s| && j < |names|
    ensures var t := Packed(length, s, p, names[..j], o);
      Packed(length, s, p, names[..j + 1], o) == t[o + j := Read(length, t, p, names[j])]
  {
    OneMoreName(names, j);
  }

  /** Properties already packed do not matter to reading another one. */
  lemma ReadIsGet(length: nat, s: seq<Slot>, q: map<nat, Slot>, p: map<nat, Slot>, i: nat)
    requires i in q && i in p && q[i] == p[i]
    ensures var c := Lookup(Contents(length, s, q), i); (if c == Null then Undefined else c) == Read(length, s, p, i)
  {
    hide Contents;
    LookupContents(length, s, q, i);
  }

  /** Names past the slots are read as the properties' own values. */
  lemma {:induction false} PackedFaithfully(length: nat, s: seq<Slot>, p: map<nat, Slot>, names: seq<nat>, o: nat)
    requires o + |names| <= |s| && forall j :: 0 <= j < |names| ==> |s| <= names[j]
    ensures var t := Packed(length, s, p, names, o);
      && (forall i :: 0 <= i < |s| && !(o <= i < o + |names|) ==> t[i] == s[i])
      && (forall j :: 0 <= j < |names| ==> t[o + j] == Read(length, [], p, names[j]))
  {
    if names != [] {
      PackedFaithfully(length, s, p, names[..|names| - 1], o);
    }
  }

  /** x is the value of properties only, and only of those whose index the slots s have come to cover. */
  ghost predicate Covered(p: map<nat, Slot>, s: seq<Slot>, x: nat) {
    Of(x) !in s && forall k :: k in p && p[k] == Of(x) ==> k < |s|
  }

  /** Such a value is never read, so it is lost. */
  lemma {:induction false} CoveredIsLost(length: nat, s: seq<Slot>, p: map<nat, Slot>, names: seq<nat>, o: nat, x: nat)
    requires o + |names| <= |s| && Covered(p, s, x)
    ensures Of(x) !in Packed(length, s, p, names, o)
  {
    if names != [] {
      CoveredIsLost(length, s, p, names[..|names| - 1], o, x);
    }
  }

  /** The defined slots, in order. */
  function Defined(s: seq<Slot>): seq<Slot> {
    if s == [] then [] else Defined(s[..|s| - 1]) + if s[|s| - 1].Of? then [s[|s| - 1]] else []
  }

  /** They keep their order. */
  lemma {:induction false} DefinedConcat(s: seq<Slot>, t: seq<Slot>)
    ensures Defined(s + t) == Defined(s) + Defined(t)
    ensures forall x: Slot :: Defined([x]) == if x == Null || x == Undefined then [] else [x]
  {
    forall x: Slot
      ensures Defined([x]) == if x == Null || x == Undefined then [] else [x]
    {
      assert [x][..0] == [];
    }
    if t == [] {
      assert s + t == s;
    } else {
      var n := |t| - 1;
      DefinedConcat(s, t[..n]);
      assert (s + t)[..|s + t| - 1] == s + t[..n];
    }
  }

  /** No property lies where the slots grow to. */
  predicate Faithful(storageLength: nat, sparse: map<nat, Slot>, newLength: nat) {
    newLength > storageLength ==> forall k :: k in sparse ==> newLength <= k
  }

  /** What is read under the names, in their order, past all slots. */
  function Gathered(length: nat, p: map<nat, Slot>, names: seq<nat>): seq<Slot> {
    if names == [] then [] else Gathered(length, p, names[..|names| - 1]) + [Read(length, [], p, names[|names| - 1])]
  }

  // Counting elements.

  function Tally(s: seq<Slot>, v: nat): nat {
    if s == [] then 0 else Tally(s[..|s| - 1], v) + if s[|s| - 1] == Of(v) then 1 else 0
  }

  lemma {:induction false} TallyConcat(s: seq<Slot>, t: seq<Slot>, v: nat)
    ensures Tally(s + t, v) == Tally(s, v) + Tally(t, v)
  {
    if t == [] {
      assert s + t == s;
    } else {
      var n := |t| - 1;
      TallyConcat(s, t[..n], v);
      assert (s + t)[..|s + t| - 1] == s + t[..n];
    }
  }

  lemma {:induction false} TallyDefined(s: seq<Slot>, v: nat)
    ensures Tally(Defined(s), v) == Tally(s, v) && |Defined(s)| <= |s|
  {
    if s != [] {
      var n := |s| - 1;
      TallyDefined(s[..n], v);
      TallyConcat(Defined(s[..n]), if s[n].Of? then [s[n]] else [], v);
    }
  }

  lemma {:induction false} TallyNulls(s: seq<Slot>, v: nat)
    requires forall i :: 0 <= i < |s| ==> !s[i].Of?
    ensures Tally(s, v) == 0
  {
    if s != [] {
      TallyNulls(s[..|s| - 1], v);
    }
  }

  /** The positions of a value among the slots. */
  function Positions(s: seq<Slot>, v: nat): (r: set<nat>)
    ensures |r| == Tally(s, v) && forall i: nat :: i in r <==> i < |s| && s[i] == Of(v)
  {
    if s == [] then {}
    else
      var n := |s| - 1;
      if s[n] == Of(v) then Positions(s[..n], v) + {n} else Positions(s[..n], v)
  }

  /** The names of elements with a value. */
  function NamesOf(length: nat, p: map<nat, Slot>, names: seq<nat>, v: nat): (r: set<nat>)
    ensures forall k :: k in r <==> k in names && k < length && k in p && p[k] == Of(v)
  {
    set k | k in names && k < length && k in p && p[k] == Of(v)
  }

  lemma OneMoreNamed(length: nat, p: map<nat, Slot>, names: seq<nat>, n: nat, v: nat)
    requires n + 1 == |names| && NoDuplicates(names)
    ensures |NamesOf(length, p, names, v)| == |NamesOf(length, p, names[..n], v)| + if Read(length, [], p, names[n]) == Of(v) then 1 else 0
  {
    assert names == names[..n] + [names[n]];
    var more := if Read(length, [], p, names[n]) == Of(v) then {names[n]} else {};
    assert NamesOf(length, p, names, v) == NamesOf(length, p, names[..n], v) + more;
  }

  lemma {:induction false} NamesAreTallied(length: nat, p: map<nat, Slot>, names: seq<nat>, v: nat)
    requires NoDuplicates(names)
    ensures |NamesOf(length, p, names, v)| == Tally(Gathered(length, p, names), v)
  {
    hide Tally, Read;
    if names == [] {
      assert NamesOf(length, p, names, v) == {};
      NothingTallied(v);
    } else {
      hide NamesOf;
      var n := |names| - 1;
      NamesAreTallied(length, p, names[..n], v);
      OneMoreNamed(length, p, names, n, v);
      TallyStep(Gathered(length, p, names[..n]), Read(length, [], p, names[n]), v);
    }
  }

  lemma NothingTallied(v: nat)
    ensures Tally([], v) == 0
  {}

  lemma TallyStep(s: seq<Slot>, x: Slot, v: nat)
    ensures Tally(s + [x], v) == Tally(s, v) + if x == Of(v) then 1 else 0
  {
    assert (s + [x])[..|s|] == s;
  }

  /** How often a value occurs in an index map. */
  ghost function Occurrences(m: ElementMap, v: nat): nat {
    |set i | i in m && m[i] == v|
  }

  /** The map's occurrences are those in the slots and those among the properties. */
  lemma OccurrencesInParts(length: nat, s: seq<Slot>, p: map<nat, Slot>, names: seq<nat>, v: nat)
    requires |s| <= length && NoDuplicates(names) && (forall k :: k in names <==> k in p)
    requires forall k :: k in p ==> |s| <= k
    ensures Occurrences(Contents(length, s, p), v) == Tally(s, v) + Tally(Gathered(length, p, names), v)
  {
    hide Contents, Tally, Gathered, Positions, NamesOf, Occurrences;
    var a, b := Positions(s, v), NamesOf(length, p, names, v);
    NamesAreTallied(length, p, names, v);
    assert a !! b;
    OccurrencesAre(length, s, p, v, a + b);
  }

  lemma OccurrencesAre(length: nat, s: seq<Slot>, p: map<nat, Slot>, v: nat, found: set<nat>)
    requires |s| <= length && forall k :: k in p ==> |s| <= k
    requires forall i: nat :: i in found <==> if i < |s| then s[i] == Of(v) else i < length && i in p && p[i] == Of(v)
    ensures Occurrences(Contents(length, s, p), v) == |found|
  {
    hide Contents;
    var m := Contents(length, s, p);
    forall i: nat
      ensures i in m && m[i] == v <==> i in found
    {
      LookupContents(length, s, p, i);
    }
    assert (set i | i in m && m[i] == v) == found;
  }

  /** The elements below a length. */
  ghost function Truncated(m: ElementMap, n: nat): (t: ElementMap)
    ensures forall i: nat :: Lookup(t, i) == if i < n then Lookup(m, i) else Null
  {
    map i | i in m && i < n :: m[i]
  }

  lemma TruncatedElements(l0: nat, s0: seq<Slot>, p0: map<nat, Slot>, l: nat, s: seq<Slot>, p: map<nat, Slot>)
    requires |s0| <= l0 && |s| == (if l <= |s0| then l else |s0|) && s == s0[..|s|]
    requires forall k :: k in p0 ==> |s0| <= k < l0
    requires forall k :: k in p <==> k in p0 && (k <= l || l >= l0)
    requires forall k :: k in p ==> p[k] == p0[k]
    ensures Contents(l, s, p) == Truncated(Contents(l0, s0, p0), l)
  {
    hide Contents, Truncated;
    forall i: nat
      ensures Lookup(Contents(l, s, p), i) == Lookup(Truncated(Contents(l0, s0, p0), l), i)
    {
      LookupContents(l, s, p, i);
      LookupContents(l0, s0, p0, i);
    }
    SameElements(Contents(l, s, p), Truncated(Contents(l0, s0, p0), l));
  }

  lemma LeftBehind(l0: nat, p0: map<nat, Slot>, l: nat, p: map<nat, Slot>)
    requires forall k :: k in p0 ==> k < l0
    requires forall k :: k in p <==> k in p0 && (k <= l || k >= l0)
    ensures (forall k :: k in p ==> k < l) <==> !(l < l0 && l in p0)
  {}

  /** Growing again shows what was left at the end, and nothing else. */
  lemma GrowthRevives(l0: nat, s: seq<Slot>, p: map<nat, Slot>, l: nat)
    requires |s| <= l0 <= l
    ensures Contents(l, s, p) == Contents(l0, s, p) <==> forall k :: k in p && l0 <= k < l ==> !p[k].Of?
  {
    hide Contents;
    if forall k :: k in p && l0 <= k < l ==> !p[k].Of? {
      forall i: nat
        ensures Lookup(Contents(l, s, p), i) == Lookup(Contents(l0, s, p), i)
      {
        LookupContents(l, s, p, i);
        LookupContents(l0, s, p, i);
      }
      SameElements(Contents(l, s, p), Contents(l0, s, p));
    } else {
      var k :| k in p && l0 <= k < l && p[k].Of?;
      LookupContents(l, s, p, k);
      LookupContents(l0, s, p, k);
    }
  }

  /** More slots, but no more elements. */
  lemma GrownElements(s0: seq<Slot>, p: map<nat, Slot>, l: nat, s: seq<Slot>)
    requires |s0| <= |s| <= l && forall k :: k in p ==> |s| <= k
    requires forall i :: 0 <= i < |s| ==> s[i] == if i < |s0| then s0[i] else Null
    ensures Contents(l, s, p) == Contents(l, s0, p)
  {
    hide Contents;
    forall i: nat
      ensures Lookup(Contents(l, s, p), i) == Lookup(Contents(l, s0, p), i)
    {
      LookupContents(l, s, p, i);
      LookupContents(l, s0, p, i);
    }
    SameElements(Contents(l, s, p), Contents(l, s0, p));
  }

  /** Setting an element past the end brings back what was left between the old end and the element, and nothing else. */
  lemma PutRevives(l0: nat, s: seq<Slot>, p: map<nat, Slot>, l: nat, index: nat, value: Slot)
    requires |s| <= l0 && l == if index >= l0 then index + 1 else l0
    ensures Set(Contents(l, s, p), index, value) == Set(Contents(l0, s, p), index, value)
      <==> forall k :: k in p && l0 <= k < index ==> !p[k].Of?
  {
    hide Contents;
    var m, m0 := Set(Contents(l, s, p), index, value), Set(Contents(l0, s, p), index, value);
    if forall k :: k in p && l0 <= k < index ==> !p[k].Of? {
      forall i: nat
        ensures Lookup(m, i) == Lookup(m0, i)
      {
        LookupContents(l, s, p, i);
        LookupContents(l0, s, p, i);
      }
      SameElements(m, m0);
    } else {
      var k :| k in p && l0 <= k < index && p[k].Of?;
      LookupContents(l, s, p, k);
      LookupContents(l0, s, p, k);
      assert k in m && k !in m0;
    }
  }

  lemma PutElement(l: nat, s0: seq<Slot>, p0: map<nat, Slot>, s: seq<Slot>, p: map<nat, Slot>, index: nat, value: Slot)
    requires |s| == |s0| <= l && index < l && value != Null
    requires if index < |s| then s == s0[index := value] && p == p0 else s == s0 && p == p0[index := value]
    ensures Contents(l, s, p) == Set(Contents(l, s0, p0), index, value)
  {
    hide Contents;
    forall i: nat
      ensures Lookup(Contents(l, s, p), i) == Lookup(Set(Contents(l, s0, p0), index, value), i)
    {
      LookupContents(l, s, p, i);
      LookupContents(l, s0, p0, i);
    }
    SameElements(Contents(l, s, p), Set(Contents(l, s0, p0), index, value));
  }

  lemma DeleteElement(l: nat, s0: seq<Slot>, p0: map<nat, Slot>, s: seq<Slot>, p: map<nat, Slot>, index: nat)
    requires |s| == |s0| <= l && (forall k :: k in p0 ==> |s| <= k)
    requires forall i :: 0 <= i < |s| && i != index ==> s[i] == s0[i]
    requires index < l ==> if index < |s| then s[index] == Null && p == p0 else p == p0 - {index}
    requires index >= l ==> p == p0
    ensures Contents(l, s, p) == Contents(l, s0, p0) - {index}
  {
    hide Contents;
    forall i: nat
      ensures Lookup(Contents(l, s, p), i) == Lookup(Contents(l, s0, p0) - {index}, i)
    {
      LookupContents(l, s, p, i);
      LookupContents(l, s0, p0, i);
    }
    SameElements(Contents(l, s, p), Contents(l, s0, p0) - {index});
  }
}
