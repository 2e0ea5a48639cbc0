/** Argument lists (list.cpp, list.h): shared, doubly counted, with inline values and overflow. */
module Lists {
  import opened FiniteSets
  import opened ListStore

  /** A List object: which shared part it refers to, and whether someone else marks its values. */
  datatype Handle = Handle(imp: Where, needsMarking: bool)

  /** A List object, or the reference an assignment holds before it gives up the old one. */
  datatype HandleId = Object(id: nat) | Pending

  type Handles = map<HandleId, Handle>

  predicate UsedAt(pool: seq<Imp>, heap: map<nat, HeapImp>, w: Where) {
    match w
    case InPool(i) => i < |pool| && pool[i].state == UsedInPool
    case OnHeap(at) => at in heap
  }

  function ImpAt(pool: seq<Imp>, heap: map<nat, HeapImp>, w: Where): Imp
    requires UsedAt(pool, heap, w)
  {
    match w
    case InPool(i) => pool[i]
    case OnHeap(at) => heap[at].imp
  }

  function Min(a: nat, b: nat): nat {
    if a < b then a else b
  }

  /** Inline values come first; what does not fit there is in the overflow, whose size the capacity tells. */
  ghost predicate ImpOk(imp: Imp) {
    && |imp.words| == INLINE_VALUES_SIZE && (forall i :: 0 <= i < Min(imp.size, INLINE_VALUES_SIZE) ==> imp.words[i].Value?)
    && (if imp.capacity == 0 then imp.overflow == [] else imp.capacity >= 8 && |imp.overflow| == imp.capacity - INLINE_VALUES_SIZE)
    && (imp.size <= INLINE_VALUES_SIZE || imp.size <= imp.capacity)
  }

  /** The i-th value. */
  function ValueAt(imp: Imp, i: nat): nat
    requires ImpOk(imp) && i < imp.size
  {
    if i < INLINE_VALUES_SIZE then imp.words[i].v else imp.overflow[i - INLINE_VALUES_SIZE]
  }

  /** The list's values. */
  ghost function Contents(imp: Imp): (s: seq<nat>)
    requires ImpOk(imp)
    ensures |s| == imp.size && forall i :: 0 <= i < |s| ==> s[i] == ValueAt(imp, i)
  {
    seq(imp.size, i requires 0 <= i < imp.size => ValueAt(imp, i))
  }

  // Appending.

  lemma AppendedContents(imp: Imp, imp1: Imp, v: nat)
    requires ImpOk(imp) && ImpOk(imp1) && imp1.size == imp.size + 1
    requires forall i: nat :: i < imp.size ==> ValueAt(imp1, i) == ValueAt(imp, i)
    requires ValueAt(imp1, imp.size) == v
    ensures Contents(imp1) == Contents(imp) + [v]
  {}

  /** The grown overflow: its old part and as much again as the source asks for. */
  method GrowOverflow(old_: seq<nat>, i: nat) returns (overflow: seq<nat>)
    requires i >= INLINE_VALUES_SIZE && |old_| == i - INLINE_VALUES_SIZE
    ensures |overflow| == i * 2 - INLINE_VALUES_SIZE && overflow[..i - INLINE_VALUES_SIZE] == old_
  {
    var newOverflow := new nat[i * 2 - INLINE_VALUES_SIZE](_ => 0);
    for j := 0 to i - INLINE_VALUES_SIZE
      invariant newOverflow[..j] == old_[..j]
    {
      newOverflow[j] := old_[j];
    }
    overflow := newOverflow[..];
  }

  /** One more value, in the next inline place or in the overflow, which doubles when it is full. */
  method AppendTo(imp: Imp, v: nat) returns (imp1: Imp)
    requires ImpOk(imp)
    ensures ImpOk(imp1) && Contents(imp1) == Contents(imp) + [v]
    ensures imp1.capacity == if imp.size >= INLINE_VALUES_SIZE && imp.size >= imp.capacity then imp.size * 2 else imp.capacity
    ensures imp1.refCount == imp.refCount && imp1.valueRefCount == imp.valueRefCount && imp1.state == imp.state
  {
    hide Contents;
    var i := imp.size;
    imp1 := imp.(size := i + 1);
    if i < INLINE_VALUES_SIZE {
      imp1 := imp1.(words := imp1.words[i := Value(v)]);
    } else {
      if i >= imp.capacity {
        var overflow := GrowOverflow(imp.overflow, i);
        PrefixKept(imp.overflow, overflow);
        imp1 := imp1.(overflow := overflow, capacity := i * 2);
      }
      imp1 := imp1.(overflow := imp1.overflow[i - INLINE_VALUES_SIZE := v]);
    }
    AppendedContents(imp, imp1, v);
  }

  lemma PrefixKept(s: seq<nat>, t: seq<nat>)
    requires |s| <= |t| && t[..|s|] == s
    ensures forall i :: 0 <= i < |s| ==> t[i] == s[i]
  {
    forall i | 0 <= i < |s|
      ensures t[i] == s[i]
    {
      assert t[..|s|][i] == t[i];
    }
  }

  /** Values first up to limit from a list of another shared part. */
  method AppendValues(imp: Imp, other: Imp, first: nat) returns (imp1: Imp)
    requires ImpOk(imp) && ImpOk(other)
    ensures ImpOk(imp1) && Contents(imp1) == Contents(imp) + (if first <= other.size then Contents(other)[first..] else [])
    ensures imp1.refCount == imp.refCount && imp1.valueRefCount == imp.valueRefCount && imp1.state == imp.state
  {
    hide Contents, ImpOk, ValueAt;
    imp1 := imp;
    ghost var c := Contents(other);
    var inlineSize := Min(other.size, INLINE_VALUES_SIZE);
    var i := first;
    if first > other.size {
      return;
    }
    assert Contents(imp) + c[first..i] == Contents(imp);
    while i < other.size
      invariant first <= i <= other.size && ImpOk(imp1) && Contents(imp1) == Contents(imp) + c[first..i]
      invariant imp1.refCount == imp.refCount && imp1.valueRefCount == imp.valueRefCount && imp1.state == imp.state
    {
      imp1 := AppendTo(imp1, ValueAt(other, i));
      assert c[first..i + 1] == c[first..i] + [c[i]];
      i := i + 1;
    }
  }

  // Appending a list to itself.

  /** The overflow grows, and its old array goes, while values of the old array are still to be read. */
  predicate OutgrowsItself(imp: Imp) {
    imp.size > INLINE_VALUES_SIZE && imp.size + 4 <= imp.capacity <= 2 * imp.size - 2
  }

  /** The inline values of a list, appended to it. */
  method AppendInline(imp: Imp) returns (imp1: Imp)
    requires ImpOk(imp)
    ensures ImpOk(imp1) && Contents(imp1) == Contents(imp) + Contents(imp)[..Min(imp.size, INLINE_VALUES_SIZE)]
    ensures imp.size > INLINE_VALUES_SIZE ==>
      imp1.capacity == if imp.size + 3 < imp.capacity then imp.capacity else imp.capacity * 2
    ensures imp1.refCount == imp.refCount && imp1.valueRefCount == imp.valueRefCount && imp1.state == imp.state
  {
    hide Contents, ValueAt;
    ghost var c := Contents(imp);
    SizeFits(imp);
    var inlineSize := Min(imp.size, INLINE_VALUES_SIZE);
    imp1 := imp;
    assert c + c[..0] == c;
    for i := 0 to inlineSize
      invariant ImpOk(imp1) && Contents(imp1) == c + c[..i] && imp1.size == imp.size + i
      invariant imp.size > INLINE_VALUES_SIZE ==> imp1.capacity == if imp1.size <= imp.capacity then imp.capacity else imp.capacity * 2
      invariant imp1.refCount == imp.refCount && imp1.valueRefCount == imp.valueRefCount && imp1.state == imp.state
    {
      assert Contents(imp1)[i] == c[i];
      imp1 := AppendTo(imp1, ValueAt(imp1, i));
      assert c + c[..i] + [c[i]] == c + c[..i + 1];
    }
  }

  lemma SizeFits(imp: Imp)
    requires ImpOk(imp)
    ensures imp.size > INLINE_VALUES_SIZE ==> imp.size <= imp.capacity
  {}

  /** All its values; stale tells that a value is about to be read from an array that is gone, where the model stops. */
  method AppendSelf(imp: Imp) returns (imp1: Imp, stale: bool)
    requires ImpOk(imp)
    ensures stale <==> OutgrowsItself(imp)
    ensures !stale ==> ImpOk(imp1) && Contents(imp1) == Contents(imp) + Contents(imp)
    ensures imp1.refCount == imp.refCount && imp1.valueRefCount == imp.valueRefCount && imp1.state == imp.state
  {
    hide Contents, ValueAt;
    ghost var c := Contents(imp);
    SizeFits(imp);
    imp1 := AppendInline(imp);
    var capacity := imp1.capacity;
    var gone := false;
    var i := Min(imp.size, INLINE_VALUES_SIZE);
    while i < imp.size
      invariant Min(imp.size, INLINE_VALUES_SIZE) <= i <= imp.size && ImpOk(imp1) && imp1.size == imp.size + i
      invariant Contents(imp1) == c + c[..i]
      invariant i > INLINE_VALUES_SIZE ==> (gone <==> imp1.size > capacity) && imp1.size <= capacity + 1
      invariant !gone ==> imp1.capacity == capacity
      invariant i <= INLINE_VALUES_SIZE ==> !gone
      invariant imp1.refCount == imp.refCount && imp1.valueRefCount == imp.valueRefCount && imp1.state == imp.state
    {
      if gone {
        return imp1, true;
      }
      assert Contents(imp1)[i] == c[i];
      imp1 := AppendTo(imp1, ValueAt(imp1, i));
      gone := imp1.capacity != capacity;
      assert c + c[..i] + [c[i]] == c + c[..i + 1];
      i := i + 1;
    }
    assert c[..i] == c;
    stale := false;
  }

  // Counting handles.

  /** The List objects that refer to a shared part... */
  ghost function Referring(handles: Handles, w: Where): (s: set<HandleId>)
    ensures forall h :: h in s <==> h in handles && handles[h].imp == w
  {
    set h | h in handles && handles[h].imp == w
  }

  /** ... and those of them that keep its values marked. */
  ghost function Marking(handles: Handles, w: Where): (s: set<HandleId>)
    ensures forall h :: h in s <==> h in handles && handles[h].imp == w && !handles[h].needsMarking
  {
    set h | h in handles && handles[h].imp == w && !handles[h].needsMarking
  }

  ghost function Refs(handles: Handles, w: Where): nat {
    |Referring(handles, w)|
  }

  ghost function ValueRefs(handles: Handles, w: Where): nat {
    |Marking(handles, w)|
  }

  lemma OneMoreHandle(handles: Handles, h: HandleId, x: Handle, w: Where)
    requires h !in handles
    ensures Refs(handles[h := x], w) == Refs(handles, w) + if x.imp == w then 1 else 0
    ensures ValueRefs(handles[h := x], w) == ValueRefs(handles, w) + if x.imp == w && !x.needsMarking then 1 else 0
  {
    hide Referring, Marking;
    var hs := handles[h := x];
    OneMore(Referring(handles, w), Referring(hs, w), h, x.imp == w);
    OneMore(Marking(handles, w), Marking(hs, w), h, x.imp == w && !x.needsMarking);
  }

  lemma OneMore(s: set<HandleId>, t: set<HandleId>, h: HandleId, more: bool)
    requires h !in s && forall g :: g in t <==> g in s || (more && g == h)
    ensures |t| == |s| + if more then 1 else 0
  {
    if more {
      assert t == s + {h};
    } else {
      assert t == s;
    }
  }

  lemma OneHandleLess(handles: Handles, h: HandleId, w: Where)
    requires h in handles
    ensures Refs(handles, w) == Refs(handles - {h}, w) + if handles[h].imp == w then 1 else 0
    ensures ValueRefs(handles, w) == ValueRefs(handles - {h}, w) + if handles[h].imp == w && !handles[h].needsMarking then 1 else 0
  {
    OneMoreHandle(handles - {h}, h, handles[h], w);
    assert (handles - {h})[h := handles[h]] == handles;
  }

  lemma MarkingHandle(handles: Handles, w: Where) returns (h: HandleId)
    requires ValueRefs(handles, w) > 0
    ensures h in handles && handles[h].imp == w && !handles[h].needsMarking
  {
    h :| h in Marking(handles, w);
  }

  lemma ValueRefsAreRefs(handles: Handles, w: Where)
    ensures ValueRefs(handles, w) <= Refs(handles, w)
    ensures Refs(handles, w) == 0 ==> forall h :: h in handles ==> handles[h].imp != w
    ensures forall h :: h in handles && handles[h].imp == w ==> Refs(handles, w) > 0
  {
    hide Referring, Marking;
    SubsetSize(Marking(handles, w), Referring(handles, w));
    forall h | h in handles && handles[h].imp == w
      ensures Refs(handles, w) > 0
    {
      assert h in Referring(handles, w);
    }
  }

  /** Every used shared part is sound, and its counts are those of the List objects that refer to it. */
  ghost predicate CountsOk(pool: seq<Imp>, heap: map<nat, HeapImp>, handles: Handles) {
    && (forall w :: UsedAt(pool, heap, w) ==>
      var imp := ImpAt(pool, heap, w);
      ImpOk(imp) && imp.refCount == Refs(handles, w) > 0 && imp.valueRefCount == ValueRefs(handles, w))
    && (forall h :: h in handles ==> UsedAt(pool, heap, handles[h].imp))
  }

  // The counts after one change.

  /** A List object is added to a used shared part, whose counts go up. */
  lemma CountsAfterReference(pool: seq<Imp>, heap: map<nat, HeapImp>, handles: Handles, h: HandleId, x: Handle,
      pool1: seq<Imp>, heap1: map<nat, HeapImp>)
    requires CountsOk(pool, heap, handles) && h !in handles && UsedAt(pool, heap, x.imp)
    requires forall w :: UsedAt(pool1, heap1, w) <==> UsedAt(pool, heap, w)
    requires forall w :: UsedAt(pool, heap, w) && w != x.imp ==> ImpAt(pool1, heap1, w) == ImpAt(pool, heap, w)
    requires var imp := ImpAt(pool, heap, x.imp);
      ImpAt(pool1, heap1, x.imp) == imp.(refCount := imp.refCount + 1, valueRefCount := imp.valueRefCount + if x.needsMarking then 0 else 1)
    ensures CountsOk(pool1, heap1, handles[h := x])
  {
    hide Refs, ValueRefs;
    forall w | UsedAt(pool1, heap1, w)
      ensures var imp := ImpAt(pool1, heap1, w);
        ImpOk(imp) && imp.refCount == Refs(handles[h := x], w) > 0 && imp.valueRefCount == ValueRefs(handles[h := x], w)
    {
      OneMoreHandle(handles, h, x, w);
    }
  }

  /** A new shared part with one List object. */
  lemma CountsAfterCreation(pool: seq<Imp>, heap: map<nat, HeapImp>, handles: Handles, h: HandleId, x: Handle,
      pool1: seq<Imp>, heap1: map<nat, HeapImp>)
    requires CountsOk(pool, heap, handles) && h !in handles && !UsedAt(pool, heap, x.imp) && UsedAt(pool1, heap1, x.imp)
    requires forall w :: w != x.imp ==> (UsedAt(pool1, heap1, w) <==> UsedAt(pool, heap, w))
    requires forall w :: UsedAt(pool, heap, w) ==> ImpAt(pool1, heap1, w) == ImpAt(pool, heap, w)
    requires var imp := ImpAt(pool1, heap1, x.imp); ImpOk(imp) && imp.refCount == 1 && imp.valueRefCount == if x.needsMarking then 0 else 1
    ensures CountsOk(pool1, heap1, handles[h := x])
  {
    hide Refs, ValueRefs;
    forall w | UsedAt(pool1, heap1, w)
      ensures var imp := ImpAt(pool1, heap1, w);
        ImpOk(imp) && imp.refCount == Refs(handles[h := x], w) > 0 && imp.valueRefCount == ValueRefs(handles[h := x], w)
    {
      OneMoreHandle(handles, h, x, w);
      if w == x.imp {
        NobodyRefers(handles, w);
      }
    }
  }

  lemma EmptySet(s: set<HandleId>)
    requires forall h :: h !in s
    ensures |s| == 0
  {
    assert s == {};
  }

  lemma NobodyRefers(handles: Handles, w: Where)
    requires forall h :: h in handles ==> handles[h].imp != w
    ensures Refs(handles, w) == 0 && ValueRefs(handles, w) == 0
  {
    hide Referring, Marking;
    EmptySet(Referring(handles, w));
    EmptySet(Marking(handles, w));
  }

  /** A List object goes, and its shared part stays for the others. */
  lemma CountsAfterDereference(pool: seq<Imp>, heap: map<nat, HeapImp>, handles: Handles, h: HandleId,
      pool1: seq<Imp>, heap1: map<nat, HeapImp>)
    requires CountsOk(pool, heap, handles) && h in handles && ImpAt(pool, heap, handles[h].imp).refCount > 1
    requires forall w :: UsedAt(pool1, heap1, w) <==> UsedAt(pool, heap, w)
    requires forall w :: UsedAt(pool, heap, w) && w != handles[h].imp ==> ImpAt(pool1, heap1, w) == ImpAt(pool, heap, w)
    requires var imp := ImpAt(pool, heap, handles[h].imp);
      && imp.valueRefCount >= (if handles[h].needsMarking then 0 else 1)
      && ImpAt(pool1, heap1, handles[h].imp)
        == imp.(refCount := imp.refCount - 1, valueRefCount := imp.valueRefCount - if handles[h].needsMarking then 0 else 1)
    ensures CountsOk(pool1, heap1, handles - {h})
  {
    hide Refs, ValueRefs;
    forall w | UsedAt(pool1, heap1, w)
      ensures var imp := ImpAt(pool1, heap1, w);
        ImpOk(imp) && imp.refCount == Refs(handles - {h}, w) > 0 && imp.valueRefCount == ValueRefs(handles - {h}, w)
    {
      OneHandleLess(handles, h, w);
    }
  }

  /** The last List object goes, and its shared part with it. */
  lemma CountsAfterRelease(pool: seq<Imp>, heap: map<nat, HeapImp>, handles: Handles, h: HandleId,
      pool1: seq<Imp>, heap1: map<nat, HeapImp>)
    requires CountsOk(pool, heap, handles) && h in handles && ImpAt(pool, heap, handles[h].imp).refCount == 1
    requires forall w :: UsedAt(pool1, heap1, w) <==> UsedAt(pool, heap, w) && w != handles[h].imp
    requires forall w :: UsedAt(pool1, heap1, w) ==> ImpAt(pool1, heap1, w) == ImpAt(pool, heap, w)
    ensures CountsOk(pool1, heap1, handles - {h})
  {
    hide Refs, ValueRefs;
    forall w | UsedAt(pool1, heap1, w)
      ensures var imp := ImpAt(pool1, heap1, w);
        ImpOk(imp) && imp.refCount == Refs(handles - {h}, w) > 0 && imp.valueRefCount == ValueRefs(handles - {h}, w)
    {
      OneHandleLess(handles, h, w);
    }
    OneHandleLess(handles, h, handles[h].imp);
    ValueRefsAreRefs(handles - {h}, handles[h].imp);
  }

  /** The List object's own reference is counted. */
  lemma CountedHandle(pool: seq<Imp>, heap: map<nat, HeapImp>, handles: Handles, h: HandleId)
    requires CountsOk(pool, heap, handles) && h in handles
    ensures var w := handles[h].imp;
      && UsedAt(pool, heap, w) && ImpOk(ImpAt(pool, heap, w))
      && ImpAt(pool, heap, w).refCount > 0 && (!handles[h].needsMarking ==> ImpAt(pool, heap, w).valueRefCount > 0)
  {
    OneHandleLess(handles, h, handles[h].imp);
  }

  lemma SoundPart(pool: seq<Imp>, heap: map<nat, HeapImp>, handles: Handles, w: Where)
    requires CountsOk(pool, heap, handles) && UsedAt(pool, heap, w)
    ensures ImpOk(ImpAt(pool, heap, w))
  {}

  /** Changing the values of one shared part leaves the counts alone. */
  lemma CountsAfterWrite(pool: seq<Imp>, heap: map<nat, HeapImp>, handles: Handles, w: Where, pool1: seq<Imp>, heap1: map<nat, HeapImp>)
    requires CountsOk(pool, heap, handles) && UsedAt(pool, heap, w)
    requires forall x :: UsedAt(pool1, heap1, x) <==> UsedAt(pool, heap, x)
    requires forall x :: UsedAt(pool, heap, x) && x != w ==> ImpAt(pool1, heap1, x) == ImpAt(pool, heap, x)
    requires var imp, imp1 := ImpAt(pool, heap, w), ImpAt(pool1, heap1, w);
      ImpOk(imp1) && imp1.refCount == imp.refCount && imp1.valueRefCount == imp.valueRefCount
    ensures CountsOk(pool1, heap1, handles)
  {}

  /** The world of lists: the pool, the heap chain, and the List objects alive. */
  class ListWorld {
    var pool: seq<Imp>
    var poolFreeList: Link
    var poolUsed: nat
    var heap: map<nat, HeapImp>
    var heapList: Link
    ghost var released: seq<nat>
    ghost var unseen: nat
    ghost var chain: seq<nat>
    var handles: Handles

    ghost predicate Valid()
      reads this
    {
      PoolOk(pool, poolFreeList, poolUsed, released, unseen) && ChainOk(heap, heapList, chain) && CountsOk(pool, heap, handles)
    }

    constructor ()
      ensures Valid() && handles == map[]
    {
      pool := seq(POOL_SIZE, _ => Untouched());
      poolFreeList, poolUsed, heap, heapList, handles := Null, 0, map[], Null, map[];
      released, unseen, chain := [], 0, [];
      EmptyPoolIsOk();
    }

    /** The values of a List object. */
    ghost function Values(h: HandleId): seq<nat>
      requires Valid() && h in handles
      reads this
    {
      Contents(ImpAt(pool, heap, handles[h].imp))
    }

    /** Overwrites a used shared part. */
    method Update(w: Where, imp: Imp)
      requires PoolOk(pool, poolFreeList, poolUsed, released, unseen) && ChainOk(heap, heapList, chain)
      requires UsedAt(pool, heap, w) && imp.state == ImpAt(pool, heap, w).state && |imp.words| == INLINE_VALUES_SIZE
      modifies `pool, `heap
      ensures PoolOk(pool, poolFreeList, poolUsed, released, unseen) && ChainOk(heap, heapList, chain)
      ensures forall x :: UsedAt(pool, heap, x) <==> UsedAt(old(pool), old(heap), x)
      ensures UsedAt(pool, heap, w) && ImpAt(pool, heap, w) == imp
      ensures forall x :: UsedAt(pool, heap, x) && x != w ==> ImpAt(pool, heap, x) == ImpAt(old(pool), old(heap), x)
    {
      hide ChainOk, PoolOk;
      match w {
        case InPool(i) =>
          PoolAfterUpdate(pool, poolFreeList, poolUsed, released, unseen, i, imp);
          pool := pool[i := imp];
        case OnHeap(at) =>
          ChainAfterUpdate(heap, heapList, chain, at, imp);
          heap := heap[at := heap[at].(imp := imp)];
      }
    }

    /** A new shared part: from the pool while there is room, else from the heap, at an address of its own. */
    method AllocateListImp(at: nat) returns (w: Where)
      requires PoolOk(pool, poolFreeList, poolUsed, released, unseen) && ChainOk(heap, heapList, chain) && at !in heap
      modifies `pool, `poolFreeList, `poolUsed, `heap, `heapList, `released, `unseen, `chain
      ensures PoolOk(pool, poolFreeList, poolUsed, released, unseen) && ChainOk(heap, heapList, chain)
      ensures w.InPool? <==> old(poolUsed) < POOL_SIZE
      ensures !UsedAt(old(pool), old(heap), w) && UsedAt(pool, heap, w) && |ImpAt(pool, heap, w).words| == INLINE_VALUES_SIZE
      ensures forall x :: x != w ==> (UsedAt(pool, heap, x) <==> UsedAt(old(pool), old(heap), x))
      ensures forall x :: UsedAt(old(pool), old(heap), x) ==> UsedAt(pool, heap, x) && ImpAt(pool, heap, x) == ImpAt(old(pool), old(heap), x)
    {
      hide PoolOk, ChainOk, Taken;
      PoolShape(pool, poolFreeList, poolUsed, released, unseen);
      if poolUsed < POOL_SIZE {
        var i;
        i, pool, poolFreeList, poolUsed, released, unseen := TakeSlot(pool, poolFreeList, poolUsed, released, unseen);
        w := InPool(i);
      } else {
        heap, heapList := LinkInFront(heap, heapList, at, Untouched().(state := UsedOnHeap), chain);
        chain := chain + [at];
        w := OnHeap(at);
      }
    }

    /** A list without values and one reference to it (the constructors). */
    method NewList(h: HandleId, needsMarking: bool, at: nat)
      requires Valid() && h !in handles && at !in heap
      modifies this
      ensures Valid() && h in handles && handles == old(handles)[h := handles[h]] && handles[h].needsMarking == needsMarking
      ensures Values(h) == []
      ensures !UsedAt(old(pool), old(heap), handles[h].imp)
      ensures forall x :: UsedAt(old(pool), old(heap), x) ==> UsedAt(pool, heap, x) && ImpAt(pool, heap, x) == ImpAt(old(pool), old(heap), x)
    {
      hide PoolOk, ChainOk, CountsOk, UsedAt, ImpAt, Contents;
      ghost var pool0, heap0 := pool, heap;
      var w := AllocateListImp(at);
      var imp := ImpAt(pool, heap, w);
      Update(w, imp.(size := 0, refCount := 1, valueRefCount := if needsMarking then 0 else 1, capacity := 0, overflow := []));
      CountsAfterCreation(pool0, heap0, handles, h, Handle(w, needsMarking), pool, heap);
      handles := handles[h := Handle(w, needsMarking)];
    }

    /** One more List object for a shared part. */
    method Reference(h: HandleId, w: Where, needsMarking: bool)
      requires Valid() && h !in handles && UsedAt(pool, heap, w)
      modifies `pool, `heap, `handles
      ensures Valid() && handles == old(handles)[h := Handle(w, needsMarking)]
      ensures forall x :: UsedAt(pool, heap, x) <==> UsedAt(old(pool), old(heap), x)
      ensures forall x :: UsedAt(pool, heap, x) ==> SameValues(ImpAt(old(pool), old(heap), x), ImpAt(pool, heap, x))
    {
      hide PoolOk, ChainOk, UsedAt, ImpAt, CountsOk;
      SoundPart(pool, heap, handles, w);
      ghost var pool0, heap0 := pool, heap;
      var imp := ImpAt(pool, heap, w);
      Update(w, imp.(refCount := imp.refCount + 1, valueRefCount := imp.valueRefCount + if needsMarking then 0 else 1));
      CountsAfterReference(pool0, heap0, handles, h, Handle(w, needsMarking), pool, heap);
      handles := handles[h := Handle(w, needsMarking)];
    }

    /** Puts a shared part back where it came from. */
    method Release(w: Where)
      requires PoolOk(pool, poolFreeList, poolUsed, released, unseen) && ChainOk(heap, heapList, chain) && UsedAt(pool, heap, w)
      modifies `pool, `poolFreeList, `poolUsed, `heap, `heapList, `released, `unseen, `chain
      ensures PoolOk(pool, poolFreeList, poolUsed, released, unseen) && ChainOk(heap, heapList, chain)
      ensures forall x :: UsedAt(pool, heap, x) <==> UsedAt(old(pool), old(heap), x) && x != w
      ensures forall x :: UsedAt(pool, heap, x) ==> ImpAt(pool, heap, x) == ImpAt(old(pool), old(heap), x)
    {
      hide PoolOk, ChainOk;
      PoolShape(pool, poolFreeList, poolUsed, released, unseen);
      match w {
        case InPool(i) =>
          pool, poolFreeList, poolUsed := ReturnSlot(pool, poolFreeList, poolUsed, i, released, unseen);
          released := released + [i];
        case OnHeap(at) =>
          ghost var j := PlaceInChain(heap, heapList, chain, at);
          heap, heapList := Unlink(heap, heapList, at, chain, j);
          chain := chain[..j] + chain[j + 1..];
      }
    }

    /** One List object less; the last one releases the shared part (deref). */
    method Dereference(h: HandleId)
      requires Valid() && h in handles
      modifies this
      ensures Valid() && handles == old(handles) - {h}
      ensures forall x ::
        UsedAt(pool, heap, x) <==> UsedAt(old(pool), old(heap), x) && !(x == old(handles)[h].imp && ImpAt(old(pool), old(heap), x).refCount == 1)
      ensures forall x :: UsedAt(pool, heap, x) ==> SameValues(ImpAt(old(pool), old(heap), x), ImpAt(pool, heap, x))
    {
      hide PoolOk, ChainOk, UsedAt, ImpAt, CountsOk;
      CountedHandle(pool, heap, handles, h);
      ghost var pool0, heap0 := pool, heap;
      var w, needsMarking := handles[h].imp, handles[h].needsMarking;
      var imp := ImpAt(pool, heap, w);
      imp := imp.(refCount := imp.refCount - 1, valueRefCount := imp.valueRefCount - if needsMarking then 0 else 1);
      Update(w, imp);
      if imp.refCount == 0 {
        Release(w);
        CountsAfterRelease(pool0, heap0, handles, h, pool, heap);
      } else {
        CountsAfterDereference(pool0, heap0, handles, h, pool, heap);
      }
      handles := handles - {h};
    }
  
    // List objects.

    /** Sharing another list's values (the copy constructor). */
    method CopyConstruct(h: HandleId, b: HandleId)
      requires Valid() && h !in handles && b in handles
      modifies `pool, `heap, `handles
      ensures Valid() && handles == old(handles)[h := Handle(old(handles)[b].imp, false)]
      ensures Values(h) == old(Values(b)) && forall g :: g in old(handles) ==> Values(g) == old(Values(g))
    {
      hide PoolOk, ChainOk, CountsOk, UsedAt, ImpAt, Contents, ImpOk;
      CountedHandle(pool, heap, handles, b);
      ghost var pool0, heap0, handles0 := pool, heap, handles;
      var w := handles[b].imp;
      Reference(h, w, false);
      SameLists(pool0, heap0, handles0, pool, heap, handles);
      CountedHandle(pool, heap, handles, h);
      ContentsIgnoreCounts(ImpAt(pool0, heap0, w), ImpAt(pool, heap, w));
    }

    /** Sharing another list's values in place of the old ones. */
    method Assign(h: HandleId, b: HandleId)
      requires Valid() && h in handles && b in handles && Pending !in handles
      modifies this
      ensures Valid() && handles == old(handles)[h := Handle(old(handles)[b].imp, old(handles)[h].needsMarking)]
      ensures forall g :: g in handles ==> Values(g) == old(Values(if g == h then b else g))
    {
      hide PoolOk, ChainOk, CountsOk, UsedAt, ImpAt, Contents, ImpOk;
      CountedHandle(pool, heap, handles, b);
      ghost var pool0, heap0, handles0 := pool, heap, handles;
      var w, needsMarking := handles[b].imp, handles[h].needsMarking;
      Reference(Pending, w, needsMarking);
      ghost var pool1, heap1 := pool, heap;
      Dereference(h);
      ghost var handles2 := handles;
      handles := (handles - {Pending})[h := handles[Pending]];
      CountsAfterRenaming(pool, heap, handles2, h);
      AssignedLists(pool0, heap0, handles0, pool1, heap1, pool, heap, handles, h, b);
    }

    /** The value at an index, or undefined past the end. */
    method At(h: HandleId, i: int) returns (found: bool, v: nat)
      requires Valid() && h in handles && -0x8000_0000 <= i < 0x8000_0000
      ensures found <==> 0 <= i < |Values(h)|
      ensures found ==> v == Values(h)[i]
    {
      CountedHandle(pool, heap, handles, h);
      var imp := ImpAt(pool, heap, handles[h].imp);
      if i < 0 || i >= imp.size {
        return false, 0;
      }
      found, v := true, ValueAt(imp, i);
    }

    /** Overwrites the values of the shared part of a list, for all List objects that share it. */
    method SetPart(h: HandleId, imp: Imp)
      requires Valid() && h in handles && ImpOk(imp)
      requires var imp0 := ImpAt(pool, heap, handles[h].imp);
        imp.refCount == imp0.refCount && imp.valueRefCount == imp0.valueRefCount && imp.state == imp0.state
      modifies `pool, `heap
      ensures Valid()
      ensures forall g :: g in handles ==> Values(g) == if handles[g].imp == handles[h].imp then Contents(imp) else old(Values(g))
    {
      hide PoolOk, ChainOk, UsedAt, ImpAt, Contents, CountsOk;
      SoundHandles(pool, heap, handles);
      ghost var pool0, heap0, w := pool, heap, handles[h].imp;
      Update(handles[h].imp, imp);
      CountsAfterWrite(pool0, heap0, handles, w, pool, heap);
      SoundHandles(pool, heap, handles);
    }

    method Append(h: HandleId, v: nat)
      requires Valid() && h in handles
      modifies `pool, `heap
      ensures Valid()
      ensures forall g :: g in handles ==> Values(g) == old(Values(g)) + if handles[g].imp == handles[h].imp then [v] else []
    {
      hide PoolOk, ChainOk, CountsOk, UsedAt, ImpAt, Contents, ImpOk;
      CountedHandle(pool, heap, handles, h);
      var imp := AppendTo(ImpAt(pool, heap, handles[h].imp), v);
      SetPart(h, imp);
    }

    method Clear(h: HandleId)
      requires Valid() && h in handles
      modifies `pool, `heap
      ensures Valid()
      ensures forall g :: g in handles ==> Values(g) == if handles[g].imp == handles[h].imp then [] else old(Values(g))
    {
      hide PoolOk, ChainOk, CountsOk, UsedAt, ImpAt, Contents;
      CountedHandle(pool, heap, handles, h);
      SetPart(h, ImpAt(pool, heap, handles[h].imp).(size := 0));
    }

    /** Appends the values of a list with another shared part, from index first on. */
    method AppendFrom(h: HandleId, other: HandleId, first: nat)
      requires Valid() && h in handles && other in handles && handles[h].imp != handles[other].imp
      modifies `pool, `heap
      ensures Valid()
      ensures forall g :: g in handles && handles[g].imp != handles[h].imp ==> Values(g) == old(Values(g))
      ensures Values(h) == old(Values(h)) + if first <= |old(Values(other))| then old(Values(other))[first..] else []
    {
      hide PoolOk, ChainOk, CountsOk, UsedAt, ImpAt, Contents, ImpOk;
      CountedHandle(pool, heap, handles, h);
      CountedHandle(pool, heap, handles, other);
      var imp := AppendValues(ImpAt(pool, heap, handles[h].imp), ImpAt(pool, heap, handles[other].imp), first);
      SetPart(h, imp);
    }

    /** Appends the values of another list, or its own; the latter fails for some sizes, where the model stops. */
    method CopyFrom(h: HandleId, other: HandleId) returns (stale: bool)
      requires Valid() && h in handles && other in handles
      modifies `pool, `heap
      ensures Valid() && (stale <==> handles[h].imp == handles[other].imp && old(OutgrowsItself(ImpAt(pool, heap, handles[h].imp))))
      ensures !stale ==> Values(h) == old(Values(h)) + old(Values(other))
      ensures forall g :: g in handles && handles[g].imp != handles[h].imp ==> Values(g) == old(Values(g))
    {
      hide PoolOk, ChainOk, CountsOk, UsedAt, ImpAt, Contents, ImpOk, OutgrowsItself;
      stale := false;
      if handles[h].imp != handles[other].imp {
        AppendFrom(h, other, 0);
      } else {
        CountedHandle(pool, heap, handles, h);
        var imp;
        imp, stale := AppendSelf(ImpAt(pool, heap, handles[h].imp));
        if !stale {
          SetPart(h, imp);
        }
      }
    }

    /** A list of its own with the same values. */
    method Copy(h: HandleId, b: HandleId, at: nat)
      requires Valid() && h !in handles && b in handles && at !in heap
      modifies this
      ensures Valid() && h in handles && handles == old(handles)[h := handles[h]]
      ensures forall g :: g in old(handles) ==> handles[g].imp != handles[h].imp
      ensures Values(h) == old(Values(b)) && forall g :: g in old(handles) ==> Values(g) == old(Values(g))
    {
      CopyWithout(h, b, 0, at);
    }

    /** A list of its own with all values but the first. */
    method CopyTail(h: HandleId, b: HandleId, at: nat)
      requires Valid() && h !in handles && b in handles && at !in heap
      modifies this
      ensures Valid() && h in handles && handles == old(handles)[h := handles[h]]
      ensures Values(h) == (if old(Values(b)) == [] then [] else old(Values(b))[1..])
      ensures forall g :: g in old(handles) ==> handles[g].imp != handles[h].imp && Values(g) == old(Values(g))
    {
      CopyWithout(h, b, 1, at);
    }

    method CopyWithout(h: HandleId, b: HandleId, first: nat, at: nat)
      requires Valid() && h !in handles && b in handles && at !in heap
      modifies this
      ensures Valid() && h in handles && handles == old(handles)[h := handles[h]]
      ensures Values(h) == if first <= |old(Values(b))| then old(Values(b))[first..] else []
      ensures forall g :: g in old(handles) ==> handles[g].imp != handles[h].imp && Values(g) == old(Values(g))
    {
      hide PoolOk, ChainOk, CountsOk, UsedAt, ImpAt, Contents, ImpOk;
      SoundHandles(pool, heap, handles);
      NewList(h, false, at);
      AppendFrom(h, b, first);
    }
  
    // Marking.

    /** The values of every list that some List object keeps marked; the scan of the pool stops when all used slots are seen. */
    method MarkProtectedLists() returns (marked: seq<nat>)
      requires Valid()
      ensures forall v :: v in marked <==> exists h :: h in handles && !handles[h].needsMarking && v in Values(h)
    {
      hide PoolOk, ChainOk, CountsOk, Protects, ImpOk, Contents;
      PoolShape(pool, poolFreeList, poolUsed, released, unseen);
      ghost var visited: set<Where> := {};
      marked := [];
      var seen, used, i := 0, poolUsed, 0;
      while i < POOL_SIZE && seen < used
        invariant 0 <= i <= POOL_SIZE && seen == UsedSlots(pool, i) && seen <= used
        invariant forall j: nat :: j < i && pool[j].state == UsedInPool ==> InPool(j) in visited
        invariant Marks(pool, heap, visited, marked)
      {
        UsedSlotsBound(pool, poolFreeList, poolUsed, released, unseen, i + 1);
        if pool[i].state == UsedInPool {
          seen := seen + 1;
          SoundPart(pool, heap, handles, InPool(i));
          marked := MarkPart(InPool(i), marked, visited);
          visited := visited + {InPool(i)};
        }
        i := i + 1;
      }
      AllSlotsSeen(pool, poolFreeList, poolUsed, released, unseen, i);
      marked := MarkHeapLists(marked, visited);
      ProtectedByHandles(marked);
    }

    /** The lists kept marked are those of the handles that do not see to it themselves. */
    lemma ProtectedByHandles(marked: seq<nat>)
      requires Valid() && forall v :: v in marked <==> exists w :: Protects(pool, heap, w, v)
      ensures forall v :: v in marked <==> exists h :: h in handles && !handles[h].needsMarking && v in Values(h)
    {
      hide PoolOk, ChainOk, ImpOk, Contents, UsedAt, ImpAt;
      SoundHandles(pool, heap, handles);
      forall v
        ensures v in marked <==> exists h :: h in handles && !handles[h].needsMarking && v in Values(h)
      {
        if w :| Protects(pool, heap, w, v) {
          var h := MarkingHandle(handles, w);
          assert v in Values(h);
        }
        if h :| h in handles && !handles[h].needsMarking && v in Values(h) {
          CountedHandle(pool, heap, handles, h);
          assert Protects(pool, heap, handles[h].imp, v);
        }
      }
    }

    /** The values of one list, if it is protected. */
    method MarkPart(w: Where, marked: seq<nat>, ghost visited: set<Where>) returns (marked1: seq<nat>)
      requires UsedAt(pool, heap, w) && ImpOk(ImpAt(pool, heap, w)) && Marks(pool, heap, visited, marked)
      ensures Marks(pool, heap, visited + {w}, marked1)
    {
      hide ImpOk;
      var imp := ImpAt(pool, heap, w);
      marked1 := marked;
      if imp.valueRefCount > 0 {
        var values := ValuesOf(imp);
        marked1 := marked + values;
      }
      OneMorePart(pool, heap, visited, marked, w, marked1);
    }

    /** The lists of the heap chain, from the one linked last on. */
    method MarkHeapLists(marked0: seq<nat>, ghost visited0: set<Where>) returns (marked: seq<nat>)
      requires Valid() && Marks(pool, heap, visited0, marked0)
      requires forall i: nat :: i < |pool| && pool[i].state == UsedInPool ==> InPool(i) in visited0
      ensures forall v :: v in marked <==> exists w :: Protects(pool, heap, w, v)
    {
      hide PoolOk, ChainOk, CountsOk, Protects, ImpOk, Contents, Marks;
      ChainHead(heap, heapList, chain);
      marked := marked0;
      ghost var visited, k := visited0, |chain|;
      var l := heapList;
      while l != Null
        invariant 0 <= k <= |chain| && l == (if k == 0 then Null else To(chain[k - 1]))
        invariant visited0 <= visited && forall j :: k <= j < |chain| ==> OnHeap(chain[j]) in visited
        invariant Marks(pool, heap, visited, marked)
        decreases k
      {
        ChainNext(heap, heapList, chain, k);
        SoundPart(pool, heap, handles, OnHeap(l.at));
        marked := MarkPart(OnHeap(l.at), marked, visited);
        visited := visited + {OnHeap(l.at)};
        l := heap[l.at].next;
        k := k - 1;
      }
      EverythingVisited(pool, heap, heapList, chain, visited, marked);
    }
  }

  /** The list's values, in a sequence of their own. */
  method ValuesOf(imp: Imp) returns (s: seq<nat>)
    requires ImpOk(imp)
    ensures s == Contents(imp)
  {
    hide ImpOk, ValueAt;
    s := [];
    for i := 0 to imp.size
      invariant s == Contents(imp)[..i]
    {
      s := s + [ValueAt(imp, i)];
    }
  }

  /** The same values and capacity, whatever the counts. */
  predicate SameValues(a: Imp, b: Imp) {
    b == a.(refCount := b.refCount, valueRefCount := b.valueRefCount)
  }

  lemma PoolShape(pool: seq<Imp>, poolFreeList: Link, poolUsed: nat, released: seq<nat>, unseen: nat)
    requires PoolOk(pool, poolFreeList, poolUsed, released, unseen)
    ensures |pool| == POOL_SIZE && forall i :: 0 <= i < POOL_SIZE ==> |pool[i].words| == INLINE_VALUES_SIZE
  {}

  lemma PoolAfterUpdate(pool: seq<Imp>, poolFreeList: Link, poolUsed: nat, released: seq<nat>, unseen: nat, i: nat, imp: Imp)
    requires PoolOk(pool, poolFreeList, poolUsed, released, unseen) && i < |pool| && pool[i].state == UsedInPool
    requires imp.state == UsedInPool && |imp.words| == INLINE_VALUES_SIZE
    ensures PoolOk(pool[i := imp], poolFreeList, poolUsed, released, unseen)
  {
    assert i < unseen && i !in released;
    forall k | 0 <= k < |released|
      ensures released[k] != i
    {
      assert released[k] in released;
    }
  }

  lemma ChainAfterUpdate(heap: map<nat, HeapImp>, heapList: Link, chain: seq<nat>, at: nat, imp: Imp)
    requires ChainOk(heap, heapList, chain) && at in heap
    ensures ChainOk(heap[at := heap[at].(imp := imp)], heapList, chain)
  {}

  lemma PlaceInChain(heap: map<nat, HeapImp>, heapList: Link, chain: seq<nat>, at: nat) returns (j: nat)
    requires ChainOk(heap, heapList, chain) && at in heap
    ensures j < |chain| && chain[j] == at
  {
    assert at in chain;
    j :| 0 <= j < |chain| && chain[j] == at;
  }

  lemma ContentsIgnoreCounts(a: Imp, b: Imp)
    requires ImpOk(a) && SameValues(a, b)
    ensures ImpOk(b) && Contents(b) == Contents(a)
  {}

  /** All List objects refer to sound shared parts. */
  lemma SoundHandles(pool: seq<Imp>, heap: map<nat, HeapImp>, handles: Handles)
    requires CountsOk(pool, heap, handles)
    ensures forall h :: h in handles ==> UsedAt(pool, heap, handles[h].imp) && ImpOk(ImpAt(pool, heap, handles[h].imp))
  {}

  /** Counting changes no values. */
  lemma SameLists(pool0: seq<Imp>, heap0: map<nat, HeapImp>, handles0: Handles, pool: seq<Imp>, heap: map<nat, HeapImp>, handles: Handles)
    requires CountsOk(pool0, heap0, handles0) && CountsOk(pool, heap, handles)
    requires forall h :: h in handles0 ==> h in handles && handles[h] == handles0[h]
    requires forall x :: UsedAt(pool, heap, x) ==> UsedAt(pool0, heap0, x) && SameValues(ImpAt(pool0, heap0, x), ImpAt(pool, heap, x))
    ensures forall h :: h in handles0 ==>
      && UsedAt(pool0, heap0, handles0[h].imp) && ImpOk(ImpAt(pool0, heap0, handles0[h].imp))
      && UsedAt(pool, heap, handles0[h].imp) && ImpOk(ImpAt(pool, heap, handles0[h].imp))
      && Contents(ImpAt(pool, heap, handles0[h].imp)) == Contents(ImpAt(pool0, heap0, handles0[h].imp))
  {
    hide UsedAt, ImpAt, Contents, SameValues, ImpOk;
    forall h | h in handles0
      ensures UsedAt(pool0, heap0, handles0[h].imp) && ImpOk(ImpAt(pool0, heap0, handles0[h].imp))
      ensures UsedAt(pool, heap, handles0[h].imp) && ImpOk(ImpAt(pool, heap, handles0[h].imp))
      ensures Contents(ImpAt(pool, heap, handles0[h].imp)) == Contents(ImpAt(pool0, heap0, handles0[h].imp))
    {
      ContentsIgnoreCounts(ImpAt(pool0, heap0, handles0[h].imp), ImpAt(pool, heap, handles0[h].imp));
    }
  }

  /** The pending reference of an assignment becomes the List object's own. */
  lemma CountsAfterRenaming(pool: seq<Imp>, heap: map<nat, HeapImp>, handles: Handles, h: HandleId)
    requires CountsOk(pool, heap, handles) && Pending in handles && h !in handles
    ensures CountsOk(pool, heap, (handles - {Pending})[h := handles[Pending]])
  {
    hide Refs, ValueRefs, UsedAt, ImpAt, ImpOk;
    var renamed := (handles - {Pending})[h := handles[Pending]];
    forall w | UsedAt(pool, heap, w)
      ensures Refs(renamed, w) == Refs(handles, w) && ValueRefs(renamed, w) == ValueRefs(handles, w)
    {
      OneHandleLess(handles, Pending, w);
      OneMoreHandle(handles - {Pending}, h, handles[Pending], w);
    }
  }

  /** What an assignment does to all lists, over its two steps. */
  lemma AssignedLists(pool0: seq<Imp>, heap0: map<nat, HeapImp>, handles0: Handles, pool1: seq<Imp>, heap1: map<nat, HeapImp>,
      pool: seq<Imp>, heap: map<nat, HeapImp>, handles: Handles, h: HandleId, b: HandleId)
    requires CountsOk(pool0, heap0, handles0) && CountsOk(pool, heap, handles) && h in handles0 && b in handles0
    requires handles == handles0[h := Handle(handles0[b].imp, handles0[h].needsMarking)]
    requires forall x :: UsedAt(pool1, heap1, x) ==> UsedAt(pool0, heap0, x) && SameValues(ImpAt(pool0, heap0, x), ImpAt(pool1, heap1, x))
    requires forall x :: UsedAt(pool, heap, x) ==> UsedAt(pool1, heap1, x) && SameValues(ImpAt(pool1, heap1, x), ImpAt(pool, heap, x))
    ensures forall g :: g in handles ==>
      var w := handles0[if g == h then b else g].imp;
      && handles[g].imp == w && UsedAt(pool0, heap0, w) && ImpOk(ImpAt(pool0, heap0, w)) && UsedAt(pool, heap, w) && ImpOk(ImpAt(pool, heap, w))
      && Contents(ImpAt(pool, heap, w)) == Contents(ImpAt(pool0, heap0, w))
  {
    hide UsedAt, ImpAt, Contents, ImpOk;
    forall g | g in handles
      ensures var w := handles0[if g == h then b else g].imp;
        && handles[g].imp == w && UsedAt(pool0, heap0, w) && ImpOk(ImpAt(pool0, heap0, w)) && UsedAt(pool, heap, w) && ImpOk(ImpAt(pool, heap, w))
        && Contents(ImpAt(pool, heap, w)) == Contents(ImpAt(pool0, heap0, w))
    {
      var w := handles0[if g == h then b else g].imp;
      assert UsedAt(pool, heap, w);
      ContentsIgnoreCounts(ImpAt(pool0, heap0, w), ImpAt(pool, heap, w));
    }
  }

  /** v is a value of the list w, and some List object keeps its values marked. */
  ghost predicate Protects(pool: seq<Imp>, heap: map<nat, HeapImp>, w: Where, v: nat) {
    UsedAt(pool, heap, w) && ImpOk(ImpAt(pool, heap, w)) && ImpAt(pool, heap, w).valueRefCount > 0 && v in Contents(ImpAt(pool, heap, w))
  }

  /** The values collected from the lists visited so far. */
  ghost predicate Marks(pool: seq<Imp>, heap: map<nat, HeapImp>, visited: set<Where>, marked: seq<nat>) {
    forall v :: v in marked <==> exists w :: w in visited && Protects(pool, heap, w, v)
  }

  lemma OneMorePart(pool: seq<Imp>, heap: map<nat, HeapImp>, visited: set<Where>, marked: seq<nat>, w: Where, marked1: seq<nat>)
    requires UsedAt(pool, heap, w) && ImpOk(ImpAt(pool, heap, w)) && Marks(pool, heap, visited, marked)
    requires var imp := ImpAt(pool, heap, w); marked1 == if imp.valueRefCount > 0 then marked + Contents(imp) else marked
    ensures Marks(pool, heap, visited + {w}, marked1)
  {
    hide ImpOk, Contents;
    forall v
      ensures v in marked1 <==> exists x :: x in visited + {w} && Protects(pool, heap, x, v)
    {
      if v in marked {
        var x :| x in visited && Protects(pool, heap, x, v);
        assert x in visited + {w};
      } else if v in marked1 {
        assert w in visited + {w} && Protects(pool, heap, w, v);
      }
    }
  }

  lemma EverythingVisited(pool: seq<Imp>, heap: map<nat, HeapImp>, heapList: Link, chain: seq<nat>, visited: set<Where>, marked: seq<nat>)
    requires ChainOk(heap, heapList, chain) && Marks(pool, heap, visited, marked)
    requires forall i: nat :: i < |pool| && pool[i].state == UsedInPool ==> InPool(i) in visited
    requires forall j :: 0 <= j < |chain| ==> OnHeap(chain[j]) in visited
    ensures forall v :: v in marked <==> exists w :: Protects(pool, heap, w, v)
  {
    hide ImpOk, Contents;
    forall w | UsedAt(pool, heap, w)
      ensures w in visited
    {
      if w.OnHeap? {
        assert w.at in chain;
      }
    }
    forall v
      ensures v in marked <==> exists w :: Protects(pool, heap, w, v)
    {
      if w :| Protects(pool, heap, w, v) {
        assert w in visited;
      }
    }
  }

  // Counting used slots.

  /** The used slots among the first n. */
  function UsedSlots(pool: seq<Imp>, n: nat): nat
    requires n <= |pool|
  {
    if n == 0 then 0 else UsedSlots(pool, n - 1) + if pool[n - 1].state == UsedInPool then 1 else 0
  }

  function UsedSlotSet(pool: seq<Imp>, n: nat): (s: set<nat>)
    requires n <= |pool|
    ensures |s| == UsedSlots(pool, n) && forall i: nat :: i in s <==> i < n && pool[i].state == UsedInPool
  {
    if n == 0 then {} else if pool[n - 1].state == UsedInPool then UsedSlotSet(pool, n - 1) + {n - 1} else UsedSlotSet(pool, n - 1)
  }

  lemma {:induction false} UsedSlotsGrow(pool: seq<Imp>, m: nat, n: nat)
    requires m <= n <= |pool|
    ensures UsedSlots(pool, m) <= UsedSlots(pool, n)
    ensures UsedSlots(pool, m) == UsedSlots(pool, n) ==> forall i :: m <= i < n ==> pool[i].state != UsedInPool
  {
    if m < n {
      UsedSlotsGrow(pool, m, n - 1);
    }
  }

  /** There are poolUsed used slots. */
  lemma AllUsedSlots(pool: seq<Imp>, poolFreeList: Link, poolUsed: nat, released: seq<nat>, unseen: nat)
    requires PoolOk(pool, poolFreeList, poolUsed, released, unseen)
    ensures |pool| == POOL_SIZE && UsedSlots(pool, POOL_SIZE) == poolUsed
  {
    hide UsedSlots, UsedSlotSet, Indices, Elements;
    var used, free := UsedSlotSet(pool, POOL_SIZE), Elements(released);
    assert used + free == Indices(unseen);
    assert used !! free;
  }

  lemma UsedSlotsBound(pool: seq<Imp>, poolFreeList: Link, poolUsed: nat, released: seq<nat>, unseen: nat, n: nat)
    requires PoolOk(pool, poolFreeList, poolUsed, released, unseen) && n <= POOL_SIZE
    ensures |pool| == POOL_SIZE && UsedSlots(pool, n) <= poolUsed
  {
    AllUsedSlots(pool, poolFreeList, poolUsed, released, unseen);
    UsedSlotsGrow(pool, n, POOL_SIZE);
  }

  /** Once as many used slots have been seen as there are, none is left. */
  lemma AllSlotsSeen(pool: seq<Imp>, poolFreeList: Link, poolUsed: nat, released: seq<nat>, unseen: nat, i: nat)
    requires PoolOk(pool, poolFreeList, poolUsed, released, unseen) && i <= POOL_SIZE && |pool| == POOL_SIZE
    requires i == POOL_SIZE || UsedSlots(pool, i) >= poolUsed
    ensures forall j :: i <= j < POOL_SIZE ==> pool[j].state != UsedInPool
  {
    AllUsedSlots(pool, poolFreeList, poolUsed, released, unseen);
    UsedSlotsGrow(pool, i, POOL_SIZE);
  }

  lemma ChainHead(heap: map<nat, HeapImp>, heapList: Link, chain: seq<nat>)
    requires ChainOk(heap, heapList, chain)
    ensures heapList == if chain == [] then Null else To(chain[|chain| - 1])
  {}

  lemma ChainNext(heap: map<nat, HeapImp>, heapList: Link, chain: seq<nat>, k: nat)
    requires ChainOk(heap, heapList, chain) && 0 < k <= |chain|
    ensures chain[k - 1] in heap && heap[chain[k - 1]].next == if k == 1 then Null else To(chain[k - 2])
  {
    assert Linked(heap[chain[k - 1]], chain, k - 1);
  }
}
