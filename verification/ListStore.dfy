/** The stores argument lists live in (list.cpp): a pool with a lazily linked free list, and a chain of heap overflow. */
module ListStore {
  import opened FiniteSets

  const POOL_SIZE: nat := 512
  const INLINE_VALUES_SIZE: nat := 4

  /** A machine word of the union of inline values and free-list link: null, a pool pointer, or a value. */
  datatype Word = Nil | Slot(k: nat) | Value(v: nat)

  datatype State = UnusedInPool | UsedInPool | UsedOnHeap

  /** The shared part of a list: counts, and inline values (or the link) plus overflow. */
  datatype Imp = Imp(size: nat, refCount: nat, valueRefCount: nat, state: State, capacity: nat, overflow: seq<nat>, words: seq<Word>)

  /** A pointer to a list's shared part. */
  datatype Where = InPool(i: nat) | OnHeap(at: nat)

  datatype Link = Null | To(at: nat)

  datatype HeapImp = HeapImp(imp: Imp, next: Link, prev: Link)

  function Untouched(): Imp {
    Imp(0, 0, 0, UnusedInPool, 0, [], [Nil, Nil, Nil, Nil])
  }

  // The pool's free list: released slots, the last one first, then all slots from unseen on, linked by null.

  function After(released: seq<nat>, unseen: nat, k: nat): nat
    requires k < |released|
  {
    if k == 0 then unseen else released[k - 1]
  }

  function First(released: seq<nat>, unseen: nat): nat {
    if released == [] then unseen else released[|released| - 1]
  }

  /** Untouched slots have a null link. */
  ghost predicate SlotShapes(pool: seq<Imp>, unseen: nat) {
    && |pool| == POOL_SIZE && (forall i :: 0 <= i < POOL_SIZE ==> |pool[i].words| == 4)
    && (forall i :: unseen <= i < POOL_SIZE ==> pool[i].words[0] == Nil)
  }

  /** Released slots point to the one released before, the first of them to the untouched ones. */
  ghost predicate PoolLinks(pool: seq<Imp>, released: seq<nat>, unseen: nat) {
    && SlotShapes(pool, unseen)
    && (forall k :: 0 <= k < |released| ==> released[k] < POOL_SIZE && pool[released[k]].words[0] == Slot(After(released, unseen, k)))
  }

  /** The used slots are those touched and not released. */
  ghost predicate PoolStates(pool: seq<Imp>, released: seq<nat>, unseen: nat) {
    && |pool| == POOL_SIZE
    && forall i :: 0 <= i < POOL_SIZE ==> pool[i].state == if i < unseen && i !in released then UsedInPool else UnusedInPool
  }

  /** The free chain is the released slots followed by the untouched suffix, and these are exactly the unused slots. */
  ghost predicate PoolOk(pool: seq<Imp>, poolFreeList: Link, poolUsed: nat, released: seq<nat>, unseen: nat) {
    && PoolLinks(pool, released, unseen) && PoolStates(pool, released, unseen)
    && unseen <= POOL_SIZE && NoDuplicates(released) && |released| <= unseen && poolUsed == unseen - |released|
    && (forall k :: 0 <= k < |released| ==> released[k] < unseen)
    && (poolFreeList == To(First(released, unseen)) || (poolFreeList == Null && unseen == 0))
  }

  /** An untouched pool. */
  lemma EmptyPoolIsOk()
    ensures PoolOk(seq(POOL_SIZE, _ => Untouched()), Null, 0, [], 0)
  {}

  /** The state after taking the first free slot. */
  ghost predicate Taken(released: seq<nat>, unseen: nat, released1: seq<nat>, unseen1: nat, i: nat) {
    if released == [] then i == unseen && released1 == [] && unseen1 == unseen + 1
    else i == released[|released| - 1] && released1 == released[..|released| - 1] && unseen1 == unseen
  }

  lemma FirstSlot(pool: seq<Imp>, poolFreeList: Link, poolUsed: nat, released: seq<nat>, unseen: nat)
    requires PoolOk(pool, poolFreeList, poolUsed, released, unseen) && poolUsed < POOL_SIZE
    ensures |pool| == POOL_SIZE && forall i :: 0 <= i < POOL_SIZE ==> |pool[i].words| == 4
    ensures var i, w := First(released, unseen), pool[if poolFreeList == Null then 0 else poolFreeList.at].words[0];
      && |pool| == POOL_SIZE && (poolFreeList != Null ==> poolFreeList.at < POOL_SIZE)
      && i < POOL_SIZE && i == (if poolFreeList == Null then 0 else poolFreeList.at) && pool[i].state == UnusedInPool
      && w == if released == [] then Nil else Slot(After(released, unseen, |released| - 1))
  {}

  lemma StatesAfterTaking(pool: seq<Imp>, released: seq<nat>, unseen: nat, released1: seq<nat>, unseen1: nat, i: nat)
    requires PoolStates(pool, released, unseen) && NoDuplicates(released) && i < POOL_SIZE && Taken(released, unseen, released1, unseen1, i)
    requires forall k :: 0 <= k < |released| ==> released[k] < unseen
    ensures PoolStates(pool[i := pool[i].(state := UsedInPool)], released1, unseen1)
  {
    if released != [] {
      assert released == released1 + [i];
    }
  }

  lemma LinksAfterTaking(pool: seq<Imp>, released: seq<nat>, unseen: nat, released1: seq<nat>, unseen1: nat, i: nat)
    requires PoolLinks(pool, released, unseen) && i < POOL_SIZE && Taken(released, unseen, released1, unseen1, i)
    ensures PoolLinks(pool[i := pool[i].(state := UsedInPool)], released1, unseen1)
  {
    forall k | 0 <= k < |released1|
      ensures After(released1, unseen1, k) == After(released, unseen, k) && released1[k] == released[k]
    {}
  }

  /** allocateListImp's pool branch: a null link stands for the next slot. */
  method TakeSlot(pool: seq<Imp>, poolFreeList: Link, poolUsed: nat, ghost released: seq<nat>, ghost unseen: nat)
    returns (i: nat, pool1: seq<Imp>, poolFreeList1: Link, poolUsed1: nat, ghost released1: seq<nat>, ghost unseen1: nat)
    requires PoolOk(pool, poolFreeList, poolUsed, released, unseen) && poolUsed < POOL_SIZE
    ensures PoolOk(pool1, poolFreeList1, poolUsed1, released1, unseen1) && poolUsed1 == poolUsed + 1
    ensures i < POOL_SIZE && |pool| == POOL_SIZE && pool[i].state == UnusedInPool && pool1 == pool[i := pool[i].(state := UsedInPool)]
    ensures Taken(released, unseen, released1, unseen1, i)
  {
    hide PoolLinks, PoolStates;
    FirstSlot(pool, poolFreeList, poolUsed, released, unseen);
    i := if poolFreeList != Null then poolFreeList.at else 0;
    var next := pool[i].words[0];
    poolFreeList1 := To(if next.Slot? then next.k else i + 1);
    pool1 := pool[i := pool[i].(state := UsedInPool)];
    poolUsed1 := poolUsed + 1;
    if released == [] {
      released1, unseen1 := [], unseen + 1;
    } else {
      released1, unseen1 := released[..|released| - 1], unseen;
    }
    StatesAfterTaking(pool, released, unseen, released1, unseen1, i);
    LinksAfterTaking(pool, released, unseen, released1, unseen1, i);
  }

  /** A used slot is not among the released ones, so these are fewer than the touched ones. */
  lemma UsedFit(released: seq<nat>, unseen: nat, i: nat)
    requires NoDuplicates(released) && (forall k :: 0 <= k < |released| ==> released[k] < unseen) && i < unseen && i !in released
    ensures |released| < unseen && NoDuplicates(released + [i])
  {
    Pigeonhole(released + [i], unseen);
  }

  /** A slot put back, with its word for the link changed. */
  function Returned(imp: Imp, link: Word): Imp
    requires |imp.words| == 4
  {
    imp.(overflow := [], capacity := 0, state := UnusedInPool, words := imp.words[0 := link])
  }

  /** A released slot still has its link when another one is put back. */
  lemma LinkStays(pool: seq<Imp>, released: seq<nat>, unseen: nat, i: nat, k: nat)
    requires PoolLinks(pool, released, unseen) && i !in released && k < |released|
    ensures released[k] < POOL_SIZE == |pool| && released[k] != i
    ensures pool[released[k]].words[0] == Slot(After(released + [i], unseen, k)) && |pool[released[k]].words| == 4
  {
    assert released[k] in released;
  }

  lemma ShapeStays(pool: seq<Imp>, released: seq<nat>, unseen: nat, i: nat, imp: Imp)
    requires PoolLinks(pool, released, unseen) && i < unseen && i < |pool| && |imp.words| == 4
    ensures SlotShapes(pool[i := imp], unseen)
  {}

  lemma LinksAfterReturning(pool: seq<Imp>, released: seq<nat>, unseen: nat, i: nat, imp: Imp)
    requires PoolLinks(pool, released, unseen) && i < unseen && i < |pool| && i !in released
    requires |imp.words| == 4 && imp.words[0] == Slot(First(released, unseen))
    ensures PoolLinks(pool[i := imp], released + [i], unseen)
  {
    hide PoolLinks;
    var pool1, r := pool[i := imp], released + [i];
    ShapeStays(pool, released, unseen, i, imp);
    forall k | 0 <= k < |r|
      ensures r[k] < POOL_SIZE && pool1[r[k]].words[0] == Slot(After(r, unseen, k))
    {
      if k < |released| {
        LinkStays(pool, released, unseen, i, k);
      }
    }
    LinksFromParts(pool1, r, unseen);
  }

  lemma LinksFromParts(pool: seq<Imp>, released: seq<nat>, unseen: nat)
    requires SlotShapes(pool, unseen)
    requires forall k :: 0 <= k < |released| ==> released[k] < POOL_SIZE && pool[released[k]].words[0] == Slot(After(released, unseen, k))
    ensures PoolLinks(pool, released, unseen)
  {}

  lemma StatesAfterReturning(pool: seq<Imp>, released: seq<nat>, unseen: nat, i: nat, link: Word)
    requires PoolStates(pool, released, unseen) && i < POOL_SIZE && |pool[i].words| == 4
    ensures PoolStates(pool[i := Returned(pool[i], link)], released + [i], unseen)
  {}

  lemma UsedSlot(pool: seq<Imp>, released: seq<nat>, unseen: nat, i: nat)
    requires PoolStates(pool, released, unseen) && PoolLinks(pool, released, unseen) && i < POOL_SIZE && pool[i].state == UsedInPool
    ensures i < unseen && i !in released && |pool[i].words| == 4
  {}

  /** release's pool branch: the slot goes to the front. */
  method ReturnSlot(pool: seq<Imp>, poolFreeList: Link, poolUsed: nat, i: nat, ghost released: seq<nat>, ghost unseen: nat)
    returns (pool1: seq<Imp>, poolFreeList1: Link, poolUsed1: nat)
    requires PoolOk(pool, poolFreeList, poolUsed, released, unseen) && i < POOL_SIZE && |pool| == POOL_SIZE && pool[i].state == UsedInPool
    ensures PoolOk(pool1, poolFreeList1, poolUsed1, released + [i], unseen) && poolUsed1 == poolUsed - 1
    ensures |pool1| == POOL_SIZE && pool1[i].state == UnusedInPool
    ensures forall j :: 0 <= j < POOL_SIZE && j != i ==> pool1[j] == pool[j]
  {
    hide PoolLinks, PoolStates, NoDuplicates;
    UsedSlot(pool, released, unseen, i);
    UsedFit(released, unseen, i);
    var link := if poolFreeList == Null then Nil else Slot(poolFreeList.at);
    pool1 := pool[i := Returned(pool[i], link)];
    poolFreeList1, poolUsed1 := To(i), poolUsed - 1;
    LinksAfterReturning(pool, released, unseen, i, pool1[i]);
    StatesAfterReturning(pool, released, unseen, i, link);
  }

  // The heap chain, the list linked last at its end.

  /** The links of the k-th list. */
  ghost predicate Linked(h: HeapImp, chain: seq<nat>, k: nat)
    requires k < |chain|
  {
    && h.next == (if k == 0 then Null else To(chain[k - 1]))
    && h.prev == (if k + 1 == |chain| then Null else To(chain[k + 1]))
  }

  /** The heap lists, each linked to its neighbours. */
  ghost predicate ChainOk(heap: map<nat, HeapImp>, heapList: Link, chain: seq<nat>) {
    && NoDuplicates(chain) && (forall p :: p in chain <==> p in heap)
    && heapList == (if chain == [] then Null else To(chain[|chain| - 1]))
    && (forall k :: 0 <= k < |chain| ==> chain[k] in heap && Linked(heap[chain[k]], chain, k))
  }

  lemma LinkedAbove(h: HeapImp, chain: seq<nat>, k: nat, at: nat)
    requires k < |chain| && Linked(h, chain, k)
    ensures Linked(if k + 1 == |chain| then h.(prev := To(at)) else h, chain + [at], k)
  {}

  lemma OnlyAt(chain: seq<nat>, j: int)
    requires NoDuplicates(chain)
    ensures 0 <= j < |chain| ==> forall k :: 0 <= k < |chain| && chain[k] == chain[j] ==> k == j
  {}

  /** Links a new list in front. */
  method LinkInFront(heap: map<nat, HeapImp>, heapList: Link, at: nat, imp: Imp, ghost chain: seq<nat>)
    returns (heap1: map<nat, HeapImp>, heapList1: Link)
    requires ChainOk(heap, heapList, chain) && at !in heap
    ensures ChainOk(heap1, heapList1, chain + [at])
    ensures heap1.Keys == heap.Keys + {at} && heap1[at].imp == imp
    ensures forall p :: p in heap ==> heap1[p].imp == heap[p].imp
  {
    hide Linked, NoDuplicates;
    OnlyAt(chain, |chain| - 1);
    heap1 := heap;
    if heapList != Null {
      assert chain[|chain| - 1] in heap;
      heap1 := heap1[heapList.at := heap1[heapList.at].(prev := To(at))];
    }
    heap1 := heap1[at := HeapImp(imp, heapList, Null)];
    heapList1 := To(at);
    LinkedInFront(heap, chain, at, heap1);
  }

  lemma LinkedInFront(heap: map<nat, HeapImp>, chain: seq<nat>, at: nat, heap1: map<nat, HeapImp>)
    requires NoDuplicates(chain) && (forall p :: p in chain <==> p in heap) && at !in heap && heap1.Keys == heap.Keys + {at}
    requires forall k :: 0 <= k < |chain| ==> chain[k] in heap && Linked(heap[chain[k]], chain, k)
    requires heap1[at].prev == Null && heap1[at].next == if chain == [] then Null else To(chain[|chain| - 1])
    requires forall k :: 0 <= k < |chain| ==>
      heap1[chain[k]] == if k + 1 == |chain| then heap[chain[k]].(prev := To(at)) else heap[chain[k]]
    ensures NoDuplicates(chain + [at]) && (forall p :: p in chain + [at] <==> p in heap1)
    ensures forall k :: 0 <= k < |chain + [at]| ==> (chain + [at])[k] in heap1 && Linked(heap1[(chain + [at])[k]], chain + [at], k)
  {
    hide Linked;
    var c := chain + [at];
    forall k | 0 <= k < |c|
      ensures c[k] in heap1 && Linked(heap1[c[k]], c, k)
    {
      if k < |chain| {
        LinkedAbove(heap[chain[k]], chain, k, at);
      } else {
        LinkedLast(heap1[at], c);
      }
    }
  }

  lemma LinkedLast(h: HeapImp, chain: seq<nat>)
    requires |chain| > 0 && h.prev == Null && h.next == if |chain| == 1 then Null else To(chain[|chain| - 2])
    ensures Linked(h, chain, |chain| - 1)
  {}

  /** The links of a list after its neighbour, or another one, has gone. */
  lemma LinkedAfterRemoval(h: HeapImp, hj: HeapImp, h1: HeapImp, chain: seq<nat>, j: nat, k0: nat, k: nat)
    requires j < |chain| && k0 < |chain| && k0 != j && Linked(h, chain, k0) && Linked(hj, chain, j)
    requires k == (if k0 < j then k0 else k0 - 1)
    requires h1.next == (if k0 == j + 1 then hj.next else h.next) && h1.prev == (if k0 + 1 == j then hj.prev else h.prev)
    ensures k < |chain| - 1 && Linked(h1, chain[..j] + chain[j + 1..], k)
  {}

  lemma ChainWithout(chain: seq<nat>, j: nat)
    requires j < |chain| && NoDuplicates(chain)
    ensures var c := chain[..j] + chain[j + 1..];
      && NoDuplicates(c) && (forall p :: p in c <==> p in chain && p != chain[j])
      && (forall k :: 0 <= k < |c| ==> c[k] == chain[if k < j then k else k + 1])
  {
    var c := chain[..j] + chain[j + 1..];
    forall p
      ensures p in c <==> p in chain && p != chain[j]
    {
      if p in chain && p != chain[j] {
        var k :| 0 <= k < |chain| && chain[k] == p;
        assert c[if k < j then k else k - 1] == p;
      }
    }
  }

  lemma Unlinked(heap: map<nat, HeapImp>, chain: seq<nat>, j: nat, heap1: map<nat, HeapImp>)
    requires j < |chain| && NoDuplicates(chain) && (forall p :: p in chain <==> p in heap)
    requires forall k :: 0 <= k < |chain| ==> chain[k] in heap && Linked(heap[chain[k]], chain, k)
    requires heap1.Keys == heap.Keys - {chain[j]}
    requires forall k :: 0 <= k < |chain| && k != j ==>
      && chain[k] in heap1
      && heap1[chain[k]].next == (if k == j + 1 then heap[chain[j]].next else heap[chain[k]].next)
      && heap1[chain[k]].prev == (if k + 1 == j then heap[chain[j]].prev else heap[chain[k]].prev)
    ensures var c := chain[..j] + chain[j + 1..];
      && NoDuplicates(c) && (forall p :: p in c <==> p in heap1)
      && (forall k :: 0 <= k < |c| ==> c[k] in heap1 && Linked(heap1[c[k]], c, k))
  {
    hide Linked, NoDuplicates;
    ChainWithout(chain, j);
    var c := chain[..j] + chain[j + 1..];
    forall k | 0 <= k < |c|
      ensures c[k] in heap1 && Linked(heap1[c[k]], c, k)
    {
      var k0 := if k < j then k else k + 1;
      LinkedAfterRemoval(heap[chain[k0]], heap[chain[j]], heap1[chain[k0]], chain, j, k0, k);
    }
  }

  lemma LinksOf(h: HeapImp, chain: seq<nat>, k: nat)
    requires k < |chain| && Linked(h, chain, k)
    ensures h.next == (if k == 0 then Null else To(chain[k - 1]))
    ensures h.prev == (if k + 1 == |chain| then Null else To(chain[k + 1]))
  {}

  /** Unlinks a list from wherever it stands. */
  method Unlink(heap: map<nat, HeapImp>, heapList: Link, at: nat, ghost chain: seq<nat>, ghost j: nat)
    returns (heap1: map<nat, HeapImp>, heapList1: Link)
    requires ChainOk(heap, heapList, chain) && at in heap && j < |chain| && chain[j] == at
    ensures ChainOk(heap1, heapList1, chain[..j] + chain[j + 1..]) && heap1.Keys == heap.Keys - {at}
    ensures forall p :: p in heap1 ==> heap1[p].imp == heap[p].imp
  {
    hide NoDuplicates, Linked;
    OnlyAt(chain, j);
    OnlyAt(chain, j - 1);
    OnlyAt(chain, j + 1);
    LinksOf(heap[at], chain, j);
    if j > 0 {
      assert chain[j - 1] in heap;
    }
    if j + 1 < |chain| {
      assert chain[j + 1] in heap;
    }
    var list := heap[at];
    heap1, heapList1 := heap, heapList;
    if list.prev == Null {
      heapList1 := list.next;
      if heapList1 != Null {
        heap1 := heap1[heapList1.at := heap1[heapList1.at].(prev := Null)];
      }
    } else {
      heap1 := heap1[list.prev.at := heap1[list.prev.at].(next := list.next)];
      if list.next != Null {
        heap1 := heap1[list.next.at := heap1[list.next.at].(prev := list.prev)];
      }
    }
    heap1 := heap1 - {at};
    Unlinked(heap, chain, j, heap1);
  }
}
