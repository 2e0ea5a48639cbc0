/** The garbage-collected heap (collector.cpp): allocation, protection, conservative marking, sweep. */
module Collector {
  import opened FiniteSets
  import opened Slabs
  import opened Reachability
  import opened HeapState
  import opened HeapSweep
  import opened CountedSets
  import opened CollectorRuns

  const SPARE_EMPTY_BLOCKS: nat := 2
  const MIN_ARRAY_SIZE: nat := 14
  const GROWTH_FACTOR: nat := 2
  const LOW_WATER_FACTOR: nat := 4
  const ALLOCATIONS_PER_COLLECTION: nat := 1000
  const KJS_MEM_LIMIT: nat := 500000

  class Heap {
    /** The block structs and oversize cells by address. */
    var mem: Memory
    var big: map<nat, Cell>
    /** The blocks' free lists. */
    ghost var chains: Chains

    var blocks: seq<nat>
    var numBlocks: nat
    var firstBlockWithPossibleSpace: nat
    var oversizeCells: seq<nat>
    var numOversizeCells: nat
    var numLiveObjects: nat
    var numLiveObjectsAtLastCollect: nat
    var memoryFull: bool
    var protectedValues: map<Addr, nat>

    constructor ()
      ensures Valid() && Objects() == map[] && RawCells() == {} && protectedValues == map[]
    {
      mem, big, chains := map[], map[], map[];
      blocks, numBlocks, firstBlockWithPossibleSpace := [], 0, 0;
      oversizeCells, numOversizeCells := [], 0;
      numLiveObjects, numLiveObjectsAtLastCollect, memoryFull := 0, 0, false;
      protectedValues := map[];
      new;
      assert Objects().Keys == {};
    }

    ghost function Objects(): Graph
      reads `mem, `big
    {
      GraphOf(mem, big)
    }

    ghost function Marked(): set<Addr>
      reads `mem, `big
    {
      MarkedOf(mem, big)
    }

    ghost function RawCells(): set<Addr>
      reads `mem, `big, `chains
    {
      RawOf(mem, chains, big)
    }

    /** Used cells by block, and the oversize cells. */
    ghost function Uses(): (map<nat, nat>, set<nat>)
      reads `mem, `big
    {
      (UsesOf(mem), big.Keys)
    }

    lemma RawNotObjects()
      ensures RawCells() !! Objects().Keys
    {
      RawAreNotObjects(mem, chains, big);
    }

    ghost predicate Structure()
      reads `mem, `big, `chains, `blocks, `oversizeCells
    {
      && FreeLists(mem, chains) && Lists(blocks, mem) && Lists(oversizeCells, big)
      && BlocksApart(mem) && CellsApart(mem, big)
    }

    /** Counters, table capacities and the search index. */
    ghost predicate Counted()
      reads `mem, `blocks, `firstBlockWithPossibleSpace, `numLiveObjects, `numLiveObjectsAtLastCollect, `numBlocks, `numOversizeCells, `oversizeCells
    {
      && Searchable(mem, blocks, firstBlockWithPossibleSpace)
      && numLiveObjects == Used(mem, blocks) + |oversizeCells| && numLiveObjectsAtLastCollect <= numLiveObjects
      && |blocks| <= numBlocks && |oversizeCells| <= numOversizeCells
    }

    ghost predicate Valid()
      reads this
    {
      Structure() && Counted() && Marked() == {} && protectedValues.Keys <= Objects().Keys
      && forall a :: a in protectedValues ==> protectedValues[a] > 0
    }

    // Marking.

    /** Sets one object's mark (JSCell::mark). */
    method SetMark(a: Addr)
      requires Structure() && a in Objects()
      modifies `mem, `big
      ensures Structure() && Objects() == old(Objects()) && RawCells() == old(RawCells()) && Uses() == old(Uses())
      ensures Marked() == old(Marked()) + {a}
    {
      hide GraphOf, MarkedOf, RawOf, FreeLists, Lists, BlocksApart, CellsApart, SameObjects;
      ghost var mem0, big0 := mem, big;
      match a {
        case Slab(b, i) =>
          mem := mem[b := mem[b].(cells := mem[b].cells[i := SetMarked(mem[b].cells[i])])];
        case Oversize(p) =>
          big := big[p := SetMarked(big[p])];
      }
      MarkKeepsStructure(mem0, chains, blocks, big0, oversizeCells, mem, big, a);
      MarkedCell(mem0, big0, mem, big, a);
      SameObjectsSameGraph(mem0, chains, big0, mem, big);
      MarkAdded(mem0, big0, mem, big, a);
    }

    function ObjectAt(a: Addr): (o: Object)
      requires a in Objects()
      reads `mem, `big
      ensures o == Objects()[a]
    {
      CellAt(mem, big, a).o
    }

    predicate IsMarked(a: Addr)
      requires a in Objects()
      reads `mem, `big
      ensures IsMarked(a) <==> a in Marked()
    {
      CellAt(mem, big, a).marked
    }

    /** The virtual mark: an activation visits its early references before it is marked as other objects are. */
    method Mark(a: Addr, ghost s: set<Addr>, ghost rank: Addr -> nat)
      requires Structure() && SelfContained(Objects(), s) && Falls(Objects(), s, rank) && a in s && a !in Marked()
      modifies `mem, `big
      ensures Structure() && Objects() == old(Objects()) && RawCells() == old(RawCells()) && Uses() == old(Uses())
      ensures MarksFrom(Objects(), a, old(Marked()), Marked()) && a in Marked()
      decreases |Objects().Keys - Marked()|, 0, if Objects()[a].kind.Activation? then 2 * rank(a) + 2 else 0
    {
      hide Structure, RawCells, Uses, SelfContained, Falls, MarksUnder, MarksFrom, Children, Marked, Objects, IsMarked, ObjectAt;
      ghost var g, m0, uses, raw := Objects(), Marked(), Uses(), RawCells();
      ChildrenAreObjects(g, s, rank, a);
      var o := ObjectAt(a);
      MarksUnderStarts(g, a, m0);
      if o.kind.Activation? {
        MarkEarly(a, m0, s, rank);
      }
      MarksGrow(g, a, m0, Marked());
      FewerUnmarked(g, m0, Marked() + {a});
      MarkObject(a, m0, s, rank);
      AllChildrenMarked(o, Marked());
      MarksUnderEnds(g, a, m0, Marked());
    }

    /** The early references of an activation: function, arguments, arguments object. */
    method MarkEarly(a: Addr, ghost m0: set<Addr>, ghost s: set<Addr>, ghost rank: Addr -> nat)
      requires Structure() && SelfContained(Objects(), s) && Falls(Objects(), s, rank) && a in s
      requires Marked() == m0 && MarksUnder(Objects(), a, m0, m0)
      modifies `mem, `big
      ensures Structure() && Objects() == old(Objects()) && RawCells() == old(RawCells()) && Uses() == old(Uses())
      ensures MarksUnder(Objects(), a, m0, Marked()) && a in Objects()
      ensures forall j :: 0 <= j < |Objects()[a].early| ==> Objects()[a].early[j] in Marked()
      decreases |Objects().Keys - Marked()|, 0, 2 * rank(a) + 1
    {
      hide Structure, RawCells, Uses, SelfContained, Falls, MarksUnder, MarksFrom, Children, Marked, Objects, IsMarked, ObjectAt;
      ghost var g, uses, raw := Objects(), Uses(), RawCells();
      ChildrenAreObjects(g, s, rank, a);
      var o := ObjectAt(a);
      var k := 0;
      while k < |o.early|
        invariant 0 <= k <= |o.early| && Structure() && Objects() == g && Uses() == uses && RawCells() == raw
        invariant MarksUnder(g, a, m0, Marked()) && forall j :: 0 <= j < k ==> o.early[j] in Marked()
      {
        var c := o.early[k];
        if !IsMarked(c) {
          ghost var m1 := Marked();
          MarksGrow(g, a, m0, m1);
          FewerUnmarked(g, m0, m1);
          Mark(c, s, rank);
          MarksGrow(g, c, m1, Marked());
          MarksUnderChild(g, a, c, m0, m1, Marked());
        }
        k := k + 1;
      }
    }

    /** JSObject::mark: sets the object's own mark, whether or not it has it by now, and visits the rest. */
    method MarkObject(a: Addr, ghost m0: set<Addr>, ghost s: set<Addr>, ghost rank: Addr -> nat)
      requires Structure() && SelfContained(Objects(), s) && Falls(Objects(), s, rank) && a in s
      requires MarksUnder(Objects(), a, m0, Marked())
      modifies `mem, `big
      ensures Structure() && Objects() == old(Objects()) && RawCells() == old(RawCells()) && Uses() == old(Uses())
      ensures MarksUnder(Objects(), a, m0, Marked()) && old(Marked()) <= Marked() && a in Marked()
      ensures forall j :: 0 <= j < |Objects()[a].late| ==> Objects()[a].late[j] in Marked()
      decreases |Objects().Keys - (Marked() + {a})|, 1, 0
    {
      hide Structure, RawCells, Uses, SelfContained, Falls, MarksUnder, MarksFrom, Children, Marked, Objects, IsMarked, ObjectAt;
      ghost var g, ma, uses, raw := Objects(), Marked() + {a}, Uses(), RawCells();
      ChildrenAreObjects(g, s, rank, a);
      var o := ObjectAt(a);
      MarksUnderSelf(g, a, m0, Marked());
      SetMark(a);
      var k := 0;
      while k < |o.late|
        invariant 0 <= k <= |o.late| && Structure() && Objects() == g && Uses() == uses && RawCells() == raw
        invariant MarksUnder(g, a, m0, Marked()) && ma <= Marked() && forall j :: 0 <= j < k ==> o.late[j] in Marked()
      {
        var c := o.late[k];
        if !IsMarked(c) {
          ghost var m1 := Marked();
          FewerUnmarked(g, ma, m1);
          Mark(c, s, rank);
          MarksGrow(g, c, m1, Marked());
          MarksUnderChild(g, a, c, m0, m1, Marked());
        }
        k := k + 1;
      }
    }
  
    // The roots.

    /** The first block that x points to a cell of, by unsigned distance. */
    method ScanBlocks(x: nat) returns (k: nat)
      requires Structure() && x < ADDRESS_SPACE
      ensures k <= |blocks| && (k < |blocks| ==> InBlock(x, blocks[k])) && forall j :: 0 <= j < k ==> !InBlock(x, blocks[j])
    {
      hide InBlock, FreeLists, CellsApart;
      var lastCellOffset := CELL_SIZE * (CELLS - 1);
      k := 0;
      while k < |blocks|
        invariant 0 <= k <= |blocks| && forall j :: 0 <= j < k ==> !InBlock(x, blocks[j])
      {
        var offset := (x - blocks[k]) % ADDRESS_SPACE;
        assert blocks[k] in mem;
        OffsetTest(x, blocks[k], offset);
        if offset <= lastCellOffset && offset % CELL_SIZE == 0 {
          return;
        }
        k := k + 1;
      }
    }

    /** The conservative pointer test: is x the address of a cell? */
    method FindCell(x: nat) returns (found: bool, a: Addr)
      requires Structure() && x < ADDRESS_SPACE
      ensures found ==> Has(mem, big, a) && WordOf(a) == x
      ensures !found ==> forall c :: Has(mem, big, c) ==> WordOf(c) != x
    {
      hide FreeLists;
      if x % 8 == 0 && x != 0 {
        var k := ScanBlocks(x);
        if k < |blocks| {
          assert blocks[k] in mem && |mem[blocks[k]].cells| == CELLS by { FullBlock(mem, chains, blocks[k]); }
          return true, Slab(blocks[k], (x - blocks[k]) / CELL_SIZE);
        }
        k := 0;
        while k < |oversizeCells|
          invariant 0 <= k <= |oversizeCells| && forall j :: 0 <= j < k ==> oversizeCells[j] != x
        {
          if x == oversizeCells[k] {
            return true, Oversize(x);
          }
          k := k + 1;
        }
        NoCell(mem, big, blocks, oversizeCells, x);
      } else {
        MisalignedWord(mem, big, x);
      }
      return false, Oversize(0);
    }

    /** Marks an object unless it is marked. */
    method Visit(a: Addr, ghost roots: set<Addr>, ghost s: set<Addr>, ghost rank: Addr -> nat)
      requires Structure() && SelfContained(Objects(), s) && Falls(Objects(), s, rank) && a in s
      requires MarksFromRoots(Objects(), roots, Marked())
      modifies `mem, `big
      ensures Structure() && Objects() == old(Objects()) && RawCells() == old(RawCells()) && Uses() == old(Uses())
      ensures MarksFromRoots(Objects(), roots + {a}, Marked())
    {
      hide MarksFromRoots, MarksFrom, Structure, GraphOf, MarkedOf, RawCells, SelfContained, Falls;
      ghost var m := Marked();
      InsideHeap(Objects(), s, a);
      if !IsMarked(a) {
        Mark(a, s, rank);
      }
      OneMoreRoot(Objects(), roots, a, m, Marked());
    }
  
    /** Marks from every stack word that passes the pointer test and points to a constructed object. */
    method MarkStackObjectsConservatively(words: seq<nat>, ghost roots: set<Addr>, ghost s: set<Addr>, ghost rank: Addr -> nat)
      requires Structure() && SelfContained(Objects(), s) && Falls(Objects(), s, rank) && PointedTo(Objects(), words) <= s
      requires forall k :: 0 <= k < |words| ==> words[k] < ADDRESS_SPACE
      requires MarksFromRoots(Objects(), roots, Marked())
      modifies `mem, `big
      ensures Structure() && Objects() == old(Objects()) && RawCells() == old(RawCells()) && Uses() == old(Uses())
      ensures MarksFromRoots(Objects(), roots + PointedTo(Objects(), words), Marked())
    {
      hide MarksFromRoots, GraphOf, MarkedOf, RawCells, SelfContained, Falls, Uses, PointedTo, FreeLists, Lists, BlocksApart, CellsApart;
      ghost var g, uses, raw := Objects(), Uses(), RawCells();
      NothingYet(g, words, [], roots);
      var k := 0;
      while k < |words|
        invariant 0 <= k <= |words| && Structure() && Objects() == g && Uses() == uses && RawCells() == raw
        invariant MarksFromRoots(g, roots + PointedTo(g, words[..k]), Marked())
      {
        var found, a := FindCell(words[k]);
        OneMoreWord(mem, chains, big, words, k, found, a, roots);
        if found && CellAt(mem, big, a).Live? {
          WordPoints(g, words, k, a);
          Visit(a, roots + PointedTo(g, words[..k]), s, rank);
        }
        k := k + 1;
      }
      assert words[..k] == words;
    }

    /** Marks from every listed object. */
    method MarkEach(list: seq<Addr>, ghost roots: set<Addr>, ghost s: set<Addr>, ghost rank: Addr -> nat)
      requires Structure() && SelfContained(Objects(), s) && Falls(Objects(), s, rank)
      requires forall k :: 0 <= k < |list| ==> list[k] in s
      requires MarksFromRoots(Objects(), roots, Marked())
      modifies `mem, `big
      ensures Structure() && Objects() == old(Objects()) && RawCells() == old(RawCells()) && Uses() == old(Uses())
      ensures MarksFromRoots(Objects(), roots + Listed(list), Marked())
    {
      hide MarksFromRoots, Structure, GraphOf, MarkedOf, RawCells, SelfContained, Falls, Uses, Listed;
      ghost var g, uses, raw := Objects(), Uses(), RawCells();
      NothingYet(g, [], list, roots);
      for k := 0 to |list|
        invariant Structure() && Objects() == g && Uses() == uses && RawCells() == raw
        invariant MarksFromRoots(g, roots + Listed(list[..k]), Marked())
      {
        Visit(list[k], roots + Listed(list[..k]), s, rank);
        OneMoreListed(list, k, roots);
      }
      assert list[..|list|] == list;
    }

    /** Marks from every protected value, in whatever order the table yields them. */
    method MarkProtectedObjects(ghost roots: set<Addr>, ghost s: set<Addr>, ghost rank: Addr -> nat)
      requires Structure() && SelfContained(Objects(), s) && Falls(Objects(), s, rank) && protectedValues.Keys <= s
      requires MarksFromRoots(Objects(), roots, Marked())
      modifies `mem, `big
      ensures Structure() && Objects() == old(Objects()) && RawCells() == old(RawCells()) && Uses() == old(Uses())
      ensures MarksFromRoots(Objects(), roots + protectedValues.Keys, Marked())
    {
      hide MarksFromRoots, Structure, GraphOf, MarkedOf, RawCells, SelfContained, Falls, Uses, Objects, Marked;
      ghost var g, uses, raw := Objects(), Uses(), RawCells();
      var rest := protectedValues.Keys;
      ghost var seen := {};
      assert roots + seen == roots;
      while rest != {}
        invariant Structure() && Objects() == g && Uses() == uses && RawCells() == raw
        invariant seen + rest == protectedValues.Keys
        invariant MarksFromRoots(g, roots + seen, Marked())
        decreases |rest|
      {
        var a :| a in rest;
        Visit(a, roots + seen, s, rank);
        assert roots + seen + {a} == roots + (seen + {a});
        seen, rest := seen + {a}, rest - {a};
      }
      assert seen == protectedValues.Keys;
    }

    /** The mark phase: interpreters, stacks, protected values, protected lists. */
    method MarkRoots(words: seq<nat>, interpreters: seq<Addr>, lists: seq<Addr>)
      requires Valid() && MayCollect(words, interpreters, lists)
      modifies `mem, `big
      ensures Structure() && Objects() == old(Objects()) && RawCells() == old(RawCells()) && Uses() == old(Uses())
      ensures Marked() == Reachable(Objects(), Roots(Objects(), words, interpreters, protectedValues.Keys, lists))
      ensures forall a :: a in Marked() <==> Held(Objects(), words, interpreters, protectedValues.Keys, lists, a)
    {
      ghost var g := Objects();
      MarksFromNoRoots(g);
      hide MarksFromRoots, Structure, GraphOf, MarkedOf, RawCells, SelfContained, Falls, Ends, Uses, PointedTo, Reachable, Held;
      ghost var roots := Roots(g, words, interpreters, protectedValues.Keys, lists);
      ghost var s := Reachable(g, roots);
      RankIffNoCycle(g, s);
      ghost var rank: Addr -> nat :| Falls(g, s, rank);
      RootsAreReached(g, roots);
      PointedToAreObjects(g, words);
      MarkEach(interpreters, {}, s, rank);
      ghost var r0 := {} + Listed(interpreters);
      MarkStackObjectsConservatively(words, r0, s, rank);
      MarkProtectedObjects(r0 + PointedTo(g, words), s, rank);
      MarkEach(lists, r0 + PointedTo(g, words) + protectedValues.Keys, s, rank);
      MarkedIsReachable(g, r0 + PointedTo(g, words) + protectedValues.Keys + Listed(lists), Marked());
      assert r0 == Listed(interpreters);
      AllReachedAreHeld(g, words, interpreters, protectedValues.Keys, lists);
    }

    // The sweep.

    /** Halves a table that is mostly unused; what is in use still fits. */
    method Shrink(capacity: nat, used: nat) returns (c: nat)
      requires used <= capacity
      ensures used <= c <= capacity && (c < capacity ==> used < capacity / LOW_WATER_FACTOR && c == capacity / GROWTH_FACTOR)
    {
      c := capacity;
      if c > MIN_ARRAY_SIZE && used < c / LOW_WATER_FACTOR {
        c := c / GROWTH_FACTOR;
      }
    }

    /** One block: swept in place, and released if there are enough empty ones before it. */
    method SweepOne(i: nat, emptyBlocks: nat, n: nat, main: bool, ghost mem0: Memory, ghost chains0: Chains)
      returns (i1: nat, emptyBlocks1: nat, n1: nat, freed: nat)
      requires SlabsSwept(mem0, chains0, mem, chains, blocks, i, main) && i < |blocks| && |blocks| <= numBlocks
      requires SlabCounts(mem, blocks, i, emptyBlocks, n, |oversizeCells|)
      modifies `mem, `chains, `blocks, `numBlocks
      ensures SlabsSwept(mem0, chains0, mem, chains, blocks, i1, main) && |blocks| <= numBlocks
      ensures SlabCounts(mem, blocks, i1, emptyBlocks1, n1, |oversizeCells|) && n1 == n - freed
      ensures (i1 == i + 1 && blocks == old(blocks)) || (i1 == i && |blocks| == old(|blocks|) - 1 && emptyBlocks1 > SPARE_EMPTY_BLOCKS)
      ensures i1 == i + 1 ==>
        && mem == old(mem)[blocks[i] := mem[blocks[i]]] && mem[blocks[i]].usedCells == old(mem)[blocks[i]].usedCells - freed
        && emptyBlocks1 == emptyBlocks + (if mem[blocks[i]].usedCells == 0 then 1 else 0)
      ensures i1 == i ==> emptyBlocks1 == emptyBlocks + 1 && old(mem)[old(blocks)[i]].usedCells == freed
    {
      hide SlabsSwept, FreeList, FreeLists, Used, Empties;
      CurrentBlock(mem0, chains0, mem, chains, blocks, i, main);
      var p := blocks[i];
      var b1; ghost var f1;
      b1, freed, f1 := SweepBlock(mem[p], chains[p], main);
      OneMoreBlock(mem0, chains0, mem, chains, blocks, i, main, b1, f1);
      OneMoreCount(mem, blocks, i, emptyBlocks, n, |oversizeCells|, b1, freed);
      mem, chains := mem[p := b1], chains[p := f1];
      i1, emptyBlocks1, n1 := i + 1, emptyBlocks, n - freed;
      if b1.usedCells == 0 {
        emptyBlocks1 := emptyBlocks + 1;
        if emptyBlocks1 > SPARE_EMPTY_BLOCKS {
          BlockReleased(mem0, chains0, mem, chains, blocks, i, main);
          ReleasedCount(mem, blocks, i);
          mem, chains := mem - {p}, chains - {p};
          blocks := SwapOut(blocks, i);
          i1 := i;
          numBlocks := Shrink(numBlocks, |blocks|);
        }
      }
    }
  
    /** The slab sweep with compaction; the search index starts over if any cell was freed. */
    method SweepBlocks(main: bool) returns (n: nat)
      requires Structure() && Counted()
      modifies `mem, `chains, `blocks, `numBlocks, `firstBlockWithPossibleSpace
      ensures SlabsSwept(old(mem), old(chains), mem, chains, blocks, |blocks|, main)
      ensures Searchable(mem, blocks, firstBlockWithPossibleSpace) && |blocks| <= numBlocks
      ensures n == Used(mem, blocks) + |oversizeCells| && n <= numLiveObjects
    {
      hide SlabsSwept, FreeList, FreeLists, SlabCounts, NothingFreed, Searchable, Used;
      ghost var mem0, chains0, blocks0 := mem, chains, blocks;
      n := numLiveObjects;
      var emptyBlocks: nat, i: nat := 0, 0;
      SweepBegins(mem, chains, blocks, main);
      SearchableParts(mem, blocks, firstBlockWithPossibleSpace);
      CountBegins(mem, blocks, n, |oversizeCells|);
      while i < |blocks|
        invariant SlabsSwept(mem0, chains0, mem, chains, blocks, i, main) && |blocks| <= numBlocks
        invariant SlabCounts(mem, blocks, i, emptyBlocks, n, |oversizeCells|) && n <= numLiveObjects
        invariant n == numLiveObjects ==> NothingFreed(mem0, blocks0, mem, blocks, i, emptyBlocks)
        invariant i <= |blocks| && firstBlockWithPossibleSpace == old(firstBlockWithPossibleSpace)
        decreases |blocks| - i
      {
        ghost var mem1, blocks1, i1, e := mem, blocks, i, emptyBlocks;
        var freed;
        CurrentBlock(mem0, chains0, mem, chains, blocks, i, main);
        i, emptyBlocks, n, freed := SweepOne(i, emptyBlocks, n, main, mem0, chains0);
        if n == numLiveObjects {
          ghost var b1 := if i == i1 then mem1[blocks1[i1]] else mem[blocks1[i1]];
          StillNothingFreed(mem0, blocks0, mem1, blocks1, i1, e, b1);
        }
      }
      CountEnds(mem0, blocks0, firstBlockWithPossibleSpace, mem, blocks, emptyBlocks, n, |oversizeCells|, n != numLiveObjects);
      if numLiveObjects != n {
        firstBlockWithPossibleSpace := 0;
      }
    }
  
    /** The oversize sweep with compaction; nothing here spares a cell that was never constructed. */
    method SweepOversize(n0: nat, main: bool, ghost slabCells: nat) returns (n: nat)
      requires Lists(oversizeCells, big) && |oversizeCells| <= numOversizeCells && n0 == slabCells + |oversizeCells|
      modifies `big, `oversizeCells, `numOversizeCells
      ensures OversizeSwept(old(big), big, oversizeCells, |oversizeCells|, main) && |oversizeCells| <= numOversizeCells
      ensures n == slabCells + |oversizeCells| <= n0
    {
      hide NoDuplicates;
      ghost var big0 := big;
      n := n0;
      var i: nat := 0;
      OversizeBegins(big, oversizeCells, main);
      while i < |oversizeCells|
        invariant OversizeSwept(big0, big, oversizeCells, i, main) && |oversizeCells| <= numOversizeCells
        invariant n == slabCells + |oversizeCells| <= n0
        decreases |oversizeCells| - i
      {
        var p := oversizeCells[i];
        var c := big[p];
        if !(c.Live? && c.marked) && (main || (c.Live? && c.o.threadSafe)) {
          OversizeReleased(big0, big, oversizeCells, i, main);
          big := big - {p};
          oversizeCells := SwapOut(oversizeCells, i);
          n := n - 1;
          numOversizeCells := Shrink(numOversizeCells, |oversizeCells|);
        } else {
          OversizeKept(big0, big, oversizeCells, i, main);
          big := big[p := Unmark(c)];
          i := i + 1;
        }
      }
    }

    /** Both sweeps. */
    method Sweep(main: bool) returns (n: nat)
      requires Structure() && Counted()
      modifies `mem, `big, `chains, `blocks, `numBlocks, `firstBlockWithPossibleSpace, `oversizeCells, `numOversizeCells
      ensures Structure() && Searchable(mem, blocks, firstBlockWithPossibleSpace)
      ensures |blocks| <= numBlocks && |oversizeCells| <= numOversizeCells
      ensures n == Used(mem, blocks) + |oversizeCells| && n <= numLiveObjects
      ensures Objects() == Survivors(old(Objects()), old(Marked()), main) && Marked() == {}
      ensures mem.Keys <= old(mem.Keys) && big.Keys <= old(big.Keys)
      ensures forall a :: a in RawCells() <==> a in old(RawCells()) && (a.Slab? || !main)
    {
      hide FreeList, SlabsSwept, OversizeSwept, HeapSwept, Searchable, Used, GraphOf, MarkedOf, RawOf, Survivors;
      ghost var mem0, chains0, big0 := mem, chains, big;
      n := SweepBlocks(main);
      SearchableParts(mem, blocks, firstBlockWithPossibleSpace);
      n := SweepOversize(n, main, Used(mem, blocks));
      SweepsCover(mem0, chains0, big0, mem, chains, big, blocks, oversizeCells, main);
      SweepsKeepStructure(mem0, chains0, big0, mem, chains, big, blocks, oversizeCells, main);
      SweptHeap(mem0, chains0, big0, mem, chains, big, main);
    }

    /** Mark and sweep, with the count of what is left. */
    method MarkAndSweep(words: seq<nat>, interpreters: seq<Addr>, lists: seq<Addr>, main: bool) returns (n: nat)
      requires Valid() && MayCollect(words, interpreters, lists)
      modifies `mem, `big, `chains, `blocks, `numBlocks, `firstBlockWithPossibleSpace, `oversizeCells, `numOversizeCells
      ensures Structure() && Searchable(mem, blocks, firstBlockWithPossibleSpace) && Marked() == {}
      ensures |blocks| <= numBlocks && |oversizeCells| <= numOversizeCells
      ensures n == Used(mem, blocks) + |oversizeCells| && n <= numLiveObjects
      ensures var g := old(Objects());
        Objects() == Survivors(g, Reachable(g, Roots(g, words, interpreters, protectedValues.Keys, lists)), main)
      ensures forall a :: a in RawCells() <==> a in old(RawCells()) && (a.Slab? || !main)
      ensures protectedValues.Keys <= Objects().Keys
      ensures mem.Keys <= old(mem.Keys) && big.Keys <= old(big.Keys)
    {
      hide Structure, Objects, Marked, RawCells, Searchable, Used, Survivors, Markable, Reachable, Roots, UsesOf;
      ghost var g, mem0 := Objects(), mem;
      MarkRoots(words, interpreters, lists);
      SearchableParts(mem0, blocks, firstBlockWithPossibleSpace);
      SameUses(mem0, mem, blocks, firstBlockWithPossibleSpace);
      SearchableParts(mem, blocks, firstBlockWithPossibleSpace);
      ProtectedSurvive(g, words, interpreters, protectedValues.Keys, lists, main);
      n := Sweep(main);
      SearchableParts(mem, blocks, firstBlockWithPossibleSpace);
    }

    /** The abstract state: objects, unconstructed cells, protection counts. */
    ghost function Abstract(): State
      reads `mem, `big, `chains, `protectedValues
    {
      State(Objects(), RawCells(), protectedValues)
    }

    /** What the caller of a collection must see to: roots that are objects and reach only objects, words of the machine's size. */
    ghost predicate MayCollect(words: seq<nat>, interpreters: seq<Addr>, lists: seq<Addr>)
      reads `mem, `big, `protectedValues
    {
      && Markable(Objects(), Roots(Objects(), words, interpreters, protectedValues.Keys, lists))
      && (forall k :: 0 <= k < |words| ==> words[k] < ADDRESS_SPACE)
      && (forall k :: 0 <= k < |interpreters| ==> interpreters[k] in Objects())
      && (forall k :: 0 <= k < |lists| ==> lists[k] in Objects())
    }

    /** A collection: exactly what the roots reach survives, and away from the main thread what may not be destroyed there. */
    method Collect(words: seq<nat>, interpreters: seq<Addr>, lists: seq<Addr>, main: bool) returns (deleted: bool)
      requires Valid() && MayCollect(words, interpreters, lists)
      modifies this
      ensures Valid() && Step(old(Abstract()), Event.Collect(words, interpreters, lists, main), Abstract())
      ensures forall a :: a in Objects() <==>
        a in old(Objects())
        && (Held(old(Objects()), words, interpreters, protectedValues.Keys, lists, a) || (!main && !old(Objects())[a].threadSafe))
      ensures numLiveObjects <= old(numLiveObjects) && (deleted <==> numLiveObjects < old(numLiveObjects))
      ensures numLiveObjectsAtLastCollect == numLiveObjects && (memoryFull <==> numLiveObjects >= KJS_MEM_LIMIT)
      ensures mem.Keys <= old(mem.Keys) && big.Keys <= old(big.Keys) && protectedValues == old(protectedValues)
    {
      hide Structure, Objects, Marked, RawCells, Searchable, Used, Survivors, Markable, Reachable, Roots;
      var n := MarkAndSweep(words, interpreters, lists, main);
      SearchableParts(mem, blocks, firstBlockWithPossibleSpace);
      deleted := numLiveObjects != n;
      numLiveObjects := n;
      numLiveObjectsAtLastCollect := n;
      AllLeftAreHeld(old(Abstract()), words, interpreters, lists, main, Abstract());
      memoryFull := n >= KJS_MEM_LIMIT;
    }

    // Allocation.

    method Max(a: nat, b: nat) returns (m: nat)
      ensures m >= a && m >= b && (m == a || m == b)
    {
      m := if a < b then b else a;
    }

    /** Room for one more entry in a table. */
    method Grow(capacity: nat, used: nat) returns (c: nat)
      requires used <= capacity
      ensures used < c && (if used < capacity then c == capacity else c >= capacity * GROWTH_FACTOR)
    {
      c := capacity;
      if used == capacity {
        c := Max(MIN_ARRAY_SIZE, capacity * GROWTH_FACTOR);
      }
    }

    /** The first block with a free cell, from the search index on; all before it are full. */
    method FindBlock() returns (i: nat)
      requires Structure() && Searchable(mem, blocks, firstBlockWithPossibleSpace)
      ensures i <= |blocks| && (i < |blocks| ==> mem[blocks[i]].usedCells < CELLS)
      ensures Searchable(mem, blocks, i)
    {
      hide NoDuplicates, Linked, Empties, BlocksApart, CellsApart;
      i := firstBlockWithPossibleSpace;
      while i != |blocks| && mem[blocks[i]].usedCells == CELLS
        invariant i <= |blocks| && Searchable(mem, blocks, i)
        decreases |blocks| - i
      {
        i := i + 1;
      }
      if i < |blocks| {
        assert blocks[i] in mem;
      }
    }

    /** A zeroed block at the end of the table. */
    method AddBlock(at: nat)
      requires Structure() && MayAllocate(mem, big, at) && |blocks| <= numBlocks
      modifies `mem, `chains, `blocks, `numBlocks
      ensures Structure() && |blocks| <= numBlocks && at !in old(mem)
      ensures mem == old(mem)[at := ZeroedBlock()] && blocks == old(blocks) + [at]
      ensures Objects() == old(Objects()) && Marked() == old(Marked()) && RawCells() == old(RawCells())
    {
      hide GraphOf, MarkedOf, RawOf, FreeLists, ZeroedBlock, Descending, Lists;
      FreshAddress(mem, big, at);
      ListsExtended(blocks, mem, at, ZeroedBlock());
      numBlocks := Grow(numBlocks, |blocks|);
      BlockAdded(mem, chains, big, at);
      mem, chains := mem[at := ZeroedBlock()], chains[at := Descending()];
      blocks := blocks + [at];
    }

    /** Detaches a cell from a block's free list. */
    method TakeFrom(i: nat) returns (a: Addr)
      requires Structure() && i < |blocks| && blocks[i] in mem && mem[blocks[i]].usedCells < CELLS
      modifies `mem, `chains
      ensures Structure() && a.Slab? && blocks[i] in mem && mem == old(mem)[blocks[i] := mem[blocks[i]]]
      ensures mem[blocks[i]].usedCells == old(mem)[blocks[i]].usedCells + 1
      ensures Objects() == old(Objects()) && Marked() == old(Marked())
      ensures a !in old(RawCells()) && RawCells() == old(RawCells()) + {a}
    {
      hide GraphOf, MarkedOf, RawOf, FreeList, NoDuplicates;
      var p := blocks[i];
      BlockSize(mem[p], chains[p]);
      var b1, k := TakeCell(mem[p], chains[p]);
      CellTaken(mem, chains, big, p, b1, k);
      chains := chains[p := chains[p][..|chains[p]| - 1]];
      mem := mem[p := b1];
      a := Slab(p, k);
    }

    /** The block to allocate from: the first with a free cell, or a new one. */
    method BlockWithSpace(at: nat) returns (i: nat)
      requires Structure() && Counted() && MayAllocate(mem, big, at)
      modifies `mem, `chains, `blocks, `numBlocks, `firstBlockWithPossibleSpace
      ensures Structure() && HasSpace(mem, blocks, i) && |blocks| <= numBlocks && firstBlockWithPossibleSpace == i
      ensures Objects() == old(Objects()) && Marked() == old(Marked()) && RawCells() == old(RawCells())
      ensures Used(mem, blocks) == old(Used(mem, blocks))
    {
      hide Structure, Objects, Marked, RawCells, Used, Empties, MayAllocate;
      i := FindBlock();
      firstBlockWithPossibleSpace := i;
      if i == |blocks| {
        FreshAddress(mem, big, at);
        AddedCount(mem, blocks, at);
        AddBlock(at);
      }
    }

    /** The slab allocator. */
    method AllocateSlab(at: nat) returns (a: Addr)
      requires Valid() && MayAllocate(mem, big, at)
      modifies `mem, `chains, `blocks, `numBlocks, `firstBlockWithPossibleSpace, `numLiveObjects
      ensures Valid() && a.Slab? && Objects() == old(Objects())
      ensures a !in old(RawCells()) && RawCells() == old(RawCells()) + {a} && numLiveObjects == old(numLiveObjects) + 1
    {
      hide Objects, Marked, RawCells, Used, Empties, MayAllocate, FreeLists, BlocksApart, CellsApart, Searchable, HasSpace;
      var i := BlockWithSpace(at);
      TakeFromSpace(mem, blocks, i);
      a := TakeFrom(i);
      SearchableParts(mem, blocks, i);
      numLiveObjects := numLiveObjects + 1;
    }
  
    /** A cell too large for a block, on its own; fresh memory reads as zero. */
    method AllocateOversize(at: nat) returns (a: Addr)
      requires Valid() && MayAllocate(mem, big, at)
      modifies `big, `oversizeCells, `numOversizeCells, `numLiveObjects
      ensures Valid() && a == Oversize(at) && Objects() == old(Objects())
      ensures a !in old(RawCells()) && RawCells() == old(RawCells()) + {a} && numLiveObjects == old(numLiveObjects) + 1
    {
      hide FreeLists, Searchable, Used, BlocksApart, CellsApart, Lists, MayAllocate, GraphOf, MarkedOf, RawOf;
      FreshAddress(mem, big, at);
      ListsExtended(oversizeCells, big, at, Raw(0));
      numOversizeCells := Grow(numOversizeCells, |oversizeCells|);
      OversizeAdded(mem, chains, big, at);
      big := big[at := Raw(0)];
      oversizeCells := oversizeCells + [at];
      numLiveObjects := numLiveObjects + 1;
      a := Oversize(at);
    }

    /** At least 1000 objects, and as many as were left then, have come since the last collection. */
    predicate CollectionDue()
      reads this
    {
      var numNewObjects := numLiveObjects - numLiveObjectsAtLastCollect;
      numNewObjects >= ALLOCATIONS_PER_COLLECTION && numNewObjects >= numLiveObjectsAtLastCollect
    }

    /** A new cell of s bytes, after a collection if one is due; at is where the system allocator would put new memory. */
    method Allocate(s: nat, at: nat, words: seq<nat>, interpreters: seq<Addr>, lists: seq<Addr>, main: bool)
      returns (a: Addr, ghost mid: State)
      requires Valid() && (CollectionDue() ==> MayCollect(words, interpreters, lists)) && MayAllocate(mem, big, at)
      modifies this
      ensures Valid() && (a.Oversize? <==> s > CELL_SIZE)
      ensures if old(numLiveObjects >= numLiveObjectsAtLastCollect + 1000 && numLiveObjects >= 2 * numLiveObjectsAtLastCollect)
              then Step(old(Abstract()), Event.Collect(words, interpreters, lists, main), mid)
              else mid == old(Abstract())
      ensures Step(mid, Event.Allocate(a), Abstract())
      ensures a !in mid.objects && a !in mid.raw && Objects() == mid.objects && RawCells() == mid.raw + {a} && protectedValues == mid.protected
    {
      hide Structure, Objects, Marked, RawCells, Searchable, Used, MayAllocate, MayCollect;
      if CollectionDue() {
        var deleted := Collect(words, interpreters, lists, main);
        StillMayAllocate(old(mem), old(big), mem, big, at);
      }
      mid := Abstract();
      if s > CELL_SIZE {
        a := AllocateOversize(at);
      } else {
        a := AllocateSlab(at);
      }
      RawNotObjects();
    }
  
    // What the interpreter does between collections.

    /** Writes an object into a cell that is handed out and not on a free list. */
    method Write(a: Addr, o: Object)
      requires Structure() && (a in RawCells() || (a in Objects() && a !in Marked()))
      modifies `mem, `big
      ensures Structure() && Uses() == old(Uses()) && Marked() == old(Marked())
      ensures Objects() == old(Objects())[a := o] && RawCells() == old(RawCells()) - {a}
    {
      hide GraphOf, MarkedOf, RawOf, FreeLists, Lists, BlocksApart, CellsApart;
      ghost var mem0, big0 := mem, big;
      match a {
        case Slab(b, i) =>
          mem := mem[b := mem[b].(cells := mem[b].cells[i := Live(o, false)])];
        case Oversize(p) =>
          big := big[p := Live(o, false)];
      }
      UsedCellIsOffList(mem0, chains, big0, a);
      WriteKeepsStructure(mem0, chains, blocks, big0, oversizeCells, mem, big, a, o);
      CellWritten(mem0, chains, big0, mem, big, a, o);
    }

    /** Runs a constructor on a fresh cell. */
    method Construct(a: Addr, o: Object)
      requires Valid() && a in RawCells() && Fits(Objects()[a := o], o)
      modifies `mem, `big
      ensures Valid() && Step(old(Abstract()), Event.Construct(a, o), Abstract())
      ensures Objects() == old(Objects())[a := o] && RawCells() == old(RawCells()) - {a}
    {
      hide Structure, Objects, RawCells, Marked, Searchable, Used, Fits;
      ghost var mem0 := mem;
      SearchableParts(mem, blocks, firstBlockWithPossibleSpace);
      Write(a, o);
      SameUses(mem0, mem, blocks, firstBlockWithPossibleSpace);
      SearchableParts(mem, blocks, firstBlockWithPossibleSpace);
    }

    /** Changes an object's references. */
    method Assign(a: Addr, o: Object)
      requires Valid() && a in Objects() && Fits(Objects()[a := o], o)
      requires o.kind == Objects()[a].kind && o.threadSafe == Objects()[a].threadSafe
      modifies `mem, `big
      ensures Valid() && Step(old(Abstract()), Event.Assign(a, o), Abstract())
      ensures Objects() == old(Objects())[a := o] && RawCells() == old(RawCells())
    {
      hide Structure, Objects, RawCells, Marked, Searchable, Used, Fits;
      ghost var mem0 := mem;
      SearchableParts(mem, blocks, firstBlockWithPossibleSpace);
      RawNotObjects();
      Write(a, o);
      SameUses(mem0, mem, blocks, firstBlockWithPossibleSpace);
      SearchableParts(mem, blocks, firstBlockWithPossibleSpace);
    }

    /** Counts one more protection; immediate values need none. */
    method Protect(v: Value)
      requires Valid() && (v.Ref? ==> v.a in Objects())
      modifies `protectedValues
      ensures Valid() && Step(old(Abstract()), Event.Protect(v), Abstract())
      ensures forall a :: Count(protectedValues, a) == old(Count(protectedValues, a)) + if v == Ref(a) then 1 else 0
    {
      hide Structure, Counted, Objects, Marked, RawCells;
      if v.Ref? {
        Counts(protectedValues, v.a);
        protectedValues := Add(protectedValues, v.a);
      }
    }

    method Unprotect(v: Value)
      requires Valid()
      modifies `protectedValues
      ensures Valid() && Step(old(Abstract()), Event.Unprotect(v), Abstract())
      ensures forall a :: Count(protectedValues, a) == old(Count(protectedValues, a)) - if v == Ref(a) && old(a in protectedValues) then 1 else 0
    {
      hide Structure, Counted, Objects, Marked, RawCells;
      if v.Ref? {
        Counts(protectedValues, v.a);
        protectedValues := Remove(protectedValues, v.a);
      }
    }
  }

  lemma UsedCellIsOffList(mem: Memory, chains: Chains, big: map<nat, Cell>, a: Addr)
    requires FreeLists(mem, chains) && (a in RawOf(mem, chains, big) || a in GraphOf(mem, big))
    ensures Has(mem, big, a) && !OnFreeList(chains, a)
  {
    hide RawOf, GraphOf, FreeList;
    if a.Slab? && a in GraphOf(mem, big) {
      BlockSize(mem[a.base], chains[a.base]);
      LiveIsNotFree(mem[a.base], chains[a.base], a.index);
    }
  }

  lemma WriteKeepsStructure(mem: Memory, chains: Chains, blocks: seq<nat>, big: map<nat, Cell>, table: seq<nat>,
      mem1: Memory, big1: map<nat, Cell>, a: Addr, o: Object)
    requires FreeLists(mem, chains) && Lists(blocks, mem) && Lists(table, big) && BlocksApart(mem) && CellsApart(mem, big)
    requires Has(mem, big, a) && !OnFreeList(chains, a)
    requires match a
      case Slab(b, i) => big1 == big && mem1 == mem[b := mem[b].(cells := mem[b].cells[i := Live(o, false)])]
      case Oversize(p) => mem1 == mem && big1 == big[p := Live(o, false)]
    ensures FreeLists(mem1, chains) && Lists(blocks, mem1) && Lists(table, big1) && BlocksApart(mem1) && CellsApart(mem1, big1)
    ensures UsesOf(mem1) == UsesOf(mem) && big1.Keys == big.Keys
  {
    hide FreeList, NoDuplicates;
    if a.Slab? {
      WriteKeepsFreeList(mem[a.base], chains[a.base], a.index, Live(o, false));
    }
    assert mem1.Keys == mem.Keys && big1.Keys == big.Keys;
  }

  lemma ProtectedSurvive(g: Graph, words: seq<nat>, interpreters: seq<Addr>, protected: set<Addr>, lists: seq<Addr>, main: bool)
    requires protected <= g.Keys
    ensures protected <= Survivors(g, Reachable(g, Roots(g, words, interpreters, protected, lists)), main).Keys
  {
    hide Survivors, Reaches;
    forall a | a in protected
      ensures a in Reachable(g, Roots(g, words, interpreters, protected, lists))
    {
      ReachesItself(g, a);
      assert a in Roots(g, words, interpreters, protected, lists);
    }
  }

  /** No two cells share an address. */
  lemma WordsAreUnique(mem: Memory, chains: Chains, big: map<nat, Cell>, a: Addr, c: Addr)
    requires FreeLists(mem, chains) && BlocksApart(mem) && CellsApart(mem, big)
    requires Has(mem, big, a) && Has(mem, big, c) && WordOf(a) == WordOf(c)
    ensures a == c
  {
    if a.Slab? {
      FullBlock(mem, chains, a.base);
      CellsAreInBlock(a.base, a.index);
    }
    if c.Slab? {
      FullBlock(mem, chains, c.base);
      CellsAreInBlock(c.base, c.index);
    }
  }

  /** One more stack word adds at most the one object it points to. */
  lemma OneMoreWord(mem: Memory, chains: Chains, big: map<nat, Cell>, words: seq<nat>, k: nat, found: bool, a: Addr, roots: set<Addr>)
    requires FreeLists(mem, chains) && BlocksApart(mem) && CellsApart(mem, big) && k < |words|
    requires found ==> Has(mem, big, a) && WordOf(a) == words[k]
    requires !found ==> forall c :: Has(mem, big, c) ==> WordOf(c) != words[k]
    ensures var g := GraphOf(mem, big);
      if found && CellAt(mem, big, a).Live?
      then roots + PointedTo(g, words[..k + 1]) == roots + PointedTo(g, words[..k]) + {a}
      else roots + PointedTo(g, words[..k + 1]) == roots + PointedTo(g, words[..k])
  {
    hide GraphOf, FreeLists, BlocksApart, CellsApart;
    var g := GraphOf(mem, big);
    forall c | c in g && WordOf(c) == words[k]
      ensures found && c == a
    {
      WordsAreUnique(mem, chains, big, a, c);
    }
    assert words[..k + 1] == words[..k] + [words[k]];
  }

  /** x is the address of a cell of the block at b. */
  predicate InBlock(x: nat, b: nat) {
    b <= x <= b + CELL_SIZE * (CELLS - 1) && (x - b) % CELL_SIZE == 0
  }

  /** The unsigned difference is a small multiple of the cell size exactly when x points to a cell of the block. */
  lemma OffsetTest(x: nat, b: nat, offset: nat)
    requires x < ADDRESS_SPACE && b + BLOCK_SIZE <= ADDRESS_SPACE && offset == (x - b) % ADDRESS_SPACE
    ensures offset <= CELL_SIZE * (CELLS - 1) && offset % CELL_SIZE == 0 <==> InBlock(x, b)
  {}

  lemma FullBlock(mem: Memory, chains: Chains, b: nat)
    requires FreeLists(mem, chains) && b in mem
    ensures |mem[b].cells| == CELLS
  {}

  lemma CellsAreInBlock(b: nat, i: nat)
    requires i < CELLS
    ensures InBlock(WordOf(Slab(b, i)), b)
    ensures b % 8 == 0 && b > 0 ==> WordOf(Slab(b, i)) % 8 == 0 && WordOf(Slab(b, i)) != 0
  {}

  lemma NoCell(mem: Memory, big: map<nat, Cell>, blocks: seq<nat>, oversize: seq<nat>, x: nat)
    requires Lists(blocks, mem) && Lists(oversize, big) && x !in oversize
    requires forall j :: 0 <= j < |blocks| ==> !InBlock(x, blocks[j])
    ensures forall c :: Has(mem, big, c) ==> WordOf(c) != x
  {
    forall c | Has(mem, big, c)
      ensures WordOf(c) != x
    {
      if c.Slab? {
        assert c.base in blocks;
        CellsAreInBlock(c.base, c.index);
      } else {
        assert c.at in oversize;
      }
    }
  }

  lemma MisalignedWord(mem: Memory, big: map<nat, Cell>, x: nat)
    requires BlocksApart(mem) && CellsApart(mem, big) && (x % 8 != 0 || x == 0)
    ensures forall c :: Has(mem, big, c) ==> WordOf(c) != x
  {
    forall c | Has(mem, big, c)
      ensures WordOf(c) != x
    {
      if c.Slab? {
        CellsAreInBlock(c.base, c.index);
      }
    }
  }

  lemma MarkKeepsStructure(mem: Memory, chains: Chains, blocks: seq<nat>, big: map<nat, Cell>, table: seq<nat>,
      mem1: Memory, big1: map<nat, Cell>, a: Addr)
    requires FreeLists(mem, chains) && Lists(blocks, mem) && Lists(table, big) && BlocksApart(mem) && CellsApart(mem, big)
    requires Has(mem, big, a) && CellAt(mem, big, a).Live?
    requires match a
      case Slab(b, i) => big1 == big && mem1 == mem[b := mem[b].(cells := mem[b].cells[i := SetMarked(mem[b].cells[i])])]
      case Oversize(p) => mem1 == mem && big1 == big[p := SetMarked(big[p])]
    ensures FreeLists(mem1, chains) && Lists(blocks, mem1) && Lists(table, big1) && BlocksApart(mem1) && CellsApart(mem1, big1)
    ensures UsesOf(mem1) == UsesOf(mem) && big1.Keys == big.Keys
  {
    hide FreeList, NoDuplicates;
    if a.Slab? {
      MarkKeepsFreeList(mem[a.base], chains[a.base], a.index);
    }
    assert mem1.Keys == mem.Keys && big1.Keys == big.Keys;
  }

  /** Setting one cell's mark touches nothing else. */
  lemma MarkedCell(mem: Memory, big: map<nat, Cell>, mem1: Memory, big1: map<nat, Cell>, a: Addr)
    requires Has(mem, big, a) && CellAt(mem, big, a).Live?
    requires match a
      case Slab(b, i) => big1 == big && mem1 == mem[b := mem[b].(cells := mem[b].cells[i := SetMarked(mem[b].cells[i])])]
      case Oversize(p) => mem1 == mem && big1 == big[p := SetMarked(big[p])]
    ensures SameObjects(mem, big, mem1, big1) && Has(mem1, big1, a) && CellAt(mem1, big1, a) == SetMarked(CellAt(mem, big, a))
    ensures forall x :: Has(mem, big, x) && x != a ==> Has(mem1, big1, x) && CellAt(mem, big, x) == CellAt(mem1, big1, x)
  {}

  lemma MarkAdded(mem: Memory, big: map<nat, Cell>, mem1: Memory, big1: map<nat, Cell>, a: Addr)
    requires SameObjects(mem, big, mem1, big1) && Has(mem, big, a) && CellAt(mem, big, a).Live?
    requires CellAt(mem1, big1, a).marked
    requires forall x :: Has(mem, big, x) && x != a ==> CellAt(mem, big, x) == CellAt(mem1, big1, x)
    ensures MarkedOf(mem1, big1) == MarkedOf(mem, big) + {a}
  {
    hide MarkedOf, CellAt;
    SameObjectsEverywhere(mem, big, mem1, big1);
  }

  lemma FewerUnmarked(g: Graph, m0: set<Addr>, m1: set<Addr>)
    requires m0 <= m1
    ensures |g.Keys - m1| <= |g.Keys - m0|
    ensures forall a :: a in g && a !in m0 && a in m1 ==> |g.Keys - m1| < |g.Keys - m0|
  {
    SubsetSize(g.Keys - m1, g.Keys - m0);
  }
}
