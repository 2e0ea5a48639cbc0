/** What a sweep leaves in memory: block by block, with compaction, and what it means for objects and raw cells. */
module HeapSweep {
  import opened FiniteSets
  import opened Slabs
  import opened Reachability
  import opened HeapState

  /** A swept block: survivors are unmarked, the dead are raw and on the free list. */
  ghost predicate BlockSwept(b0: Block, f0: seq<nat>, b1: Block, f1: seq<nat>, main: bool) {
    && |b0.cells| == |b1.cells| == CELLS
    && (forall i :: 0 <= i < CELLS ==> Swept(b0.cells[i], b1.cells[i], main))
    && (forall i :: 0 <= i < CELLS ==> (i in f1 <==> i in f0 || Dies(b0.cells[i], main)))
  }

  /** A block that held nothing worth keeping. */
  ghost predicate BlockGone(b0: Block, f0: seq<nat>, main: bool) {
    |b0.cells| == CELLS && forall i :: 0 <= i < CELLS ==> Dies(b0.cells[i], main) || (b0.cells[i].Raw? && i in f0)
  }

  /** The first i blocks of the table are swept, the others untouched, those no longer listed held nothing. */
  ghost predicate SlabsSwept(mem0: Memory, chains0: Chains, mem: Memory, chains: Chains, blocks: seq<nat>, i: nat, main: bool) {
    && FreeLists(mem0, chains0) && FreeLists(mem, chains) && Lists(blocks, mem) && mem.Keys <= mem0.Keys && i <= |blocks|
    && (forall k :: 0 <= k < |blocks| ==> blocks[k] in mem && blocks[k] in mem0)
    && (forall k :: 0 <= k < i ==>
      BlockSwept(mem0[blocks[k]], chains0[blocks[k]], mem[blocks[k]], chains[blocks[k]], main))
    && (forall k :: i <= k < |blocks| ==> mem[blocks[k]] == mem0[blocks[k]] && chains[blocks[k]] == chains0[blocks[k]])
    && (forall b :: b in mem0 && b !in mem ==> BlockGone(mem0[b], chains0[b], main))
  }

  lemma SweepBegins(mem: Memory, chains: Chains, blocks: seq<nat>, main: bool)
    requires FreeLists(mem, chains) && Lists(blocks, mem)
    ensures SlabsSwept(mem, chains, mem, chains, blocks, 0, main)
  {
    hide FreeList, BlockSwept, BlockGone;
    forall k | 0 <= k < |blocks|
      ensures blocks[k] in mem
    {
      assert blocks[k] in blocks;
    }
  }

  /** The next block to sweep. */
  lemma CurrentBlock(mem0: Memory, chains0: Chains, mem: Memory, chains: Chains, blocks: seq<nat>, i: nat, main: bool)
    requires SlabsSwept(mem0, chains0, mem, chains, blocks, i, main) && i < |blocks|
    ensures NoDuplicates(blocks) && blocks[i] in mem && blocks[i] in chains && FreeList(mem[blocks[i]], chains[blocks[i]])
  {}

  /** One more block. */
  lemma OneMoreBlock(mem0: Memory, chains0: Chains, mem: Memory, chains: Chains, blocks: seq<nat>, i: nat, main: bool,
      b1: Block, f1: seq<nat>)
    requires SlabsSwept(mem0, chains0, mem, chains, blocks, i, main) && i < |blocks|
    requires FreeList(b1, f1) && BlockSwept(mem[blocks[i]], chains[blocks[i]], b1, f1, main)
    ensures SlabsSwept(mem0, chains0, mem[blocks[i] := b1], chains[blocks[i] := f1], blocks, i + 1, main)
  {
    hide FreeList, BlockSwept, BlockGone;
  }

  /** A swept block with no used cells held nothing. */
  lemma EmptyBlockIsGone(b0: Block, f0: seq<nat>, b1: Block, f1: seq<nat>, main: bool)
    requires BlockSwept(b0, f0, b1, f1, main) && FreeList(b0, f0) && FreeList(b1, f1) && b1.usedCells == 0
    ensures BlockGone(b0, f0, main)
  {
    EmptyBlockIsRaw(b1, f1);
    forall i | 0 <= i < CELLS
      ensures Dies(b0.cells[i], main) || (b0.cells[i].Raw? && i in f0)
    {
      assert Swept(b0.cells[i], b1.cells[i], main) && b1.cells[i].Raw? && i in f1;
      if i in f0 {
        var k :| 0 <= k < |f0| && f0[k] == i;
      }
    }
  }

  /** Releasing the block just swept, with the last one taking its place in the table. */
  lemma BlockReleased(mem0: Memory, chains0: Chains, mem: Memory, chains: Chains, blocks: seq<nat>, i: nat, main: bool)
    requires SlabsSwept(mem0, chains0, mem, chains, blocks, i + 1, main) && mem[blocks[i]].usedCells == 0
    requires NoDuplicates(blocks)
    ensures SlabsSwept(mem0, chains0, mem - {blocks[i]}, chains - {blocks[i]}, SwapOut(blocks, i), i, main)
  {
    hide FreeList, BlockSwept, BlockGone, SwapOut, NoDuplicates, Lists;
    var p := blocks[i];
    EmptyBlockIsGone(mem0[p], chains0[p], mem[p], chains[p], main);
    SwapOutEntries(blocks, i);
    ListsAfterSwapOut(blocks, mem, i);
  }

  // Counting.

  /** Used cells, table size and spare empty blocks, i blocks into the sweep. */
  ghost predicate SlabCounts(mem: Memory, blocks: seq<nat>, i: nat, emptyBlocks: nat, n: nat, oversize: nat) {
    && i <= |blocks| && (forall k :: 0 <= k < |blocks| ==> blocks[k] in mem)
    && n == Used(mem, blocks) + oversize
    && Empties(mem, blocks[..i]) == (if emptyBlocks <= 2 then emptyBlocks else 2)
  }

  lemma OneMoreCount(mem: Memory, blocks: seq<nat>, i: nat, emptyBlocks: nat, n: nat, oversize: nat, b1: Block, freed: nat)
    requires SlabCounts(mem, blocks, i, emptyBlocks, n, oversize) && i < |blocks| && NoDuplicates(blocks)
    requires freed <= mem[blocks[i]].usedCells && b1.usedCells == mem[blocks[i]].usedCells - freed
    ensures var mem1 := mem[blocks[i] := b1];
      && freed <= n && n - freed == Used(mem1, blocks) + oversize
      && Empties(mem1, blocks[..i]) == Empties(mem, blocks[..i])
      && Empties(mem1, blocks[..i + 1]) == Empties(mem, blocks[..i]) + (if b1.usedCells == 0 then 1 else 0)
  {
    var mem1 := mem[blocks[i] := b1];
    UsedAfterUpdate(mem, mem1, blocks, i);
    SameCounts(mem, mem1, blocks[..i]);
    assert blocks[..i + 1] == blocks[..i] + [blocks[i]];
    assert (blocks[..i] + [blocks[i]])[..i] == blocks[..i];
  }

  lemma ReleasedCount(mem: Memory, blocks: seq<nat>, i: nat)
    requires i < |blocks| && NoDuplicates(blocks) && (forall k :: 0 <= k < |blocks| ==> blocks[k] in mem)
    requires mem[blocks[i]].usedCells == 0
    ensures var mem1, t := mem - {blocks[i]}, SwapOut(blocks, i);
      && (forall k :: 0 <= k < |t| ==> t[k] in mem1)
      && Used(mem1, t) == Used(mem, blocks)
      && i <= |t| && Empties(mem1, t[..i]) == Empties(mem, blocks[..i])
  {
    var mem1, t := mem - {blocks[i]}, SwapOut(blocks, i);
    SwapOutLists(blocks, i);
    forall k | 0 <= k < |t|
      ensures t[k] in mem && t[k] in mem1
    {
      assert t[k] in t;
    }
    UsedOfSwapOut(mem, blocks, i);
    SameCounts(mem, mem1, t);
    assert t[..i] == blocks[..i];
    SameCounts(mem, mem1, t[..i]);
  }

  /** As long as no cell has been freed, the table is as it was and the empty blocks seen were empty before. */
  ghost predicate NothingFreed(mem0: Memory, blocks0: seq<nat>, mem: Memory, blocks: seq<nat>, i: nat, emptyBlocks: nat) {
    && blocks == blocks0 && i <= |blocks| && (forall k :: 0 <= k < |blocks| ==> blocks[k] in mem0 && blocks[k] in mem)
    && (forall k :: 0 <= k < |blocks| ==> mem[blocks[k]].usedCells == mem0[blocks[k]].usedCells)
    && emptyBlocks == Empties(mem0, blocks[..i])
  }

  /** ... so there can be no more of them than before, which are few enough to keep. */
  lemma StillNothingFreed(mem0: Memory, blocks0: seq<nat>, mem: Memory, blocks: seq<nat>, i: nat, emptyBlocks: nat, b1: Block)
    requires NothingFreed(mem0, blocks0, mem, blocks, i, emptyBlocks) && i < |blocks| && NoDuplicates(blocks)
    requires b1.usedCells == mem[blocks[i]].usedCells && Empties(mem0, blocks0) <= 2
    ensures var e := if b1.usedCells == 0 then emptyBlocks + 1 else emptyBlocks;
      e <= 2 && NothingFreed(mem0, blocks0, mem[blocks[i] := b1], blocks, i + 1, e)
  {
    EmptiesOfPrefix(mem0, blocks, i + 1);
    assert blocks[..i + 1][..i] == blocks[..i];
  }

  lemma CountBegins(mem: Memory, blocks: seq<nat>, n: nat, oversize: nat)
    requires (forall k :: 0 <= k < |blocks| ==> blocks[k] in mem) && n == Used(mem, blocks) + oversize
    ensures SlabCounts(mem, blocks, 0, 0, n, oversize) && NothingFreed(mem, blocks, mem, blocks, 0, 0)
  {}

  /** At the end: the total, and where the next search may start. */
  lemma CountEnds(mem0: Memory, blocks0: seq<nat>, first: nat, mem: Memory, blocks: seq<nat>, emptyBlocks: nat, n: nat, oversize: nat, freed: bool)
    requires SlabCounts(mem, blocks, |blocks|, emptyBlocks, n, oversize) && Searchable(mem0, blocks0, first)
    requires !freed ==> NothingFreed(mem0, blocks0, mem, blocks, |blocks|, emptyBlocks)
    ensures n == Used(mem, blocks) + oversize && Searchable(mem, blocks, if freed then 0 else first)
  {
    assert blocks[..|blocks|] == blocks;
  }

  // The oversize cells.

  /** Dead or never constructed. */
  predicate Discarded(c: Cell, main: bool) {
    !(c.Live? && c.marked) && (main || (c.Live? && c.o.threadSafe))
  }

  /** The first i cells of the table are swept, the others untouched, those no longer listed were discarded. */
  ghost predicate OversizeSwept(big0: map<nat, Cell>, big: map<nat, Cell>, table: seq<nat>, i: nat, main: bool) {
    && Lists(table, big) && big.Keys <= big0.Keys && i <= |table|
    && (forall k :: 0 <= k < |table| ==> table[k] in big && table[k] in big0)
    && (forall k :: 0 <= k < i ==> !Discarded(big0[table[k]], main) && big[table[k]] == Unmark(big0[table[k]]))
    && (forall k :: i <= k < |table| ==> big[table[k]] == big0[table[k]])
    && (forall p :: p in big0 && p !in big ==> Discarded(big0[p], main))
  }

  lemma OversizeBegins(big: map<nat, Cell>, table: seq<nat>, main: bool)
    requires Lists(table, big)
    ensures OversizeSwept(big, big, table, 0, main)
  {
    forall k | 0 <= k < |table|
      ensures table[k] in big
    {
      assert table[k] in table;
    }
  }

  lemma OversizeKept(big0: map<nat, Cell>, big: map<nat, Cell>, table: seq<nat>, i: nat, main: bool)
    requires OversizeSwept(big0, big, table, i, main) && i < |table| && !Discarded(big[table[i]], main)
    ensures OversizeSwept(big0, big[table[i] := Unmark(big[table[i]])], table, i + 1, main)
  {}

  lemma OversizeReleased(big0: map<nat, Cell>, big: map<nat, Cell>, table: seq<nat>, i: nat, main: bool)
    requires OversizeSwept(big0, big, table, i, main) && i < |table| && Discarded(big[table[i]], main)
    ensures OversizeSwept(big0, big - {table[i]}, SwapOut(table, i), i, main)
  {
    SwapOutLists(table, i);
    var t, p := SwapOut(table, i), table[i];
    forall k | 0 <= k < |t|
      ensures t[k] == (if k == i then table[|table| - 1] else table[k]) && t[k] != p
    {
      assert t[k] in t;
    }
  }

  // What the two sweeps mean together.

  /** Everything is swept. */
  ghost predicate HeapSwept(mem0: Memory, chains0: Chains, big0: map<nat, Cell>, mem: Memory, chains: Chains, big: map<nat, Cell>, main: bool) {
    && FreeLists(mem0, chains0) && FreeLists(mem, chains) && mem.Keys <= mem0.Keys && big.Keys <= big0.Keys
    && (forall b :: b in mem ==> BlockSwept(mem0[b], chains0[b], mem[b], chains[b], main))
    && (forall b :: b in mem0 && b !in mem ==> BlockGone(mem0[b], chains0[b], main))
    && (forall p :: p in big ==> !Discarded(big0[p], main) && big[p] == Unmark(big0[p]))
    && (forall p :: p in big0 && p !in big ==> Discarded(big0[p], main))
  }

  lemma SweepsCover(mem0: Memory, chains0: Chains, big0: map<nat, Cell>, mem: Memory, chains: Chains, big: map<nat, Cell>,
      blocks: seq<nat>, table: seq<nat>, main: bool)
    requires SlabsSwept(mem0, chains0, mem, chains, blocks, |blocks|, main) && OversizeSwept(big0, big, table, |table|, main)
    ensures HeapSwept(mem0, chains0, big0, mem, chains, big, main)
  {
    hide FreeList, BlockSwept, BlockGone, Discarded;
    forall b | b in mem
      ensures BlockSwept(mem0[b], chains0[b], mem[b], chains[b], main)
    {
      assert b in blocks;
    }
    forall p | p in big
      ensures !Discarded(big0[p], main) && big[p] == Unmark(big0[p])
    {
      assert p in table;
    }
  }

  /** Fewer blocks and cells stay apart, and the tables list what is left. */
  lemma SweepsKeepStructure(mem0: Memory, chains0: Chains, big0: map<nat, Cell>, mem: Memory, chains: Chains, big: map<nat, Cell>,
      blocks: seq<nat>, table: seq<nat>, main: bool)
    requires SlabsSwept(mem0, chains0, mem, chains, blocks, |blocks|, main) && OversizeSwept(big0, big, table, |table|, main)
    requires BlocksApart(mem0) && CellsApart(mem0, big0)
    ensures FreeLists(mem, chains) && Lists(blocks, mem) && Lists(table, big) && BlocksApart(mem) && CellsApart(mem, big)
    ensures mem.Keys <= mem0.Keys && big.Keys <= big0.Keys
  {
    hide FreeList, BlockSwept, BlockGone, Discarded;
  }

  /** One cell before and after. */
  lemma SweptCell(mem0: Memory, chains0: Chains, big0: map<nat, Cell>, mem: Memory, chains: Chains, big: map<nat, Cell>, main: bool, a: Addr)
    requires HeapSwept(mem0, chains0, big0, mem, chains, big, main)
    ensures Has(mem, big, a) ==> Has(mem0, big0, a)
    ensures Has(mem0, big0, a) && Kept(CellAt(mem0, big0, a), main) ==> Has(mem, big, a) && CellAt(mem, big, a) == Unmark(CellAt(mem0, big0, a))
    ensures Has(mem, big, a) && CellAt(mem, big, a).Live? ==> Kept(CellAt(mem0, big0, a), main)
    ensures Has(mem0, big0, a) && CellAt(mem0, big0, a).Raw? && !OnFreeList(chains0, a) && (a.Slab? || !main) ==>
      Has(mem, big, a) && CellAt(mem, big, a).Raw? && !OnFreeList(chains, a)
    ensures Has(mem, big, a) && CellAt(mem, big, a).Raw? && !OnFreeList(chains, a) ==>
      CellAt(mem0, big0, a).Raw? && !OnFreeList(chains0, a) && (a.Slab? || !main)
  {
    hide FreeList, Linked;
    match a {
      case Slab(b, i) =>
        if b in mem0 && i < CELLS {
          if b in mem {
            assert BlockSwept(mem0[b], chains0[b], mem[b], chains[b], main);
          } else {
            assert BlockGone(mem0[b], chains0[b], main);
          }
        }
      case Oversize(p) =>
    }
  }

  /** The sweep keeps exactly the survivors, clears every mark, and of the raw cells discards oversize ones only. */
  lemma SweptHeap(mem0: Memory, chains0: Chains, big0: map<nat, Cell>, mem: Memory, chains: Chains, big: map<nat, Cell>, main: bool)
    requires HeapSwept(mem0, chains0, big0, mem, chains, big, main)
    ensures GraphOf(mem, big) == Survivors(GraphOf(mem0, big0), MarkedOf(mem0, big0), main)
    ensures MarkedOf(mem, big) == {}
    ensures forall a :: a in RawOf(mem, chains, big) <==> a in RawOf(mem0, chains0, big0) && (a.Slab? || !main)
  {
    hide HeapSwept, GraphOf, MarkedOf, RawOf, Survivors, Has, CellAt, OnFreeList;
    forall a
      ensures a in GraphOf(mem, big) <==> a in Survivors(GraphOf(mem0, big0), MarkedOf(mem0, big0), main)
      ensures a in GraphOf(mem, big) ==> GraphOf(mem, big)[a] == GraphOf(mem0, big0)[a] && a !in MarkedOf(mem, big)
      ensures a in RawOf(mem, chains, big) <==> a in RawOf(mem0, chains0, big0) && (a.Slab? || !main)
    {
      SweptCell(mem0, chains0, big0, mem, chains, big, main, a);
    }
  }
}
