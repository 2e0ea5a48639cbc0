/** The collector's memory as values: which cells are objects, which are allocated and unconstructed, which are marked. */
module HeapState {
  import opened FiniteSets
  import opened Slabs
  import opened Reachability

  type Memory = map<nat, Block>
  type Chains = map<nat, seq<nat>>

  const ADDRESS_SPACE: nat := 0x1_0000_0000

  predicate Has(mem: Memory, big: map<nat, Cell>, a: Addr) {
    match a
    case Slab(b, i) => b in mem && i < CELLS && i < |mem[b].cells|
    case Oversize(p) => p in big
  }

  function CellAt(mem: Memory, big: map<nat, Cell>, a: Addr): Cell
    requires Has(mem, big, a)
  {
    match a
    case Slab(b, i) => mem[b].cells[i]
    case Oversize(p) => big[p]
  }

  /** All addresses of cells. */
  ghost function Places(mem: Memory, big: map<nat, Cell>): (s: set<Addr>)
    ensures forall a :: Has(mem, big, a) ==> a in s
  {
    (set b, i: nat | b in mem && i in Indices(CELLS) :: Slab(b, i)) + (set p | p in big :: Oversize(p))
  }

  /** The constructed objects. */
  ghost function GraphOf(mem: Memory, big: map<nat, Cell>): (g: Graph)
    ensures forall a :: a in g <==> Has(mem, big, a) && CellAt(mem, big, a).Live?
    ensures forall a :: a in g ==> g[a] == CellAt(mem, big, a).o
  {
    map a | a in Places(mem, big) && Has(mem, big, a) && CellAt(mem, big, a).Live? :: CellAt(mem, big, a).o
  }

  ghost function MarkedOf(mem: Memory, big: map<nat, Cell>): (s: set<Addr>)
    ensures forall a :: a in s <==> Has(mem, big, a) && CellAt(mem, big, a).Live? && CellAt(mem, big, a).marked
  {
    set a | a in Places(mem, big) && Has(mem, big, a) && CellAt(mem, big, a).Live? && CellAt(mem, big, a).marked
  }

  predicate OnFreeList(chains: Chains, a: Addr) {
    a.Slab? && a.base in chains && a.index in chains[a.base]
  }

  /** Handed out but not yet constructed. */
  ghost function RawOf(mem: Memory, chains: Chains, big: map<nat, Cell>): (s: set<Addr>)
    ensures forall a :: a in s <==> Has(mem, big, a) && CellAt(mem, big, a).Raw? && !OnFreeList(chains, a)
  {
    set a | a in Places(mem, big) && Has(mem, big, a) && CellAt(mem, big, a).Raw? && !OnFreeList(chains, a)
  }

  /** Used cells by block. */
  ghost function UsesOf(mem: Memory): map<nat, nat> {
    map b | b in mem :: mem[b].usedCells
  }

  ghost predicate FreeLists(mem: Memory, chains: Chains) {
    mem.Keys == chains.Keys && forall b :: b in mem ==> FreeList(mem[b], chains[b])
  }

  /** A table lists exactly the blocks (or cells) in memory, each once. */
  ghost predicate Lists<T>(table: seq<nat>, m: map<nat, T>) {
    NoDuplicates(table) && forall p :: p in table <==> p in m
  }

  /** Blocks are aligned, inside the address space and apart from each other... */
  ghost predicate BlocksApart(mem: Memory) {
    && (forall b :: b in mem ==> 0 < b && b % 8 == 0 && b + BLOCK_SIZE <= ADDRESS_SPACE)
    && (forall b, c :: b in mem && c in mem && b < c ==> b + BLOCK_SIZE <= c)
  }

  /** ... and from the oversize cells. */
  ghost predicate CellsApart(mem: Memory, big: map<nat, Cell>) {
    && (forall p :: p in big ==> 0 < p < ADDRESS_SPACE && p % 8 == 0)
    && (forall b, p :: b in mem && p in big ==> p < b || b + BLOCK_SIZE <= p)
  }

  /** Used cells in the blocks of a table. */
  function Used(mem: Memory, table: seq<nat>): nat
    requires forall k :: 0 <= k < |table| ==> table[k] in mem
  {
    if table == [] then 0 else Used(mem, table[..|table| - 1]) + mem[table[|table| - 1]].usedCells
  }

  /** Blocks without used cells. */
  function Empties(mem: Memory, table: seq<nat>): nat
    requires forall k :: 0 <= k < |table| ==> table[k] in mem
  {
    if table == [] then 0
    else Empties(mem, table[..|table| - 1]) + if mem[table[|table| - 1]].usedCells == 0 then 1 else 0
  }

  /** Both depend only on the counts in the table's blocks. */
  lemma {:induction false} SameCounts(mem: Memory, mem1: Memory, table: seq<nat>)
    requires forall k :: 0 <= k < |table| ==> table[k] in mem && table[k] in mem1
    requires forall k :: 0 <= k < |table| ==> mem[table[k]].usedCells == mem1[table[k]].usedCells
    ensures Used(mem, table) == Used(mem1, table) && Empties(mem, table) == Empties(mem1, table)
  {
    if table != [] {
      SameCounts(mem, mem1, table[..|table| - 1]);
    }
  }

  /** One block's count changes. */
  lemma {:induction false} UsedAfterUpdate(mem: Memory, mem1: Memory, table: seq<nat>, j: nat)
    requires j < |table| && NoDuplicates(table)
    requires forall k :: 0 <= k < |table| ==> table[k] in mem && table[k] in mem1
    requires forall k :: 0 <= k < |table| && k != j ==> mem[table[k]].usedCells == mem1[table[k]].usedCells
    ensures Used(mem1, table) == Used(mem, table) + mem1[table[j]].usedCells - mem[table[j]].usedCells
  {
    var n := |table| - 1;
    if j == n {
      SameCounts(mem, mem1, table[..n]);
    } else {
      UsedAfterUpdate(mem, mem1, table[..n], j);
    }
  }

  lemma {:induction false} EmptiesOfPrefix(mem: Memory, table: seq<nat>, n: nat)
    requires n <= |table| && forall k :: 0 <= k < |table| ==> table[k] in mem
    ensures Empties(mem, table[..n]) <= Empties(mem, table)
  {
    if n < |table| {
      EmptiesOfPrefix(mem, table[..|table| - 1], n);
      assert table[..|table| - 1][..n] == table[..n];
    } else {
      assert table[..n] == table;
    }
  }

  /** No free cell before the search index, and at most two spare empty blocks. */
  ghost predicate Searchable(mem: Memory, blocks: seq<nat>, first: nat) {
    && (forall k :: 0 <= k < |blocks| ==> blocks[k] in mem)
    && first <= |blocks| && (forall k :: 0 <= k < first ==> mem[blocks[k]].usedCells == CELLS)
    && Empties(mem, blocks) <= 2
  }

  lemma SearchableParts(mem: Memory, blocks: seq<nat>, first: nat)
    requires Searchable(mem, blocks, first)
    ensures (forall k :: 0 <= k < |blocks| ==> blocks[k] in mem) && Empties(mem, blocks) <= 2 && first <= |blocks|
  {}

  /** Removing an entry, with the last one taking its place. */
  function SwapOut(table: seq<nat>, i: nat): seq<nat>
    requires i < |table|
  {
    table[i := table[|table| - 1]][..|table| - 1]
  }

  lemma SwapOutLists(table: seq<nat>, i: nat)
    requires i < |table| && NoDuplicates(table)
    ensures NoDuplicates(SwapOut(table, i)) && forall p :: p in SwapOut(table, i) <==> p in table && p != table[i]
  {
    var t, n := SwapOut(table, i), |table| - 1;
    forall p
      ensures p in t <==> p in table && p != table[i]
    {
      if p in table && p != table[i] {
        var k :| 0 <= k < |table| && table[k] == p;
        if k < n {
          assert t[k] == p;
        } else {
          assert t[i] == p;
        }
      }
    }
  }

  lemma ListsExtended<T>(table: seq<nat>, m: map<nat, T>, p: nat, v: T)
    requires Lists(table, m) && p !in m
    ensures Lists(table + [p], m[p := v])
  {
    forall q
      ensures q in table + [p] <==> q in m[p := v]
    {}
  }

  lemma ListsAfterSwapOut<T>(table: seq<nat>, m: map<nat, T>, i: nat)
    requires i < |table| && Lists(table, m)
    ensures Lists(SwapOut(table, i), m - {table[i]})
    ensures forall k :: 0 <= k < |table| - 1 ==> SwapOut(table, i)[k] in m - {table[i]}
  {
    SwapOutLists(table, i);
    var t := SwapOut(table, i);
    forall k | 0 <= k < |t|
      ensures t[k] in m - {table[i]}
    {
      assert t[k] in t;
    }
  }

  /** Where the entries come from. */
  lemma SwapOutEntries(table: seq<nat>, i: nat)
    requires i < |table| && NoDuplicates(table)
    ensures var t := SwapOut(table, i);
      && |t| == |table| - 1 && t[..if i < |t| then i else |t|] == table[..if i < |t| then i else |t|]
      && (forall k :: 0 <= k < |t| ==> t[k] == (if k == i then table[|table| - 1] else table[k]) && t[k] != table[i])
  {}

  lemma {:induction false} UsedOfUpdate(mem: Memory, table: seq<nat>, i: nat, p: nat)
    requires i < |table| && p in mem && forall k :: 0 <= k < |table| ==> table[k] in mem
    ensures Used(mem, table[i := p]) == Used(mem, table) - mem[table[i]].usedCells + mem[p].usedCells
  {
    var n := |table| - 1;
    if i < n {
      UsedOfUpdate(mem, table[..n], i, p);
      assert table[i := p][..n] == table[..n][i := p];
    } else {
      assert table[i := p][..n] == table[..n];
    }
  }

  lemma UsedOfSwapOut(mem: Memory, table: seq<nat>, i: nat)
    requires i < |table| && forall k :: 0 <= k < |table| ==> table[k] in mem
    ensures Used(mem, SwapOut(table, i)) == Used(mem, table) - mem[table[i]].usedCells
  {
    var last := table[|table| - 1];
    UsedOfUpdate(mem, table, i, last);
  }

  lemma SameUses(mem0: Memory, mem: Memory, blocks: seq<nat>, first: nat)
    requires UsesOf(mem0) == UsesOf(mem) && Searchable(mem0, blocks, first)
    ensures Searchable(mem, blocks, first) && Used(mem0, blocks) == Used(mem, blocks) && mem0.Keys == mem.Keys
  {
    assert mem0.Keys == UsesOf(mem0).Keys == UsesOf(mem).Keys == mem.Keys;
    forall k | 0 <= k < |blocks|
      ensures blocks[k] in mem && mem[blocks[k]].usedCells == mem0[blocks[k]].usedCells
    {
      assert blocks[k] in UsesOf(mem0);
    }
    SameCounts(mem0, mem, blocks);
  }

  // Setting one mark.

  function SetMarked(c: Cell): Cell
    requires c.Live?
  {
    c.(marked := true)
  }

  lemma MarkKeepsFreeList(b: Block, f: seq<nat>, i: nat)
    requires FreeList(b, f) && i < CELLS && b.cells[i].Live?
    ensures FreeList(b.(cells := b.cells[i := SetMarked(b.cells[i])]), f)
  {}

  /** The same cells, up to marks. */
  ghost predicate SameObjects(mem: Memory, big: map<nat, Cell>, mem1: Memory, big1: map<nat, Cell>) {
    && mem.Keys == mem1.Keys && big.Keys == big1.Keys
    && (forall b :: b in mem ==> |mem[b].cells| == |mem1[b].cells| && mem[b].usedCells == mem1[b].usedCells)
    && (forall a :: Has(mem, big, a) ==> Unmark(CellAt(mem, big, a)) == Unmark(CellAt(mem1, big1, a)))
  }

  lemma SameObjectsSameGraph(mem: Memory, chains: Chains, big: map<nat, Cell>, mem1: Memory, big1: map<nat, Cell>)
    requires SameObjects(mem, big, mem1, big1)
    ensures GraphOf(mem, big) == GraphOf(mem1, big1) && RawOf(mem, chains, big) == RawOf(mem1, chains, big1)
  {
    hide GraphOf, RawOf, CellAt;
    forall a
      ensures Has(mem, big, a) <==> Has(mem1, big1, a)
    {}
    SameObjectsEverywhere(mem, big, mem1, big1);
  }

  lemma SameObjectsEverywhere(mem: Memory, big: map<nat, Cell>, mem1: Memory, big1: map<nat, Cell>)
    requires SameObjects(mem, big, mem1, big1)
    ensures forall a :: Has(mem, big, a) <==> Has(mem1, big1, a)
    ensures forall a :: Has(mem, big, a) ==>
      var c, c1 := CellAt(mem, big, a), CellAt(mem1, big1, a); c.Live? == c1.Live? && (c.Live? ==> c.o == c1.o)
  {}

  // Handing out cells.

  /** The system allocator may hand out a block here: it meets no live block or cell. */
  ghost predicate MayAllocate(mem: Memory, big: map<nat, Cell>, at: nat) {
    && 0 < at && at % 8 == 0 && at + BLOCK_SIZE <= ADDRESS_SPACE
    && (forall b :: b in mem ==> at + BLOCK_SIZE <= b || b + BLOCK_SIZE <= at)
    && (forall p :: p in big ==> p < at || at + BLOCK_SIZE <= p)
  }

  /** With less in memory there is room where there was. */
  lemma StillMayAllocate(mem0: Memory, big0: map<nat, Cell>, mem: Memory, big: map<nat, Cell>, at: nat)
    requires MayAllocate(mem0, big0, at) && mem.Keys <= mem0.Keys && big.Keys <= big0.Keys
    ensures MayAllocate(mem, big, at)
  {
    forall b | b in mem
      ensures at + BLOCK_SIZE <= b || b + BLOCK_SIZE <= at
    {
      assert b in mem0;
    }
    forall p | p in big
      ensures p < at || at + BLOCK_SIZE <= p
    {
      assert p in big0;
    }
  }

  lemma RawAreNotObjects(mem: Memory, chains: Chains, big: map<nat, Cell>)
    ensures RawOf(mem, chains, big) !! GraphOf(mem, big).Keys
  {
    hide RawOf, GraphOf;
  }

  /** A zeroed oversize cell at an address of its own. */
  lemma OversizeAdded(mem: Memory, chains: Chains, big: map<nat, Cell>, p: nat)
    requires MayAllocate(mem, big, p) && CellsApart(mem, big)
    ensures var big1 := big[p := Raw(0)];
      && CellsApart(mem, big1) && GraphOf(mem, big1) == GraphOf(mem, big) && MarkedOf(mem, big1) == MarkedOf(mem, big)
      && RawOf(mem, chains, big1) == RawOf(mem, chains, big) + {Oversize(p)} && Oversize(p) !in RawOf(mem, chains, big)
  {
    hide GraphOf, MarkedOf, RawOf;
    var big1 := big[p := Raw(0)];
    forall a
      ensures Has(mem, big1, a) <==> Has(mem, big, a) || a == Oversize(p)
      ensures Has(mem, big, a) ==> CellAt(mem, big1, a) == CellAt(mem, big, a)
    {}
  }

  lemma FreshAddress(mem: Memory, big: map<nat, Cell>, at: nat)
    requires MayAllocate(mem, big, at)
    ensures at !in mem && at !in big
  {}

  /** A new block, zeroed, at an address of its own: nothing else changes. */
  lemma BlockAdded(mem: Memory, chains: Chains, big: map<nat, Cell>, p: nat)
    requires FreeLists(mem, chains) && p !in mem
    ensures var mem1, chains1 := mem[p := ZeroedBlock()], chains[p := Descending()];
      && FreeLists(mem1, chains1) && GraphOf(mem1, big) == GraphOf(mem, big)
      && MarkedOf(mem1, big) == MarkedOf(mem, big) && RawOf(mem1, chains1, big) == RawOf(mem, chains, big)
  {
    hide FreeList, GraphOf, MarkedOf, RawOf, Descending;
    var mem1, chains1 := mem[p := ZeroedBlock()], chains[p := Descending()];
    ZeroedBlockIsFree();
    forall a
      ensures Has(mem, big, a) ==> Has(mem1, big, a) && CellAt(mem1, big, a) == CellAt(mem, big, a)
      ensures Has(mem1, big, a) && !Has(mem, big, a) ==> CellAt(mem1, big, a) == Raw(0) && OnFreeList(chains1, a)
      ensures Has(mem, big, a) ==> (OnFreeList(chains1, a) <==> OnFreeList(chains, a))
    {
      AllDescending();
    }
  }

  lemma AllDescending()
    ensures forall i :: 0 <= i < CELLS ==> i in Descending()
  {
    forall i | 0 <= i < CELLS
      ensures i in Descending()
    {
      assert Descending()[CELLS - 1 - i] == i;
    }
  }

  /** The first free cell of a block is taken: it becomes raw, and that is all. */
  lemma CellTaken(mem: Memory, chains: Chains, big: map<nat, Cell>, p: nat, b1: Block, i: nat)
    requires FreeLists(mem, chains) && p in mem && mem[p].usedCells < CELLS
    requires var f := chains[p];
      && |f| > 0 && i == f[|f| - 1] && i < CELLS && i !in f[..|f| - 1] && mem[p].cells[i].Raw?
      && b1.cells == mem[p].cells && FreeList(b1, f[..|f| - 1])
    ensures var mem1, chains1 := mem[p := b1], chains[p := chains[p][..|chains[p]| - 1]];
      && FreeLists(mem1, chains1) && GraphOf(mem1, big) == GraphOf(mem, big) && MarkedOf(mem1, big) == MarkedOf(mem, big)
      && RawOf(mem1, chains1, big) == RawOf(mem, chains, big) + {Slab(p, i)} && Slab(p, i) !in RawOf(mem, chains, big)
  {
    hide FreeList, GraphOf, MarkedOf, RawOf;
    var f := chains[p];
    var mem1, chains1 := mem[p := b1], chains[p := f[..|f| - 1]];
    assert |mem[p].cells| == CELLS by { BlockSize(mem[p], f); }
    assert f == f[..|f| - 1] + [i];
    forall a
      ensures Has(mem, big, a) <==> Has(mem1, big, a)
      ensures Has(mem, big, a) ==> CellAt(mem1, big, a) == CellAt(mem, big, a)
      ensures OnFreeList(chains1, a) <==> OnFreeList(chains, a) && a != Slab(p, i)
    {}
  }

  lemma BlockSize(b: Block, f: seq<nat>)
    requires FreeList(b, f)
    ensures |b.cells| == CELLS && (b.usedCells < CELLS ==> |f| > 0)
  {}

  /** One more used cell in block i. */
  lemma TakenCount(mem: Memory, blocks: seq<nat>, i: nat, b1: Block)
    requires i < |blocks| && NoDuplicates(blocks) && (forall k :: 0 <= k < |blocks| ==> blocks[k] in mem)
    requires b1.usedCells == mem[blocks[i]].usedCells + 1
    ensures var mem1 := mem[blocks[i] := b1];
      && Used(mem1, blocks) == Used(mem, blocks) + 1
      && Empties(mem1, blocks) == Empties(mem, blocks) - (if mem[blocks[i]].usedCells == 0 then 1 else 0)
  {
    UsedAfterUpdate(mem, mem[blocks[i] := b1], blocks, i);
    EmptiesAfterUse(mem, blocks, i, b1);
  }

  lemma {:induction false} EmptiesAfterUse(mem: Memory, blocks: seq<nat>, i: nat, b1: Block)
    requires i < |blocks| && NoDuplicates(blocks) && (forall k :: 0 <= k < |blocks| ==> blocks[k] in mem)
    requires b1.usedCells > 0
    ensures Empties(mem[blocks[i] := b1], blocks) == Empties(mem, blocks) - (if mem[blocks[i]].usedCells == 0 then 1 else 0)
  {
    var n := |blocks| - 1;
    if i == n {
      SameCounts(mem, mem[blocks[i] := b1], blocks[..n]);
    } else {
      EmptiesAfterUse(mem, blocks[..n], i, b1);
    }
  }

  /** Block i is the first with a free cell, and may be an empty one too many. */
  ghost predicate HasSpace(mem: Memory, blocks: seq<nat>, i: nat) {
    && i < |blocks| && (forall k :: 0 <= k < |blocks| ==> blocks[k] in mem)
    && (forall k :: 0 <= k < i ==> mem[blocks[k]].usedCells == CELLS) && mem[blocks[i]].usedCells < CELLS
    && Empties(mem, blocks) <= if mem[blocks[i]].usedCells == 0 then 3 else 2
  }

  /** Taking a cell from it settles that. */
  lemma TakeFromSpace(mem: Memory, blocks: seq<nat>, i: nat)
    requires HasSpace(mem, blocks, i) && NoDuplicates(blocks)
    ensures i < |blocks| && blocks[i] in mem && mem[blocks[i]].usedCells < CELLS
    ensures forall k :: 0 <= k < |blocks| ==> blocks[k] in mem
    ensures forall b1: Block :: b1.usedCells == mem[blocks[i]].usedCells + 1 ==>
      Searchable(mem[blocks[i] := b1], blocks, i) && Used(mem[blocks[i] := b1], blocks) == Used(mem, blocks) + 1
  {
    forall b1: Block | b1.usedCells == mem[blocks[i]].usedCells + 1
      ensures Searchable(mem[blocks[i] := b1], blocks, i) && Used(mem[blocks[i] := b1], blocks) == Used(mem, blocks) + 1
    {
      TakenCount(mem, blocks, i, b1);
    }
  }

  /** A new empty block at the end of the table. */
  lemma AddedCount(mem: Memory, blocks: seq<nat>, p: nat)
    requires (forall k :: 0 <= k < |blocks| ==> blocks[k] in mem) && p !in mem
    ensures var mem1 := mem[p := ZeroedBlock()];
      && Used(mem1, blocks + [p]) == Used(mem, blocks) && Empties(mem1, blocks + [p]) == Empties(mem, blocks) + 1
  {
    var mem1 := mem[p := ZeroedBlock()];
    SameCounts(mem, mem1, blocks);
    assert (blocks + [p])[..|blocks|] == blocks;
  }

  /** A cell is constructed or overwritten: no other cell is touched. */
  lemma CellWritten(mem: Memory, chains: Chains, big: map<nat, Cell>, mem1: Memory, big1: map<nat, Cell>, a: Addr, o: Object)
    requires Has(mem, big, a) && (CellAt(mem, big, a).Raw? ==> !OnFreeList(chains, a))
    requires CellAt(mem, big, a).Live? ==> !CellAt(mem, big, a).marked
    requires match a
      case Slab(b, i) => big1 == big && mem1 == mem[b := mem[b].(cells := mem[b].cells[i := Live(o, false)])]
      case Oversize(p) => mem1 == mem && big1 == big[p := Live(o, false)]
    ensures GraphOf(mem1, big1) == GraphOf(mem, big)[a := o] && MarkedOf(mem1, big1) == MarkedOf(mem, big)
    ensures RawOf(mem1, chains, big1) == RawOf(mem, chains, big) - {a}
  {
    hide GraphOf, MarkedOf, RawOf, OnFreeList, Has, CellAt;
    OneCellWritten(mem, big, mem1, big1, a, o);
  }

  lemma OneCellWritten(mem: Memory, big: map<nat, Cell>, mem1: Memory, big1: map<nat, Cell>, a: Addr, o: Object)
    requires Has(mem, big, a)
    requires match a
      case Slab(b, i) => big1 == big && mem1 == mem[b := mem[b].(cells := mem[b].cells[i := Live(o, false)])]
      case Oversize(p) => mem1 == mem && big1 == big[p := Live(o, false)]
    ensures forall c :: Has(mem1, big1, c) <==> Has(mem, big, c)
    ensures forall c :: Has(mem, big, c) ==> CellAt(mem1, big1, c) == if c == a then Live(o, false) else CellAt(mem, big, c)
  {}

  lemma WriteKeepsFreeList(b: Block, f: seq<nat>, i: nat, c: Cell)
    requires FreeList(b, f) && i < CELLS && i !in f
    ensures FreeList(b.(cells := b.cells[i := c]), f)
  {
    forall k | 0 <= k < |f|
      ensures f[k] != i
    {}
  }

  lemma LiveIsNotFree(b: Block, f: seq<nat>, i: nat)
    requires FreeList(b, f) && i < CELLS && b.cells[i].Live?
    ensures i !in f
  {}
}
