/** One block of collector.cpp's slab allocator: cells, the offset-linked free list, allocation and sweep. */
module Slabs {
  import opened FiniteSets

  /** CELLS_PER_BLOCK for 32768-byte blocks of 48-byte cells. */
  const CELLS: nat := 682
  const CELL_SIZE: nat := 48
  const BLOCK_SIZE: nat := 32768

  /** With a count of four bytes and a pointer of eight behind them, there is room for this many cells and no more. */
  lemma CellsFillBlock()
    ensures CELL_SIZE * CELLS + 12 <= BLOCK_SIZE < CELL_SIZE * (CELLS + 1) + 12
  {}

  /** A cell's address: block base and index, or an oversize cell. */
  datatype Addr = Slab(base: nat, index: nat) | Oversize(at: nat)

  /**
   * Ordinary objects set their own mark before visiting their children; activations visit the early ones
   * (function, arguments, arguments object) first.
   */
  datatype Kind = Ordinary | Activation

  datatype Object = Object(kind: Kind, early: seq<Addr>, late: seq<Addr>, threadSafe: bool)

  /**
   * A cell's memory: raw while zeroIfFree is zero, with next as a byte offset from the following cell; or a
   * constructed object with its mark. The mark and thread-safety bits of a raw cell read as clear, as they
   * overlap the low bits of next, a multiple of 16.
   */
  datatype Cell = Raw(next: int) | Live(o: Object, marked: bool)

  datatype Block = Block(cells: seq<Cell>, usedCells: nat, freeList: nat)

  // The free list. Element k of f points to element k - 1, the first to the end of the block.

  function After(f: seq<nat>, k: nat): nat
    requires k < |f|
  {
    if k == 0 then CELLS else f[k - 1]
  }

  /** The cell that ends up at index i when it is linked in front of cell j. */
  function Link(i: int, j: int): Cell {
    Raw(CELL_SIZE * (j - (i + 1)))
  }

  ghost predicate Linked(cells: seq<Cell>, f: seq<nat>) {
    forall k :: 0 <= k < |f| ==> f[k] < |cells| && cells[f[k]] == Link(f[k], After(f, k))
  }

  function Head(f: seq<nat>): nat {
    if f == [] then CELLS else f[|f| - 1]
  }

  /** f is b's free list, last element first to be handed out: exactly the cells that are not in use, each once. */
  ghost predicate FreeList(b: Block, f: seq<nat>) {
    && |b.cells| == CELLS && b.usedCells <= CELLS && |f| == CELLS - b.usedCells
    && Linked(b.cells, f) && NoDuplicates(f) && b.freeList == Head(f)
  }

  /** A freshly cleared block. */
  function ZeroedBlock(): Block {
    Block(seq(CELLS, _ => Raw(0)), 0, 0)
  }

  function Descending(): seq<nat> {
    seq(CELLS, k requires 0 <= k < CELLS => CELLS - 1 - k)
  }

  /** A zeroed block is already a free list of all its cells, in order. */
  lemma ZeroedBlockIsFree()
    ensures FreeList(ZeroedBlock(), Descending())
  {}

  /** The cell at the head of the free list. */
  lemma FirstOfList(b: Block, f: seq<nat>)
    requires FreeList(b, f) && b.usedCells < CELLS
    ensures |f| > 0 && b.freeList == f[|f| - 1] < CELLS == |b.cells| && f[|f| - 1] !in f[..|f| - 1]
    ensures b.cells[b.freeList] == Link(b.freeList, After(f, |f| - 1))
  {}

  lemma PrefixIsLinked(cells: seq<Cell>, f: seq<nat>)
    requires Linked(cells, f) && |f| > 0
    ensures Linked(cells, f[..|f| - 1]) && Head(f[..|f| - 1]) == After(f, |f| - 1)
  {
    hide Link;
    var rest := f[..|f| - 1];
    forall k | 0 <= k < |rest|
      ensures rest[k] < |cells| && cells[rest[k]] == Link(rest[k], After(rest, k))
    {
      assert rest[k] == f[k] && After(rest, k) == After(f, k);
    }
  }

  lemma PrefixHasNoDuplicates(f: seq<nat>)
    requires NoDuplicates(f) && |f| > 0
    ensures NoDuplicates(f[..|f| - 1])
  {}

  /** The list without its head. */
  lemma RestOfList(b: Block, f: seq<nat>, b1: Block)
    requires FreeList(b, f) && |f| > 0
    requires b1 == b.(freeList := After(f, |f| - 1), usedCells := b.usedCells + 1)
    ensures FreeList(b1, f[..|f| - 1])
  {
    hide Linked, NoDuplicates, After, Head;
    PrefixIsLinked(b.cells, f);
    PrefixHasNoDuplicates(f);
  }

  /** A link's byte offset leads to the cell it was made for. */
  lemma OffsetLeads(i: int, j: int)
    ensures i + 1 + CELL_SIZE * (j - (i + 1)) / CELL_SIZE == j
  {}

  /** Takes the first free cell. */
  method TakeCell(b: Block, ghost f: seq<nat>) returns (b1: Block, i: nat)
    requires FreeList(b, f) && b.usedCells < CELLS
    ensures i < CELLS && i == f[|f| - 1] && i !in f[..|f| - 1] && b.cells[i].Raw?
    ensures b1.cells == b.cells && b1.usedCells == b.usedCells + 1 && FreeList(b1, f[..|f| - 1])
  {
    hide FreeList;
    FirstOfList(b, f);
    i := b.freeList;
    var next := b.cells[i].next;
    OffsetLeads(i, After(f, |f| - 1));
    RestOfList(b, f, b.(freeList := After(f, |f| - 1), usedCells := b.usedCells + 1));
    b1 := b.(freeList := i + 1 + next / CELL_SIZE, usedCells := b.usedCells + 1);
  }

  /** Constructed objects among the first n cells. */
  function Constructed(cells: seq<Cell>, n: nat): nat
    requires n <= |cells|
  {
    if n == 0 then 0 else Constructed(cells, n - 1) + if cells[n - 1].Live? then 1 else 0
  }

  function LiveCells(cells: seq<Cell>, n: nat): (s: set<nat>)
    requires n <= |cells|
    ensures |s| == Constructed(cells, n) && forall i: nat :: i in s <==> i < n && cells[i].Live?
  {
    if n == 0 then {} else if cells[n - 1].Live? then LiveCells(cells, n - 1) + {n - 1} else LiveCells(cells, n - 1)
  }

  lemma {:induction false} ConstructedGrows(cells: seq<Cell>, m: nat, n: nat)
    requires m <= n <= |cells|
    ensures Constructed(cells, m) <= Constructed(cells, n)
    ensures Constructed(cells, m) == Constructed(cells, n) ==> forall i :: m <= i < n ==> cells[i].Raw?
  {
    if m < n {
      ConstructedGrows(cells, m, n - 1);
    }
  }

  /** No more objects than used cells: the free list takes all the others. */
  lemma ConstructedAtMostUsed(b: Block, f: seq<nat>)
    requires FreeList(b, f)
    ensures Constructed(b.cells, CELLS) <= b.usedCells
  {
    var live, free := LiveCells(b.cells, CELLS), Elements(f);
    hide Constructed, LiveCells, Elements, Indices;
    SubsetSize(live + free, Indices(CELLS));
  }

  // Sweeping.

  /** What survives a sweep: marked objects, and away from the main thread those it may not destroy. */
  predicate Kept(c: Cell, main: bool) {
    c.Live? && (c.marked || !(main || c.o.threadSafe))
  }

  predicate Dies(c: Cell, main: bool) {
    c.Live? && !Kept(c, main)
  }

  function Unmark(c: Cell): Cell {
    if c.Live? then c.(marked := false) else c
  }

  /** c1 is c after the sweep, up to the link of a freed cell. */
  ghost predicate Swept(c: Cell, c1: Cell, main: bool) {
    if Dies(c, main) then c1.Raw? else c1 == Unmark(c)
  }

  /** A sweep has dealt with the first n of the cells c0... */
  ghost predicate SweptCells(c0: seq<Cell>, n: nat, main: bool, cells: seq<Cell>) {
    && |c0| == |cells| == CELLS && n <= CELLS
    && (forall i :: 0 <= i < n ==> Swept(c0[i], cells[i], main))
    && (forall i :: n <= i < CELLS ==> cells[i] == c0[i])
  }

  /** ... and put those that died on top of the free list f0. */
  ghost predicate SweptList(c0: seq<Cell>, f0: seq<nat>, n: nat, main: bool, f: seq<nat>) {
    && |c0| == CELLS && n <= CELLS && f0 <= f && NoDuplicates(f)
    && (forall k :: 0 <= k < |f0| ==> f0[k] < CELLS && c0[f0[k]].Raw?)
    && (forall k :: |f0| <= k < |f| ==> f[k] < n && Dies(c0[f[k]], main))
    && (forall i :: 0 <= i < n && Dies(c0[i], main) ==> i in f)
  }

  lemma OneMoreDies(c0: seq<Cell>, f0: seq<nat>, n: nat, main: bool, f: seq<nat>)
    requires SweptList(c0, f0, n, main, f) && n < CELLS && Dies(c0[n], main)
    ensures SweptList(c0, f0, n + 1, main, f + [n]) && n !in f
  {
    forall k | 0 <= k < |f|
      ensures f[k] != n
    {
      if k < |f0| {
        assert f[k] == f0[k];
      }
    }
  }

  lemma OneMoreStays(c0: seq<Cell>, f0: seq<nat>, n: nat, main: bool, f: seq<nat>)
    requires SweptList(c0, f0, n, main, f) && n < CELLS && !Dies(c0[n], main)
    ensures SweptList(c0, f0, n + 1, main, f)
    ensures c0[n].Live? ==> n !in f
  {
    forall k | 0 <= k < |f|
      ensures c0[n].Live? ==> f[k] != n
    {
      if k < |f0| {
        assert f[k] == f0[k];
      }
    }
  }

  lemma LinkInFront(cells: seq<Cell>, f: seq<nat>, i: nat)
    requires Linked(cells, f) && i < |cells| && i !in f
    ensures Linked(cells[i := Link(i, Head(f))], f + [i])
  {
    forall k | 0 <= k < |f|
      ensures After(f + [i], k) == After(f, k) && f[k] != i
    {}
  }

  lemma UnmarkElsewhere(cells: seq<Cell>, f: seq<nat>, i: nat, c: Cell)
    requires Linked(cells, f) && i < |cells| && i !in f
    ensures Linked(cells[i := c], f)
  {
    forall k | 0 <= k < |f|
      ensures f[k] != i
    {}
  }

  /** The sweep's state after n cells. */
  ghost predicate Sweeping(c0: seq<Cell>, f0: seq<nat>, n: nat, main: bool, cells: seq<Cell>, freeList: nat, freed: nat, f: seq<nat>) {
    && SweptCells(c0, n, main, cells) && SweptList(c0, f0, n, main, f) && Linked(cells, f)
    && freeList == Head(f) && freed == |f| - |f0|
  }

  lemma SweepStarts(b: Block, f0: seq<nat>, main: bool)
    requires FreeList(b, f0)
    ensures Sweeping(b.cells, f0, 0, main, b.cells, b.freeList, 0, f0)
  {}

  /** What the scan does with cell n: unmark, destroy and link, or pass over. */
  method SweepCell(ghost c0: seq<Cell>, ghost f0: seq<nat>, n: nat, main: bool, cells: seq<Cell>, freeList: nat, freed: nat, ghost f: seq<nat>)
    returns (cells1: seq<Cell>, freeList1: nat, freed1: nat, ghost f1: seq<nat>)
    requires Sweeping(c0, f0, n, main, cells, freeList, freed, f) && n < CELLS
    ensures Sweeping(c0, f0, n + 1, main, cells1, freeList1, freed1, f1)
  {
    hide Linked, SweptList, NoDuplicates;
    cells1, freeList1, freed1, f1 := cells, freeList, freed, f;
    var c := cells[n];
    if c.Live? && c.marked {
      OneMoreStays(c0, f0, n, main, f);
      UnmarkElsewhere(cells, f, n, c.(marked := false));
      cells1 := cells[n := c.(marked := false)];
    } else if main || (c.Live? && c.o.threadSafe) {
      if c.Raw? {
        OneMoreStays(c0, f0, n, main, f);
        return;
      }
      OneMoreDies(c0, f0, n, main, f);
      LinkInFront(cells, f, n);
      cells1, freeList1, freed1, f1 := cells[n := Link(n, freeList)], n, freed + 1, f + [n];
    } else {
      OneMoreStays(c0, f0, n, main, f);
    }
  }

  /** The block where every cell is in use: the scan visits them all. */
  method SweepFull(b: Block, ghost f0: seq<nat>, main: bool) returns (cells: seq<Cell>, freeList: nat, freed: nat, ghost f: seq<nat>)
    requires FreeList(b, f0)
    ensures Sweeping(b.cells, f0, CELLS, main, cells, freeList, freed, f)
  {
    hide Sweeping, Linked, NoDuplicates;
    SweepStarts(b, f0, main);
    cells, freeList, freed, f := b.cells, b.freeList, 0, f0;
    var i := 0;
    while i < CELLS
      invariant 0 <= i <= CELLS && Sweeping(b.cells, f0, i, main, cells, freeList, freed, f)
    {
      cells, freeList, freed, f := SweepCell(b.cells, f0, i, main, cells, freeList, freed, f);
      i := i + 1;
    }
  }

  lemma NotYetSwept(c0: seq<Cell>, f0: seq<nat>, n: nat, main: bool, cells: seq<Cell>, freeList: nat, freed: nat, f: seq<nat>)
    requires Sweeping(c0, f0, n, main, cells, freeList, freed, f) && n < CELLS
    ensures |cells| == |c0| == CELLS && cells[n] == c0[n]
  {}

  lemma RestIsRaw(c0: seq<Cell>, f0: seq<nat>, n: nat, main: bool, cells: seq<Cell>, freeList: nat, freed: nat, f: seq<nat>)
    requires Sweeping(c0, f0, n, main, cells, freeList, freed, f) && forall i :: n <= i < CELLS ==> c0[i].Raw?
    ensures Sweeping(c0, f0, CELLS, main, cells, freeList, freed, f)
  {}

  /** The other blocks: the scan stops once it has seen as many objects as there are cells in use. */
  method SweepPartial(b: Block, ghost f0: seq<nat>, main: bool) returns (cells: seq<Cell>, freeList: nat, freed: nat, ghost f: seq<nat>)
    requires FreeList(b, f0)
    ensures Sweeping(b.cells, f0, CELLS, main, cells, freeList, freed, f)
  {
    hide Sweeping, Linked, NoDuplicates;
    SweepStarts(b, f0, main);
    cells, freeList, freed, f := b.cells, b.freeList, 0, f0;
    var minimumCellsToProcess, i := b.usedCells, 0;
    while i < minimumCellsToProcess && i < CELLS
      invariant 0 <= i <= CELLS && Sweeping(b.cells, f0, i, main, cells, freeList, freed, f)
      invariant minimumCellsToProcess == b.usedCells + (i - Constructed(b.cells, i))
    {
      NotYetSwept(b.cells, f0, i, main, cells, freeList, freed, f);
      if cells[i].Raw? {
        minimumCellsToProcess := minimumCellsToProcess + 1;
      }
      cells, freeList, freed, f := SweepCell(b.cells, f0, i, main, cells, freeList, freed, f);
      i := i + 1;
    }
    ConstructedAtMostUsed(b, f0);
    ConstructedGrows(b.cells, i, CELLS);
    RestIsRaw(b.cells, f0, i, main, cells, freeList, freed, f);
  }

  /** One block of the sweep: survivors are unmarked, everything else constructed is freed, nothing else moves. */
  method SweepBlock(b: Block, ghost f0: seq<nat>, main: bool) returns (b1: Block, freed: nat, ghost f: seq<nat>)
    requires FreeList(b, f0)
    ensures FreeList(b1, f) && b1.usedCells == b.usedCells - freed && freed <= b.usedCells
    ensures forall i :: 0 <= i < CELLS ==> Swept(b.cells[i], b1.cells[i], main)
    ensures forall i :: 0 <= i < CELLS ==> (i in f <==> i in f0 || Dies(b.cells[i], main))
  {
    var cells, freeList;
    if b.usedCells == CELLS {
      cells, freeList, freed, f := SweepFull(b, f0, main);
    } else {
      cells, freeList, freed, f := SweepPartial(b, f0, main);
    }
    Pigeonhole(f, CELLS);
    b1 := Block(cells, b.usedCells - freed, freeList);
    ListedCells(b.cells, f0, main, f);
  }

  lemma ListedCells(c0: seq<Cell>, f0: seq<nat>, main: bool, f: seq<nat>)
    requires SweptList(c0, f0, CELLS, main, f)
    ensures forall i :: 0 <= i < CELLS ==> (i in f <==> i in f0 || Dies(c0[i], main))
  {
    forall i | 0 <= i < CELLS
      ensures i in f <==> i in f0 || Dies(c0[i], main)
    {
      if i in f {
        var k :| 0 <= k < |f| && f[k] == i;
        if k < |f0| {
          assert f0[k] == i;
        }
      }
      if i in f0 {
        var k :| 0 <= k < |f0| && f0[k] == i;
        assert f[k] == i;
      }
    }
  }

  /** A block without used cells holds no object. */
  lemma EmptyBlockIsRaw(b: Block, f: seq<nat>)
    requires FreeList(b, f) && b.usedCells == 0
    ensures forall i :: 0 <= i < CELLS ==> b.cells[i].Raw? && i in f
  {
    Pigeonhole(f, CELLS);
    forall i | 0 <= i < CELLS
      ensures b.cells[i].Raw? && i in f
    {
      assert i in f;
    }
  }
}
