/** Multiplication by powers of five through a lazily grown list of repeated squares (pow5mult in dtoa.cpp). */
module Pow5 {
  import opened Powers
  import opened Words
  import opened Bigints
  import opened BigintOps

  /** The list p5s: node i holds 5^(4 * 2^i) and is never released. */
  class Pow5Table {
    var nodes: seq<Bigint>

    ghost predicate Valid(st: Store)
      reads this, nodes, st
    {
      forall i :: 0 <= i < |nodes| ==> NodeOk(nodes[i], i) && nodes[i] !in st.free
    }

    ghost function Nodes(): set<Bigint>
      reads this
    {
      set n | n in nodes
    }

    constructor ()
      ensures nodes == []
    {
      nodes := [];
    }

    /** Makes sure node i exists, squaring node i - 1 if it does not. */
    method Reach(st: Store, i: nat)
      requires st.Valid() && Valid(st) && i <= |nodes| && Fits(Pow(625, Pow(2, i)))
      modifies st, st.free, this
      ensures st.Valid() && Valid(st) && i < |nodes|
      ensures st.free <= old(st.free) && fresh(Nodes() - old(Nodes() + st.free))
    {
      if i < |nodes| {
        return;
      }
      var p: Bigint;
      if i == 0 {
        p := I2b(st, 625);
        assert Pow(625, 1) == 625 && Pow(2, 0) == 1;
      } else {
        var q := nodes[i - 1];
        SquareFits(q, i);
        p := Mult(st, q, q);
        SquareNode(p, q, i);
      }
      nodes := nodes + [p];
    }
  }

  ghost predicate NodeOk(b: Bigint, i: nat)
    reads b
  {
    b.Valid() && b.Normal() && b.wds >= 1 && b.Value() == Pow(625, Pow(2, i)) && Snug(b.k, 1, b.Value())
  }

  lemma SquareFits(q: Bigint, i: nat)
    requires i > 0 && NodeOk(q, i - 1) && Fits(Pow(625, Pow(2, i)))
    ensures q.Value() > 0 && q.Value() * q.Value() == Pow(625, Pow(2, i)) && 2 * q.wds <= Pow(2, KMAX)
  {
    PowAdd(625, Pow(2, i - 1), Pow(2, i - 1));
    PowStep(2, i - 1);
    PowPositive(625, Pow(2, i - 1));
    ProductFits(q, q);
  }

  lemma SquareNode(p: Bigint, q: Bigint, i: nat)
    requires i > 0 && NodeOk(q, i - 1) && q.Value() > 0
    requires p.Valid() && p.Value() == q.Value() * q.Value() == Pow(625, Pow(2, i)) && (p.wds == 0 || p.x[p.wds - 1] != 0)
    requires p.k <= q.k || (p.k > 0 && Pow(2, p.k - 1) < q.wds + q.wds)
    ensures NodeOk(p, i)
  {
    PowPositive(625, Pow(2, i));
    if p.wds == 0 {
      NoWords(p);
    }
    ProductIsSnug(q, q, p.k, 1);
  }

  /** The block of a product is snug if those of the factors are. */
  lemma ProductIsSnug(a: Bigint, b: Bigint, k: nat, k0: nat)
    requires a.Valid() && a.Normal() && a.Value() > 0 && b.Valid() && b.Normal() && b.Value() > 0
    requires k <= a.k || k <= b.k || (k > 0 && Pow(2, k - 1) < a.wds + b.wds)
    requires Snug(a.k, k0, a.Value()) && Snug(b.k, k0, b.Value())
    ensures Snug(k, k0, a.Value() * b.Value())
  {
    var v, w := a.Value(), b.Value();
    MulAtLeast(v, w);
    MulAtLeast(w, v);
    if k <= k0 {
    } else if k <= a.k {
      SmallerClass(k, a.k, k0, v);
      SnugGrows(k, k0, k0, v, v * w);
    } else if k <= b.k {
      SmallerClass(k, b.k, k0, w);
      SnugGrows(k, k0, k0, w, v * w);
    } else {
      WordsProduct(a, b);
      NeededWords(k, k0, a.wds + b.wds - 2, v * w);
    }
  }

  lemma SmallerClass(k: nat, k1: nat, k0: nat, v: nat)
    requires k <= k1 && Snug(k1, k0, v)
    ensures Snug(k, k0, v)
  {
    if k > k0 {
      PowMonotone(2, k - 1, k1 - 1);
      PowMonotone(BASE, Pow(2, k - 1), Pow(2, k1 - 1));
    }
  }

  /** One binary digit of the exponent: base^(2^i) takes care of the low bit. */
  lemma HalveExponent(i: nat, k: nat)
    ensures Pow(625, Pow(2, i) * k) ==
      (if k % 2 == 1 then Pow(625, Pow(2, i)) else 1) * Pow(625, Pow(2, i + 1) * (k / 2))
  {
    var e, h := Pow(2, i), k / 2;
    PowStep(2, i);
    assert e * k == (if k % 2 == 1 then e else 0) + (2 * e) * h by {
      assert k == 2 * h + k % 2;
      assert e * (2 * h + k % 2) == (2 * e) * h + e * (k % 2);
    }
    if k % 2 == 1 {
      PowAdd(625, e, (2 * e) * h);
    }
  }

  /** The low two bits of the exponent are the powers 5, 25 and 125; the rest are powers of 625. */
  lemma SplitExponent(k: nat)
    ensures Pow(5, k) == Pow(5, k % 4) * Pow(625, k / 4)
    ensures Pow(5, 0) == 1 && Pow(5, 1) == 5 && Pow(5, 2) == 25 && Pow(5, 3) == 125
  {
    assert Pow(5, 4) == 625;
    PowPow(5, 4, k / 4);
    PowAdd(5, k % 4, 4 * (k / 4));
  }

  /** A live positive number that belongs neither to the free lists nor to the table. */
  ghost predicate Operand(st: Store, table: Pow5Table, b: Bigint)
    reads st, table, b
  {
    b.Valid() && b.Normal() && b.wds >= 1 && b.Value() > 0 && b !in st.free && b !in table.nodes
  }

  /** The factor for bit i of the exponent. */
  ghost function Bit(i: nat, odd: bool): nat {
    if odd then Pow(625, Pow(2, i)) else 1
  }

  /** Uses the exponent's bit i: multiplies by node i if it is set. */
  method Pow5Step(st: Store, table: Pow5Table, b: Bigint, odd: bool, i: nat, ghost k0: nat) returns (r: Bigint)
    requires st.Valid() && table.Valid(st) && Operand(st, table, b) && Snug(b.k, k0, b.Value()) && k0 >= 1
    requires i <= |table.nodes| && Fits(Pow(625, Pow(2, i))) && Fits(b.Value() * Bit(i, odd))
    modifies st, st.free, table
    ensures st.Valid() && table.Valid(st) && i < |table.nodes| && Operand(st, table, r) && Snug(r.k, k0, r.Value())
    ensures r.Value() == old(b.Value()) * Bit(i, odd)
    ensures fresh(st.free + {r} - old(st.free + {b})) && fresh(table.Nodes() - old(st.free + {b} + table.Nodes()))
  {
    hide Pow, PowFrom, Val, Snug, Fits;
    table.Reach(st, i);
    r := b;
    if odd {
      var p := table.nodes[i];
      PowPositive(625, Pow(2, i));
      ProductFits(b, p);
      r := Mult(st, b, p);
      FactorIsSnug(p, k0);
      ProductIsSnug(b, p, r.k, k0);
      MulPositive(b.Value(), Pow(625, Pow(2, i)));
      if r.wds == 0 {
        NoWords(r);
      }
      st.Bfree(b);
    }
  }

  lemma FactorIsSnug(p: Bigint, k0: nat)
    requires p.Valid() && Snug(p.k, 1, p.Value()) && k0 >= 1
    ensures Snug(p.k, k0, p.Value())
  {
    SnugGrows(p.k, 1, k0, p.Value(), p.Value());
  }

  /** The factor the loop still owes after bits below i have been used and k is what is left of the exponent. */
  ghost function Rest(i: nat, k: nat): nat {
    Pow(625, Pow(2, i) * k)
  }

  /** One turn of the loop keeps value times rest. */
  lemma RestStep(v: nat, i: nat, k: nat, w: nat)
    requires w == v * Bit(i, k % 2 == 1)
    ensures w * Rest(i + 1, k / 2) == v * Rest(i, k)
  {
    HalveExponent(i, k);
    MulAssoc(v, Bit(i, k % 2 == 1), Rest(i + 1, k / 2));
  }

  /** If the result fits, so do the next node and the next product. */
  lemma StepFits(v: nat, i: nat, k: nat)
    requires v > 0 && k > 0 && Fits(v * Rest(i, k))
    ensures Fits(Pow(625, Pow(2, i))) && Fits(v * Bit(i, k % 2 == 1))
  {
    var p, q, r := Pow(625, Pow(2, i)), Bit(i, k % 2 == 1), Rest(i, k);
    PowPositive(625, Pow(2, i));
    MulAtLeast(Pow(2, i), k);
    PowMonotone(625, Pow(2, i), Pow(2, i) * k);
    MulLe(p, r, v);
    MulLe(q, r, v);
    MulAtLeast(p, v);
    SmallerFit(v * q, v * r);
    SmallerFit(p, v * r);
  }

  lemma RestEnds(i: nat, k: nat)
    ensures Rest(0, k) == Pow(625, k) && Rest(i, 0) == 1
  {
    PowStep(2, 0);
    PowStep(625, 0);
  }

  /** b times 625^k, consuming b: repeated squares for the bits of k. */
  method Pow625Mult(st: Store, table: Pow5Table, b0: Bigint, k0: nat, ghost c: nat) returns (b: Bigint)
    requires st.Valid() && table.Valid(st) && Operand(st, table, b0) && Snug(b0.k, c, b0.Value()) && c >= 1
    requires Fits(b0.Value() * Pow(625, k0))
    modifies st, st.free, table, b0
    ensures st.Valid() && table.Valid(st) && Operand(st, table, b) && Snug(b.k, c, b.Value())
    ensures b.Value() == old(b0.Value()) * Pow(625, k0)
    ensures fresh(st.free + {b} - old(st.free + {b0})) && fresh(table.Nodes() - old(st.free + {b0} + table.Nodes()))
  {
    hide Pow, Val, Bit, Rest, PowFrom, Snug, Fits;
    b := b0;
    var k: nat, i: nat := k0, 0;
    ghost var goal, blocks, nodes := b0.Value() * Rest(0, k0), st.free + {b0}, table.Nodes();
    RestEnds(0, k0);
    while k != 0
      invariant st.Valid() && table.Valid(st) && Operand(st, table, b) && Snug(b.k, c, b.Value())
      invariant i <= |table.nodes| && b.Value() * Rest(i, k) == goal
      invariant fresh(st.free + {b} - blocks) && fresh(table.Nodes() - blocks - nodes)
      decreases k
    {
      ghost var v := b.Value();
      StepFits(v, i, k);
      b := Pow5Step(st, table, b, k % 2 == 1, i, c);
      RestStep(v, i, k, b.Value());
      k, i := k / 2, i + 1;
    }
    RestEnds(i, k0);
  }

  /** b times 5^k, consuming b, whenever the result fits; the table may have grown. */
  method Pow5Mult(st: Store, table: Pow5Table, b0: Bigint, k0: nat) returns (b: Bigint)
    requires st.Valid() && table.Valid(st) && Operand(st, table, b0) && Fits(b0.Value() * Pow(5, k0))
    modifies st, st.free, table, b0
    ensures st.Valid() && table.Valid(st) && Operand(st, table, b)
    ensures b.Value() == old(b0.Value()) * Pow(5, k0) && Snug(b.k, b0.k + 1, b.Value())
    ensures fresh(st.free + {b} - old(st.free + {b0})) && fresh(table.Nodes() - old(st.free + {b0} + table.Nodes()))
  {
    ghost var v := b0.Value();
    b := b0;
    LowFits(v, k0, b.k);
    if k0 % 4 != 0 {
      b := MultAdd(st, b, [5, 25, 125][k0 % 4 - 1], 0);
    }
    LowThenHigh(v, k0, b.Value());
    b := Pow625Mult(st, table, b, k0 / 4, b0.k + 1);
  }

  lemma LowFits(v: nat, k: nat, c: nat)
    requires v > 0 && Fits(v * Pow(5, k))
    ensures c < KMAX || v * [1, 5, 25, 125][k % 4] + 0 < Pow(BASE, Pow(2, c))
  {
    var w := v * [1, 5, 25, 125][k % 4];
    LowThenHigh(v, k, w);
    PowPositive(625, k / 4);
    MulAtLeast(w, Pow(625, k / 4));
    FitsLargest(v * Pow(5, k), c);
  }

  lemma LowThenHigh(v: nat, k: nat, w: nat)
    requires v > 0 && w == v * [1, 5, 25, 125][k % 4]
    ensures w > 0 && w * Pow(625, k / 4) == v * Pow(5, k)
  {
    SplitExponent(k);
    MulAssoc(v, Pow(5, k % 4), Pow(625, k / 4));
  }
}
