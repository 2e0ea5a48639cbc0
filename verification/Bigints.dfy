/** Multiple-precision integers: storage, word loops, and what they compute (dtoa.cpp). */
module Bigints {
  import opened Powers
  import opened Words

  /** Largest size class with a free list (Kmax). */
  const KMAX: nat := 15

  /** A number in a fixed block of 2^k words, of which the first wds are in use. */
  class Bigint {
    const k: nat
    var sign: bool
    var wds: nat
    var x: seq<Word>

    constructor (k: nat, words: seq<Word>)
      requires |words| == Pow(2, k)
      ensures this.k == k && x == words && wds == 0 && !sign
    {
      this.k := k;
      x := words;
      wds := 0;
      sign := false;
    }

    ghost predicate Valid()
      reads this
    {
      k <= KMAX && |x| == Pow(2, k) && wds <= |x|
    }

    ghost function Value(): nat
      requires Valid()
      reads this
    {
      Val(x[..wds])
    }

    /** No leading zero word; zero itself may have no word or one zero word. */
    ghost predicate Normal()
      requires Valid()
      reads this
    {
      wds > 1 ==> x[wds - 1] != 0
    }
  }

  // Facts about one number.

  lemma NormalBounds(b: Bigint)
    requires b.Valid() && b.Normal() && b.wds > 0
    ensures b.Value() < Pow(BASE, b.wds)
    ensures b.wds > 1 || b.Value() > 0 ==> Pow(BASE, b.wds - 1) <= b.Value()
    ensures b.Value() == 0 <==> b.wds == 1 && b.x[0] == 0
  {
    var s := b.x[..b.wds];
    ValBound(s);
    ValTop(s);
    PowPositive(BASE, b.wds - 1);
    if b.wds == 1 {
      assert s == [b.x[0]];
      ValSnoc([], b.x[0]);
      assert [] + [b.x[0]] == s;
    }
  }

  lemma NoWords(b: Bigint)
    requires b.Valid() && b.wds == 0
    ensures b.Value() == 0
  {}

  lemma OneWord(b: Bigint)
    requires b.Valid() && b.wds == 1
    ensures b.Value() == b.x[0]
  {
    assert b.x[..1] == [] + [b.x[0]];
    ValSnoc([], b.x[0]);
  }

  /** More words means a larger number. */
  lemma MoreWords(a: Bigint, b: Bigint)
    requires a.Valid() && b.Valid() && a.Normal() && b.Normal() && a.wds < b.wds
    ensures a.Value() < b.Value() || (a.Value() == b.Value() == 0 && a.wds == 0 && b.wds == 1)
  {
    NormalBounds(b);
    if a.wds > 0 {
      NormalBounds(a);
      PowMonotone(BASE, a.wds, b.wds - 1);
    }
  }

  /** A smaller or equal normal number has no more words. */
  lemma FewerWords(a: Bigint, b: Bigint)
    requires a.Valid() && b.Valid() && a.Normal() && b.Normal()
    requires a.Value() <= b.Value() && b.Value() > 0
    ensures a.wds <= b.wds
  {
    if b.wds < a.wds {
      MoreWords(b, a);
    }
  }

  // Which numbers find a block.

  /** v has fewer words than the largest block. */
  ghost predicate Fits(v: nat) {
    exists n: nat :: n < Pow(2, KMAX) && v < Pow(BASE, n)
  }

  lemma SmallerFit(v: nat, w: nat)
    requires v <= w && Fits(w)
    ensures Fits(v)
  {
    var n: nat :| n < Pow(2, KMAX) && w < Pow(BASE, n);
    assert v < Pow(BASE, n);
  }

  /** What is no less than a power of the base leaves no room for more words. */
  lemma FittingWords(v: nat, n: nat)
    requires Fits(v) && Pow(BASE, n) <= v
    ensures n + 1 < Pow(2, KMAX)
  {
    var m: nat :| m < Pow(2, KMAX) && v < Pow(BASE, m);
    if m <= n {
      PowMonotone(BASE, m, n);
    }
  }

  lemma NumberFits(b: Bigint)
    requires b.Valid() && b.Normal() && b.wds > 0 && b.Value() > 0 && Fits(b.Value())
    ensures b.wds < Pow(2, KMAX)
  {
    NormalBounds(b);
    FittingWords(b.Value(), b.wds - 1);
  }

  /** What fits, fits the largest block. */
  lemma FitsLargest(v: nat, k: nat)
    requires Fits(v)
    ensures k < KMAX || v < Pow(BASE, Pow(2, k))
  {
    var n: nat :| n < Pow(2, KMAX) && v < Pow(BASE, n);
    if k >= KMAX {
      PowMonotone(2, KMAX, k);
      PowMonotone(BASE, n, Pow(2, k));
    }
  }

  /** A product that fits has room for the words of both factors. */
  lemma ProductFits(a: Bigint, b: Bigint)
    requires a.Valid() && a.Normal() && a.Value() > 0 && b.Valid() && b.Normal() && b.Value() > 0
    requires Fits(a.Value() * b.Value())
    ensures a.wds > 0 && b.wds > 0 && a.wds + b.wds <= Pow(2, KMAX)
    ensures Pow(BASE, a.wds + b.wds - 2) <= a.Value() * b.Value()
  {
    WordsProduct(a, b);
    FittingWords(a.Value() * b.Value(), a.wds + b.wds - 2);
  }

  lemma WordsProduct(a: Bigint, b: Bigint)
    requires a.Valid() && a.Normal() && a.Value() > 0 && b.Valid() && b.Normal() && b.Value() > 0
    ensures a.wds > 0 && b.wds > 0 && Pow(BASE, a.wds + b.wds - 2) <= a.Value() * b.Value()
  {
    hide Val, Pow, PowFrom;
    LeastWords(a);
    LeastWords(b);
    PowAdd(BASE, a.wds - 1, b.wds - 1);
    MulLe(Pow(BASE, a.wds - 1), a.Value(), Pow(BASE, b.wds - 1));
    MulLe(Pow(BASE, b.wds - 1), b.Value(), a.Value());
  }

  lemma LeastWords(a: Bigint)
    requires a.Valid() && a.Normal() && a.Value() > 0
    ensures a.wds > 0 && Pow(BASE, a.wds - 1) <= a.Value()
  {
    if a.wds == 0 {
      NoWords(a);
    } else {
      NormalBounds(a);
    }
  }

  /** So has a shifted number that fits. */
  lemma ShiftFits(b: Bigint, k: nat)
    requires b.Valid() && b.Normal() && b.Value() > 0 && Fits(b.Value() * Pow(2, k))
    ensures b.wds > 0 && k / 32 + b.wds + 1 <= Pow(2, KMAX)
  {
    if b.wds == 0 {
      NoWords(b);
    } else {
      ShiftedWords(b, k);
      FittingWords(b.Value() * Pow(2, k), k / 32 + b.wds - 1);
    }
  }

  lemma ShiftedWords(b: Bigint, k: nat)
    requires b.Valid() && b.Normal() && b.Value() > 0 && b.wds > 0
    ensures Pow(BASE, k / 32 + b.wds - 1) <= b.Value() * Pow(2, k)
  {
    var n, v := k / 32, b.Value();
    NormalBounds(b);
    assert Pow(2, 32) == BASE by { PowersOfTwo(); }
    PowPow(2, 32, n);
    PowMonotone(2, 32 * n, k);
    PowAdd(BASE, b.wds - 1, n);
    MulLe(Pow(BASE, b.wds - 1), v, Pow(BASE, n));
    MulLe(Pow(BASE, n), Pow(2, k), v);
  }

  /** A block of class k is at most one class too large for v, or no larger than class k0. */
  ghost predicate Snug(k: nat, k0: nat, v: nat) {
    k <= k0 || Pow(BASE, Pow(2, k - 1)) <= BASE * v
  }

  /** Words that a number needs make the block they ask for snug. */
  lemma NeededWords(k: nat, k0: nat, n: nat, v: nat)
    requires k > k0 ==> Pow(2, k - 1) <= n + 1
    requires Pow(BASE, n) <= v
    ensures Snug(k, k0, v)
  {
    if k > k0 {
      PowMonotone(BASE, Pow(2, k - 1), n + 1);
      PowStep(BASE, n);
    }
  }

  lemma SnugGrows(k: nat, k0: nat, k1: nat, v: nat, w: nat)
    requires Snug(k, k0, v) && k0 <= k1 && v <= w
    ensures Snug(k, k1, w)
  {}

  /** A number around its word j. */
  lemma ValAround(s: seq<Word>, j: nat)
    requires j < |s|
    ensures Val(s) == Val(s[..j]) + s[j] * Pow(BASE, j) + Pow(BASE, j + 1) * Val(s[j + 1..])
    ensures Val(s[..j]) < Pow(BASE, j)
  {
    hide Val, Pow, PowFrom;
    ValPrefix(s, j);
    ValBound(s[..j]);
    ValConcat(s[..j + 1], s[j + 1..]);
    assert s == s[..j + 1] + s[j + 1..];
  }

  lemma LowerDigits(x: int, a: int, y: int, b: int, p: int)
    requires 0 <= x < p && 0 <= y && a < b
    ensures x + a * p < y + b * p
  {
    MulLe(a + 1, b, p);
    assert (a + 1) * p == a * p + p;
  }

  /** The highest differing word decides. */
  lemma HighestDifferenceDecides(s: seq<Word>, t: seq<Word>, j: nat)
    requires |s| == |t| && j < |s| && s[j + 1..] == t[j + 1..] && s[j] < t[j]
    ensures Val(s) < Val(t)
  {
    hide Val, Pow, PowFrom;
    ValAround(s, j);
    ValAround(t, j);
    LowerDigits(Val(s[..j]), s[j], Val(t[..j]), t[j], Pow(BASE, j));
  }

  // One step of each word loop, as plain arithmetic.

  lemma MultAddStep(v: int, lo: int, p: int, p1: int, c: int, x: int, m: int, carry: int, v0: int, a: int)
    requires v + carry * p == v0 * m + a && lo + c * BASE == x * m + carry && p1 == BASE * p
    ensures v + lo * p + c * p1 == (v0 + x * p) * m + a
  {
    assert lo * p + c * (BASE * p) == (lo + c * BASE) * p;
    assert (x * m + carry) * p == (x * m) * p + carry * p;
    assert (v0 + x * p) * m == v0 * m + (x * m) * p;
  }

  lemma ColumnStep(v: int, lo: int, p: int, q: int, q1: int, c: int, x: int, y: int, old0: int, carry: int, w: int, u: int)
    requires v + carry * (q * p) == w + u * y * p && lo + c * BASE == x * y + old0 + carry && q1 == BASE * q
    ensures v + lo * (q * p) + c * (q1 * p) == w + old0 * (q * p) + (u + x * q) * y * p
  {
    var r := q * p;
    assert c * ((BASE * q) * p) == (c * BASE) * r;
    assert lo * r + (c * BASE) * r == (lo + c * BASE) * r == (x * y + old0 + carry) * r
        == (x * y) * r + old0 * r + carry * r;
    assert (u + x * q) * y * p == u * y * p + x * q * y * p;
    assert x * q * y * p == (x * y) * r;
  }

  lemma BorrowStep(v: int, d: int, p: int, p1: int, c: int, s: int, q: int, c0: int, x: int, v0: int, w: int)
    requires v + q * w == v0 + c0 * p && d + s * q + c0 == x + c * BASE && p1 == BASE * p
    ensures (v + d * p) + q * (w + s * p) == (v0 + x * p) + c * p1
  {
    assert q * (w + s * p) == q * w + (s * q) * p;
    assert d * p + (s * q) * p + c0 * p == (d + s * q + c0) * p == (x + c * BASE) * p == x * p + c * (BASE * p);
  }

  /** Order of two numbers, read off from their words; the two forms of zero differ only in size. */
  method Cmp(a: Bigint, b: Bigint) returns (i: int)
    requires a.Valid() && b.Valid() && a.Normal() && b.Normal()
    requires a.wds > 0 || b.wds > 0
    ensures if a.Value() == b.Value() == 0 && a.wds != b.wds then i == a.wds - b.wds
            else (i < 0 <==> a.Value() < b.Value()) && (i > 0 <==> a.Value() > b.Value())
  {
    i := a.wds - b.wds;
    if i != 0 {
      if i < 0 {
        MoreWords(a, b);
      } else {
        MoreWords(b, a);
      }
      return;
    }
    var j := a.wds;
    while j > 0
      invariant 0 <= j <= a.wds
      invariant a.x[j..a.wds] == b.x[j..a.wds]
    {
      j := j - 1;
      ghost var s, t := a.x[..a.wds], b.x[..a.wds];
      assert s[j + 1..] == a.x[j + 1..a.wds] && t[j + 1..] == b.x[j + 1..a.wds];
      if a.x[j] != b.x[j] {
        if a.x[j] < b.x[j] {
          HighestDifferenceDecides(s, t, j);
          return -1;
        }
        HighestDifferenceDecides(t, s, j);
        return 1;
      }
    }
    assert a.x[..a.wds] == b.x[..a.wds];
    return 0;
  }

  /** The allocator and the operations that draw on it. */
  class Store {
    var freelist: seq<seq<Bigint>>
    /** Everything on some free list. */
    ghost var free: set<Bigint>

    ghost predicate Valid()
      reads this, free
    {
      && |freelist| == KMAX + 1
      && (forall b :: b in free ==> b.k <= KMAX && |b.x| == Pow(2, b.k) && b in freelist[b.k])
      && (forall k, i :: 0 <= k <= KMAX && 0 <= i < |freelist[k]| ==> freelist[k][i] in free && freelist[k][i].k == k)
      && (forall k, i, j :: 0 <= k <= KMAX && 0 <= i < j < |freelist[k]| ==> freelist[k][i] != freelist[k][j])
    }

    constructor ()
      ensures Valid() && free == {}
    {
      freelist := seq(KMAX + 1, _ => []);
      free := {};
    }

    /** A block of size class k, recycled if possible; its words are not cleared. */
    method Balloc(k: nat) returns (rv: Bigint)
      requires Valid() && k <= KMAX
      modifies this, free
      ensures Valid() && free == old(free) - {rv}
      ensures fresh(rv) || rv in old(free)
      ensures rv !in free && rv.k == k && rv.Valid() && rv.wds == 0 && !rv.sign
    {
      if freelist[k] != [] {
        rv := freelist[k][0];
        freelist := freelist[k := freelist[k][1..]];
        free := free - {rv};
      } else {
        rv := new Bigint(k, seq(Pow(2, k), _ => 0));
      }
      rv.sign := false;
      rv.wds := 0;
    }

    /** Puts a block at the head of its free list. */
    method Bfree(v: Bigint?)
      requires Valid()
      requires v != null ==> v !in free && v.k <= KMAX && |v.x| == Pow(2, v.k)
      modifies this
      ensures Valid() && free == old(free) + (if v == null then {} else {v})
    {
      if v != null {
        freelist := freelist[v.k := [v] + freelist[v.k]];
        free := free + {v};
      }
    }
  }
}
