/** Taking a double apart: bit counts and the odd-mantissa bignum (hi0bits, lo0bits, d2b in dtoa.cpp). */
module DoubleBits {
  import opened Powers
  import opened Words
  import opened Bigints
  import opened BigintOps
  import opened Doubles

  /** Multiplying by f = 2^n moves n bits from the word to its scale... */
  lemma Raise(x: nat, k: nat, n: nat, f: nat, y: nat)
    requires f == Pow(2, n) && x == y * Pow(2, k)
    ensures x * f == y * Pow(2, k + n)
  {
    PowAdd(2, k, n);
    MulAssoc(y, Pow(2, k), f);
  }

  /** ... and dividing moves them back. */
  lemma Lower(q: nat, k: nat, n: nat, f: nat, y: nat)
    requires f == Pow(2, n) && y == (q * f) * Pow(2, k)
    ensures y == q * Pow(2, k + n)
  {
    PowAdd(2, k, n);
    MulAssoc(q, f, Pow(2, k));
  }

  /** Leading zero bits of a nonzero word. */
  method Hi0bits(x0: Word) returns (k: nat)
    requires x0 != 0
    ensures k < 32 && Pow(2, 31 - k) <= x0 < Pow(2, 32 - k)
  {
    PowersOfTwo();
    var x: nat := x0;
    k := 0;
    assert x == x0 * Pow(2, 0);
    if x < 0x1_0000 {
      Raise(x, k, 16, 0x1_0000, x0);
      k, x := 16, x * 0x1_0000;
    }
    if x < 0x100_0000 {
      Raise(x, k, 8, 0x100, x0);
      k, x := k + 8, x * 0x100;
    }
    if x < 0x1000_0000 {
      Raise(x, k, 4, 0x10, x0);
      k, x := k + 4, x * 0x10;
    }
    if x < 0x4000_0000 {
      Raise(x, k, 2, 4, x0);
      k, x := k + 2, x * 4;
    }
    if x < 0x8000_0000 {
      Raise(x, k, 1, 2, x0);
      k, x := k + 1, x * 2;
    }
    LeadingBits(x0, k, x);
  }

  lemma LeadingBits(x0: Word, k: nat, x: nat)
    requires k < 32 && x == x0 * Pow(2, k) && 0x8000_0000 <= x < BASE
    ensures Pow(2, 31 - k) <= x0 < Pow(2, 32 - k)
  {
    PowersOfTwo();
    var p, lo, hi := Pow(2, k), Pow(2, 31 - k), Pow(2, 32 - k);
    PowPositive(2, k);
    assert lo * p == 0x8000_0000 by { PowAdd(2, 31 - k, k); }
    assert hi * p == BASE by { PowAdd(2, 32 - k, k); }
    MulCancelOrder(x0, hi, p);
    MulCancelOrder(x0, lo, p);
  }

  /** A trailing-zero test on 2n bits and then on n bits. */
  lemma NotBoth(x: nat, f: nat)
    requires f > 0 && x % (f * f) != 0
    ensures x % f == 0 ==> (x / f) % f != 0
  {
    if x % f == 0 && (x / f) % f == 0 {
      var q := (x / f) / f;
      assert x == (x / f) * f && x / f == q * f;
      MulAssoc(q, f, f);
      DivUnique(x, f * f, q, 0);
    }
  }

  /** One stage of the search: strip n zero bits if there are that many. */
  method StripBits(x0: nat, k0: nat, n: nat, f: nat, ghost f2: nat, ghost y: nat) returns (k: nat, x: nat)
    requires f > 1 && f2 == f * f && f == Pow(2, n) && x0 % f2 != 0 && x0 * Pow(2, k0) == y
    ensures x % f != 0 && x * Pow(2, k) == y && k0 <= k <= k0 + n
  {
    k, x := k0, x0;
    NotBoth(x, f);
    if x % f == 0 {
      assert (x / f) * f == x;
      Lower(x / f, k, n, f, y);
      k, x := k + n, x / f;
    }
  }

  /** Fewer than three trailing zero bits. */
  method FewBits(y: Word) returns (k: nat, x: nat)
    requires y % 8 != 0
    ensures k < 32 && x % 2 == 1 && x * Pow(2, k) == y
  {
    PowersOfTwo();
    if y % 2 == 1 {
      k, x := 0, y;
    } else if (y / 2) % 2 == 1 {
      k, x := 1, y / 2;
    } else {
      k, x := 2, y / 4;
    }
  }

  /** Halving the range five times. */
  method ManyBits(y: Word) returns (k: nat, x: nat)
    requires y != 0
    ensures k < 32 && x % 2 == 1 && x * Pow(2, k) == y
  {
    PowersOfTwo();
    k, x := 0, y;
    assert y == x * Pow(2, 0);
    assert x % 0x1_0000_0000 != 0;
    k, x := StripBits(x, k, 16, 0x1_0000, 0x1_0000_0000, y);
    k, x := StripBits(x, k, 8, 0x100, 0x1_0000, y);
    k, x := StripBits(x, k, 4, 0x10, 0x100, y);
    k, x := StripBits(x, k, 2, 4, 0x10, y);
    k, x := StripBits(x, k, 1, 2, 4, y);
  }

  /** Splits a nonzero word into an odd part and its trailing zero bits. */
  method Lo0bits(y: Word) returns (k: nat, x: nat)
    requires y != 0
    ensures k < 32 && x % 2 == 1 && x * Pow(2, k) == y
  {
    if y % 8 != 0 {
      k, x := FewBits(y);
    } else {
      k, x := ManyBits(y);
    }
  }

  // The fields of a double's two words (sign bit clear).

  function ExponentField(w0: Word): nat {
    w0 / 0x10_0000
  }

  /** The number two words denote: the implicit bit unless the exponent field is zero. */
  function FromWords(w0: Word, w1: Word): Double {
    var f := ExponentField(w0);
    if f == 0 then Double((w0 % 0x10_0000) * BASE + w1, -1074)
    else Double((0x10_0000 + w0 % 0x10_0000) * BASE + w1, f - 1075)
  }

  /** Sign clear, not an infinity or NaN, not zero. */
  predicate FinitePositive(w0: Word, w1: Word) {
    w0 < 0x8000_0000 && ExponentField(w0) != 0x7ff && (w0 != 0 || w1 != 0)
  }

  lemma FromWordsRepresentable(w0: Word, w1: Word)
    requires FinitePositive(w0, w1)
    ensures var d := FromWords(w0, w1); Representable(d) && d.m > 0 && d.e <= 971
    ensures ExponentField(w0) == 0 <==> FromWords(w0, w1).m < P52
  {}

  /** d is b * 2^be with b odd and of size bits. */
  ghost predicate OddParts(d: Double, b: nat, be: int, bits: nat) {
    && b % 2 == 1 && d.e <= be && d.m == b * Pow(2, be - d.e)
    && bits > 0 && Pow(2, bits - 1) <= b < Pow(2, bits)
    && bits <= 53 && be - d.e < 64
    && (d.m >= P52 ==> bits == 53 - (be - d.e))
  }

  /** The two words of the odd part: y is w1 without its k trailing zero bits, topped up from z. */
  method JoinWords(w1: Word, z: Word, k: nat, y: nat, t: nat, u: nat) returns (x0: Word, hi: Word)
    requires 0 < k < 32 && t == Pow(2, 32 - k) && u == Pow(2, k) && u > 0 && y * u == w1 && y % 2 == 1
    ensures (x0 + hi * BASE) * u == z * BASE + w1 && x0 % 2 == 1
  {
    SplitBase(k);
    PowStep(2, 31 - k);
    x0, hi := TopUp(z, y, t, u, Pow(2, 31 - k), w1);
    Unshift(z, t, u, y, x0, hi);
  }

  method TopUp(z: Word, y: nat, t: nat, u: nat, ghost h: nat, ghost w1: Word) returns (x0: Word, hi: Word)
    requires t * u == BASE && t > 0 && u > 0 && t == 2 * h && y * u == w1 && y % 2 == 1
    ensures x0 + hi * BASE == z * t + y && x0 % 2 == 1
  {
    BelowShift(w1, y, t, u);
    ShiftedWord(z, t, u, y);
    EvenShift(z, t, h);
    x0, hi := y + (z * t) % BASE, z / u;
  }

  lemma BelowShift(w1: Word, y: nat, t: nat, u: nat)
    requires y * u == w1 && t * u == BASE && u > 0
    ensures y < t
  {
    MulCancelOrder(y, t, u);
  }

  lemma Unshift(z: int, t: int, u: int, y: int, lo: int, hi: int)
    requires t * u == BASE && lo + hi * BASE == z * t + y
    ensures (lo + hi * BASE) * u == z * BASE + y * u
  {
    assert (z * t + y) * u == (z * t) * u + y * u;
    MulAssoc(z, t, u);
  }

  lemma EvenShift(z: nat, t: nat, h: nat)
    requires t == 2 * h
    ensures ((z * t) % BASE) % 2 == 0
  {
    assert z * t == 2 * (z * h);
    var a := z * h;
    assert (2 * a) % BASE == 2 * a - BASE * ((2 * a) / BASE);
  }

  lemma TwoWords(x: seq<Word>)
    requires |x| >= 2
    ensures Val(x[..1]) == x[0] && Val(x[..2]) == x[0] + x[1] * BASE
  {
    ValPrefix(x, 0);
    ValPrefix(x, 1);
    PowStep(BASE, 0);
    assert Val(x[..0]) == 0;
  }

  /** The odd part of z * 2^32 + w1, for w1 != 0, and the number of zero bits below it. */
  method OddWordsLow(w1: Word, z0: Word) returns (k: nat, x0: Word, z: Word)
    requires w1 != 0
    ensures k < 32 && x0 % 2 == 1 && (x0 + z * BASE) * Pow(2, k) == z0 * BASE + w1
  {
    var y: nat;
    k, y := Lo0bits(w1);
    if k == 0 {
      PowersOfTwo();
      return k, y, z0;
    }
    var t, u := Pow(2, 32 - k), Pow(2, k);
    PowPositive(2, k);
    x0, z := JoinWords(w1, z0, k, y, t, u);
  }

  /** The odd part of z * 2^32 + w1 and the number of zero bits below it. */
  method OddWords(b: Bigint, w1: Word, z0: Word) returns (k: nat)
    requires b.Valid() && b.k == 1 && (w1 != 0 || z0 != 0)
    modifies b
    ensures b.Valid() && b.Normal() && b.wds >= 1 && b.sign == old(b.sign)
    ensures k < 64 && b.Value() % 2 == 1 && b.Value() * Pow(2, k) == z0 * BASE + w1
  {
    assert |b.x| == 2 by { PowersOfTwo(); }
    if w1 != 0 {
      var x0, z;
      k, x0, z := OddWordsLow(w1, z0);
      b.x := b.x[0 := x0][1 := z];
      b.wds := if z != 0 then 2 else 1;
      TwoWords(b.x);
      OddSum(x0, z);
    } else {
      var y;
      k, y := Lo0bits(z0);
      WordAtMost(y, Pow(2, k), z0);
      b.x := b.x[0 := y];
      b.wds := 1;
      TwoWords(b.x);
      PowersOfTwo();
      Raise(z0, k, 32, BASE, y);
      k := k + 32;
    }
  }

  lemma OddSum(x: Word, z: Word)
    requires x % 2 == 1
    ensures (x + z * BASE) % 2 == 1
  {
    assert z * BASE == 2 * (z * 0x8000_0000);
  }

  lemma WordAtMost(y: nat, p: nat, z: nat)
    requires y * p == z && z > 0
    ensures y <= z
  {
    if p > 0 {
      MulAtLeast(y, p);
    }
  }

  /** The size of a normal number is the size of its top word and 32 for each word below. */
  lemma SizeFromTop(b: Bigint, h: nat)
    requires b.Valid() && b.wds >= 1 && h < 32 && Pow(2, 31 - h) <= b.x[b.wds - 1] < Pow(2, 32 - h)
    ensures Pow(2, 32 * b.wds - h - 1) <= b.Value() < Pow(2, 32 * b.wds - h)
  {
    var n, top: int := b.wds - 1, b.x[b.wds - 1];
    ValTop(b.x[..b.wds]);
    PowersOfTwo();
    PowPow(2, 32, n);
    PowAdd(2, 31 - h, 32 * n);
    PowAdd(2, 32 - h, 32 * n);
    MulLe(Pow(2, 31 - h), top, Pow(BASE, n));
    MulLe(top + 1, Pow(2, 32 - h), Pow(BASE, n));
  }

  lemma NormalSize(b: nat, k: nat, m: nat)
    requires b * Pow(2, k) == m && P52 <= m < P53 && b > 0
    ensures k <= 52 && Pow(2, 52 - k) <= b < Pow(2, 53 - k)
  {
    PowersOfTwo();
    PowPositive(2, k);
    if k > 52 {
      PowMonotone(2, 53, k);
      MulLe(1, b, Pow(2, k));
    }
    PowAdd(2, 52 - k, k);
    PowAdd(2, 53 - k, k);
    MulCancelOrder(b, Pow(2, 53 - k), Pow(2, k));
    MulCancelOrder(b, Pow(2, 52 - k), Pow(2, k));
  }

  lemma SmallSize(b: nat, bits: nat, m: nat)
    requires bits > 0 && Pow(2, bits - 1) <= b <= m < P52
    ensures bits <= 53
  {
    PowersOfTwo();
    if bits > 53 {
      PowMonotone(2, 52, bits - 1);
    }
  }

  /** The bignum, exponent and size of a double's odd part. */
  method D2b(st: Store, w0: Word, w1: Word) returns (b: Bigint, e: int, bits: nat)
    requires st.Valid() && FinitePositive(w0, w1)
    modifies st, st.free
    ensures st.Valid() && st.free == old(st.free) - {b} && b !in st.free && (fresh(b) || b in old(st.free))
    ensures b.Valid() && b.Normal() && b.wds >= 1 && b.k == 1 && b.Value() > 0
    ensures OddParts(FromWords(w0, w1), b.Value(), e, bits)
  {
    b := st.Balloc(1);
    var de: int := ExponentField(w0);
    var k := OddWords(b, w1, w0 % 0x10_0000 + if de != 0 then 0x10_0000 else 0);
    ghost var d := FromWords(w0, w1);
    PowPositive(2, k);
    WordAtMost(b.Value(), Pow(2, k), d.m);
    if de != 0 {
      e := de - 1023 - 52 + k;
      NormalSize(b.Value(), k, d.m);
      bits := 53 - k;
    } else {
      e := de - 1023 - 52 + 1 + k;
      var top := b.x[b.wds - 1];
      NormalBounds(b);
      assert top != 0;
      var h := Hi0bits(top);
      SizeFromTop(b, h);
      bits := 32 * b.wds - h;
      SmallSize(b.Value(), bits, d.m);
    }
  }
}
