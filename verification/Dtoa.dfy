/** Mode 0 of dtoa: from the two words of a double to its shortest decimal. */
module Dtoa {
  import opened Powers
  import opened Words
  import opened Bigints
  import opened BigintOps
  import opened Quorem
  import opened Pow5
  import opened Doubles
  import opened DoubleBits
  import opened FreeFormat
  import opened Scaling
  import opened Shortest
  import opened DigitLoop

  /** The exponents of 2 and 5 in b, S and the half-gap, after removal of common factors of 2. */
  method ChooseExponents(ghost d: Double, ghost bm: nat, be: int, bits: nat, logb: int, k: int, denorm: bool, special: bool)
    returns (b2: nat, m2: nat, s2: nat, b5: nat, s5: nat)
    requires Representable(d) && OddParts(d, bm, be, bits) && d.e <= 971
    requires logb == be + bits - 1 && (denorm <==> d.m < P52) && (special <==> Narrow(d))
    requires -0x400 < k < 0x400
    ensures Balanced(d, be, k, b2, b5, s2, s5, m2, if special then m2 + 1 else m2)
    ensures b2 < 0x2000 && m2 < 0x2000 && s2 < 0x2000 && b5 < 0x400 && s5 < 0x400
  {
    var j := bits - logb - 1;
    b2, s2 := if j >= 0 then 0 else -j, if j >= 0 then j else 0;
    if k >= 0 {
      b5, s5, s2 := 0, k, s2 + k;
    } else {
      b2, b5, s5 := b2 - k, -k, 0;
    }
    m2 := b2;
    var i := if denorm then be + 1075 else 54 - bits;
    b2, s2 := b2 + i, s2 + i;
    if m2 > 0 && s2 > 0 {
      i := if m2 < s2 then m2 else s2;
      b2, m2, s2 := b2 - i, m2 - i, s2 - i;
    }
    if special {
      b2, s2 := b2 + 1, s2 + 1;
    }
  }

  /** A positive working number of bounded size class. */
  ghost predicate Piece(st: Store, table: Pow5Table, b: Bigint, k: nat)
    reads st, table, b
  {
    Operand(st, table, b) && b.k <= k
  }

  /** 5^k. */
  method FiveNumber(st: Store, table: Pow5Table, k: nat) returns (p: Bigint)
    requires st.Valid() && table.Valid(st) && Fits(Pow(5, k))
    modifies st, st.free, table
    ensures st.Valid() && table.Valid(st) && Operand(st, table, p) && p.Value() == Pow(5, k) && Snug(p.k, 2, p.Value())
    ensures fresh(st.free + {p} - old(st.free)) && fresh(table.Nodes() - old(st.free + table.Nodes()))
  {
    hide Pow, PowFrom, Val, Fits, Snug;
    PowStep(5, 0);
    p := I2b(st, 1);
    OneIsSnug(p.k, p.Value());
    if k > 0 {
      p := Pow5Mult(st, table, p, k);
    }
  }

  lemma OneIsSnug(k: nat, v: nat)
    requires k <= 2
    ensures Snug(k, 2, v)
  {}

  /** The powers of five that mode 0 needs fit, in blocks of a class far below the largest. */
  lemma SmallFive(k: nat)
    requires k < 0x400
    ensures Fits(Pow(5, k))
    ensures forall c: nat :: Snug(c, 2, Pow(5, k)) ==> c <= 11
  {
    var v := Pow(5, k);
    FiveBits(k);
    PowersOfTwo();
    PowStep(2, 10);
    assert 0x60 < Pow(2, KMAX);
    forall c: nat | Snug(c, 2, v)
      ensures c <= 11
    {
      if c > 11 {
        PowMonotone(2, 11, c - 1);
        PowMonotone(BASE, 0x61, Pow(2, c - 1));
        PowStep(BASE, 0x60);
      }
    }
  }

  /** Three bits for a factor of five, so 96 words for 1024 of them. */
  lemma FiveBits(k: nat)
    requires k < 0x400
    ensures Pow(5, k) < Pow(BASE, 0x60)
  {
    PowBaseMonotone(5, 8, k);
    assert Pow(2, 3) == 8 && Pow(2, 32) == BASE by {
      PowersOfTwo();
      PowAdd(2, 2, 1);
    }
    PowPow(2, 3, k);
    PowPow(2, 32, 0x60);
    PowMonotone(2, 3 * k, 0xbff);
    PowStep(2, 0xbff);
    PowPositive(2, 0xbff);
  }

  /** The product of two numbers, releasing the second. */
  method Absorb(st: Store, table: Pow5Table, a: Bigint, b: Bigint) returns (c: Bigint)
    requires st.Valid() && table.Valid(st) && Operand(st, table, a) && Operand(st, table, b) && a != b
    requires a.wds + b.wds <= Pow(2, KMAX)
    modifies st, st.free
    ensures st.Valid() && table.Valid(st) && Operand(st, table, a) && Operand(st, table, c) && c != a
    ensures c.Value() == old(b.Value()) * a.Value() && (c.k <= a.k + 1 || c.k <= b.k + 1)
    ensures fresh(st.free + {c} - old(st.free) - {b})
  {
    ProductOf(a.Value(), b.Value());
    c := Mult(st, a, b);
    NoWordsIfZero(c);
    st.Bfree(b);
  }

  /** Numbers in small blocks have few words. */
  lemma FewWords(a: Bigint, b: Bigint)
    requires a.Valid() && b.Valid() && a.k < KMAX && b.k < KMAX
    ensures a.wds + b.wds <= Pow(2, KMAX)
  {
    PowMonotone(2, a.k, KMAX - 1);
    PowMonotone(2, b.k, KMAX - 1);
    PowStep(2, KMAX - 1);
  }

  lemma ProductOf(a: nat, b: nat)
    requires a > 0 && b > 0
    ensures a * b > 0 && a * b == b * a
  {
    MulPositive(a, b);
  }

  /** b times 5^b5, and the powers 5^b5 and 5^s5 on their own. */
  method FivePowers(st: Store, table: Pow5Table, b0: Bigint, b5: nat, s5: nat) returns (b: Bigint, mhi: Bigint, S: Bigint)
    requires st.Valid() && table.Valid(st) && Piece(st, table, b0, 1) && b5 < 0x400 && s5 < 0x400
    modifies st, st.free, table, b0
    ensures st.Valid() && table.Valid(st)
    ensures Piece(st, table, b, 12) && Piece(st, table, mhi, 11) && Piece(st, table, S, 11)
    ensures b != mhi && b != S && mhi != S
    ensures b.Value() == old(b0.Value()) * Pow(5, b5) && mhi.Value() == Pow(5, b5) && S.Value() == Pow(5, s5)
    ensures fresh(st.free + {b, mhi, S} - old(st.free) - {b0})
  {
    hide Pow, PowFrom, Val, Fits, Snug;
    SmallFive(b5);
    SmallFive(s5);
    PowStep(5, 0);
    mhi := FiveNumber(st, table, b5);
    b := b0;
    if b5 > 0 {
      FewWords(mhi, b0);
      b := Absorb(st, table, mhi, b0);
    }
    S := FiveNumber(st, table, s5);
  }

  lemma NoWordsIfZero(b: Bigint)
    requires b.Valid()
    ensures b.wds == 0 ==> b.Value() == 0
  {}

  /** Bits in the divisor's top word; the source knows a divisor without fives to be one. */
  method TopSize(S: Bigint, s5: nat) returns (top: nat, ghost size: nat)
    requires S.Valid() && S.Normal() && S.wds >= 1 && S.Value() > 0 && (s5 == 0 ==> S.Value() == 1)
    ensures size > 0 && Pow(2, size - 1) <= S.Value() < Pow(2, size) && top % 32 == size % 32
  {
    if s5 != 0 {
      NormalBounds(S);
      var h := Hi0bits(S.x[S.wds - 1]);
      SizeFromTop(S, h);
      top, size := 32 - h, 32 * S.wds - h;
      SameRemainder(S.wds, h);
    } else {
      PowStep(2, 0);
      top, size := 1, 1;
    }
  }

  lemma SameRemainder(n: nat, h: nat)
    requires n >= 1 && h < 32
    ensures (32 - h) % 32 == (32 * n - h) % 32
  {}

  /** How far to shift a number of this size to leave four leading zero bits in its top word. */
  method AlignShift(size: nat) returns (i: nat)
    ensures i < 32 && (size + i) % 32 == 28
  {
    i := size % 32;
    if i != 0 {
      i := 32 - i;
    }
    if i > 4 {
      i := i - 4;
    } else if i < 4 {
      i := i + 28;
    } else {
      i := 0;
    }
  }

  /** A number of 32q + 28 bits has a top word of 28. */
  lemma AlignedTop(S: Bigint, q: nat)
    requires S.Valid() && S.Normal() && S.wds >= 1
    requires Pow(2, 32 * q + 27) <= S.Value() < Pow(2, 32 * q + 28)
    ensures Divisor(S) && S.wds == q + 1
  {
    var p := Pow(BASE, q);
    PowPow(2, 32, q);
    assert Pow(2, 32) == BASE && Pow(2, 27) == 0x800_0000 && Pow(2, 28) == 0x1000_0000 by {
      PowersOfTwo();
      PowAdd(2, 14, 13);
      PowAdd(2, 14, 14);
    }
    assert Pow(2, 32 * q + 27) == 0x800_0000 * p by { PowAdd(2, 27, 32 * q); }
    assert Pow(2, 32 * q + 28) == 0x1000_0000 * p by { PowAdd(2, 28, 32 * q); }
    PowPositive(BASE, q);
    NormalBounds(S);
    PowStep(BASE, q);
    if S.wds > q + 1 {
      PowMonotone(BASE, q + 1, S.wds - 1);
    } else if S.wds < q + 1 {
      PowMonotone(BASE, S.wds, q);
    }
    ValTop(S.x[..S.wds]);
    TopBounds(S.x[q], p, S.Value());
  }

  lemma TopBounds(top: Word, p: nat, v: nat)
    requires p > 0 && top * p <= v < (top + 1) * p && 0x800_0000 * p <= v < 0x1000_0000 * p
    ensures TopWordAligned(top)
  {
    var t: int := top;
    MulCancelOrder(0x800_0000, t + 1, p);
    MulCancelOrder(t, 0x1000_0000, p);
  }

  /** Shifts only if there is something to shift. */
  method ShiftBy(st: Store, table: Pow5Table, b0: Bigint, k: nat) returns (b: Bigint)
    requires st.Valid() && table.Valid(st) && Operand(st, table, b0)
    requires Fits(b0.Value() * Pow(2, k)) || (b0.k <= 14 && k < 0x4000)
    modifies st, st.free, b0
    ensures st.Valid() && table.Valid(st) && Operand(st, table, b) && b.Value() == old(b0.Value()) * Pow(2, k)
    ensures b0.k <= 14 && k < 0x4000 ==> b.k <= 15 && (b0.k <= 13 ==> b.k <= 14) && (b0.k <= 12 ==> b.k <= 13)
    ensures fresh(st.free + {b} - old(st.free) - {b0})
  {
    b := b0;
    PowPositive(2, k);
    MulPositive(b0.Value(), Pow(2, k));
    if k > 0 {
      if b0.k <= 14 && k < 0x4000 {
        SmallClass(b0.k);
      } else {
        ShiftFits(b0, k);
      }
      b := Lshift(st, b0, k);
      if b0.k <= 14 && k < 0x4000 {
        SmallGrowth(b.k, b0.k);
      }
    } else {
      PowStep(2, 0);
    }
  }

  lemma SmallClass(k: nat)
    requires k <= 14
    ensures Pow(2, k) <= 0x4000 && (k <= 13 ==> Pow(2, k) <= 0x2000) && (k <= 12 ==> Pow(2, k) <= 0x1000) && Pow(2, KMAX) == 0x8000
  {
    PowersOfTwo();
    PowMonotone(2, k, 14);
    if k <= 13 {
      PowMonotone(2, k, 13);
    }
    if k <= 12 {
      PowMonotone(2, k, 12);
      PowStep(2, 12);
    }
  }

  lemma SmallGrowth(k: nat, k0: nat)
    requires k0 <= 14 && (k == k0 || (k > 0 && Pow(2, k - 1) <= 0x200 + Pow(2, k0)))
    ensures k <= 15 && (k0 <= 13 ==> k <= 14) && (k0 <= 12 ==> k <= 13)
  {
    SmallClass(k0);
    PowersOfTwo();
    if k > 15 {
      PowMonotone(2, 15, k - 1);
    } else if k > 14 {
      PowMonotone(2, 14, k - 1);
    } else if k > 13 {
      PowMonotone(2, 13, k - 1);
    }
  }

  /** A number of s bits shifted to 32q + 28 bits. */
  lemma ShiftedSize(v: nat, size: nat, n: nat, w: nat)
    requires size > 0 && Pow(2, size - 1) <= v < Pow(2, size) && w == v * Pow(2, n) && (size + n) % 32 == 28
    ensures var q := (size + n) / 32; Pow(2, 32 * q + 27) <= w < Pow(2, 32 * q + 28)
  {
    PowAdd(2, size - 1, n);
    PowAdd(2, size, n);
    PowPositive(2, n);
    MulLe(Pow(2, size - 1), v, Pow(2, n));
    MulLt(v, Pow(2, size), Pow(2, n));
  }

  /** Shifts the divisor by s2 and then on to four leading zero bits. */
  method AlignDivisor(st: Store, table: Pow5Table, S0: Bigint, s5: nat, s2: nat) returns (S: Bigint, i: nat)
    requires st.Valid() && table.Valid(st) && Piece(st, table, S0, 11) && s2 < 0x2000
    requires s5 == 0 ==> S0.Value() == 1
    modifies st, st.free, S0
    ensures st.Valid() && table.Valid(st) && Piece(st, table, S, 13) && Divisor(S) && i < 32
    ensures S.Value() == old(S0.Value()) * Pow(2, s2 + i)
    ensures fresh(st.free + {S} - old(st.free) - {S0})
  {
    hide Pow, PowFrom, Val, Divisor;
    var top; ghost var size;
    ghost var v := S0.Value();
    top, size := TopSize(S0, s5);
    i := AlignShift(top + s2);
    S := ShiftBy(st, table, S0, s2 + i);
    SameSum(top, size, s2 + i);
    ShiftedSize(v, size, s2 + i, S.Value());
    AlignedTop(S, (size + (s2 + i)) / 32);
  }

  lemma SameSum(top: nat, size: nat, n: nat)
    requires top % 32 == size % 32
    ensures (top + n) % 32 == (size + n) % 32
  {}

  /** Powers of five and the alignment of the divisor: everything before the check of the estimate. */
  method BuildNumbers(st: Store, table: Pow5Table, b0: Bigint, b2: nat, s2: nat, b5: nat, s5: nat)
    returns (b: Bigint, S: Bigint, mhi: Bigint, i: nat)
    requires st.Valid() && table.Valid(st) && Piece(st, table, b0, 1)
    requires b5 < 0x400 && s5 < 0x400 && b2 < 0x2000 && s2 < 0x2000
    modifies st, st.free, table, b0
    ensures st.Valid() && table.Valid(st)
    ensures Piece(st, table, b, 13) && Piece(st, table, mhi, 11) && Piece(st, table, S, 13) && Divisor(S)
    ensures b != mhi && b != S && mhi != S && i < 32
    ensures b.Value() == old(b0.Value()) * Pow(5, b5) * Pow(2, b2 + i)
    ensures S.Value() == Pow(5, s5) * Pow(2, s2 + i) && mhi.Value() == Pow(5, b5)
    ensures fresh(st.free + {b, mhi, S} - old(st.free) - {b0})
  {
    hide Pow, PowFrom, Val;
    b, mhi, S := FivePowers(st, table, b0, b5, s5);
    PowStep(5, 0);
    S, i := AlignDivisor(st, table, S, s5, s2);
    b := ShiftBy(st, table, b, b2 + i);
  }

  /** Takes back an estimate that was one too large. */
  method FixEstimate(st: Store, table: Pow5Table, b0: Bigint, S: Bigint, mhi0: Bigint, k0: int, kCheck: bool)
    returns (b: Bigint, mhi: Bigint, k: int)
    requires st.Valid() && table.Valid(st) && b0 != mhi0 && b0 != S && mhi0 != S
    requires Piece(st, table, b0, 13) && Piece(st, table, mhi0, 11) && Piece(st, table, S, 13)
    modifies st, st.free, b0, mhi0
    ensures st.Valid() && table.Valid(st) && b != mhi && b != S && mhi != S
    ensures Piece(st, table, b, 14) && Piece(st, table, mhi, 12) && Piece(st, table, S, 13)
    ensures var low := kCheck && old(b0.Value()) < S.Value();
      k == (if low then k0 - 1 else k0)
      && b.Value() == old(b0.Value()) * (if low then 10 else 1) && mhi.Value() == old(mhi0.Value()) * (if low then 10 else 1)
    ensures fresh(st.free + {b, mhi} - old(st.free) - {b0, mhi0})
  {
    b, mhi, k := b0, mhi0, k0;
    if kCheck {
      var c := Cmp(b, S);
      if c < 0 {
        k := k - 1;
        b := MultAdd(st, b, 10, 0);
        mhi := MultAdd(st, mhi, 10, 0);
      }
    }
  }

  /** The two half-gaps; below a power of two the lower one is half the upper one. */
  method HalfGaps(st: Store, table: Pow5Table, mhi0: Bigint, m2: nat, special: bool) returns (mlo: Bigint, mhi: Bigint)
    requires st.Valid() && table.Valid(st) && Piece(st, table, mhi0, 12) && m2 < 0x3000
    modifies st, st.free, mhi0
    ensures st.Valid() && table.Valid(st) && Piece(st, table, mlo, 13) && Piece(st, table, mhi, 14)
    ensures mlo.Value() == old(mhi0.Value()) * Pow(2, m2)
    ensures mhi.Value() == if special then 2 * mlo.Value() else mlo.Value()
    ensures fresh(st.free + {mlo, mhi} - old(st.free) - {mhi0})
  {
    hide Pow, PowFrom, Val;
    mhi := ShiftBy(st, table, mhi0, m2);
    mlo := mhi;
    if special {
      mhi := st.Balloc(mlo.k);
      CopyInto(mhi, mlo);
      PowStep(2, 0);
      mhi := ShiftBy(st, table, mhi, 1);
    }
  }

  /**
   * The promise of mode 0 for the digits s with the decimal point after the first decpt of them:
   * they read back as d, no shorter decimal does, and none of this length that does is closer to d, or as close
   * unless the digits are even.
   */
  ghost predicate Prints(d: Double, s: seq<Digit>, decpt: int)
    requires Representable(d)
  {
    && |s| > 0 && s[0] != 0 && s[|s| - 1] != 0
    && ReadsBack(d, DigitsValue(s), decpt - |s|)
    && NoneShorter(d, |s|)
    && NoneCloser(d, DigitsValue(s), decpt - |s|) && TiesToEven(d, DigitsValue(s), decpt - |s|)
  }

  lemma {:induction false} DigitsBelow(s: seq<Digit>)
    ensures DigitsValue(s) < Pow(10, |s|)
  {
    PowStep(10, 0);
    if |s| > 0 {
      DigitsBelow(s[..|s| - 1]);
      PowStep(10, |s| - 1);
    }
  }

  /** A string none shorter than which reads back has no trailing zero. */
  lemma NoTrailingZero(d: Double, s: seq<Digit>, q: int)
    requires Representable(d) && d.m > 0 && |s| > 0 && s[0] != 0 && ReadsBack(d, DigitsValue(s), q) && NoneShorter(d, |s|)
    ensures s[|s| - 1] != 0
  {
    if s[|s| - 1] == 0 {
      var t := s[..|s| - 1];
      CoarserUnit(d, DigitsValue(t), q);
      DigitsBelow(t);
      FirstDigitCounts(t);
    }
  }

  lemma {:induction false} FirstDigitCounts(s: seq<Digit>)
    requires |s| > 0 && s[0] != 0
    ensures DigitsValue(s) > 0
  {
    if |s| > 1 {
      FirstDigitCounts(s[..|s| - 1]);
    }
  }

  /** Ten units of one place are one unit of the next. */
  lemma CarryIntoNextPlace(d: Double, k: int)
    requires Representable(d) && d.m > 0 && ReadsBack(d, 10, k) && NoneCloser(d, 10, k)
    ensures ReadsBack(d, 1, k + 1) && NoneCloser(d, 1, k + 1) && TiesToEven(d, 1, k + 1)
  {
    hide ReadsBack, Error, Ten, Representable;
    CoarserUnit(d, 1, k);
    var q := k + 1;
    forall c: nat | ReadsBack(d, c, q)
      ensures Error(d, 1, q) <= Error(d, c, q) && (c != 1 ==> Error(d, c, q) != Error(d, 1, q))
    {
      CoarserUnit(d, c, k);
      if c != 1 && Error(d, c, q) == Error(d, 1, q) {
        ExactMiddle(d, 10, 10 * c, 5 + 5 * c, k);
      }
    }
  }

  /** The loop's verdict at exponent k, or the carry into the next decade, is the promise. */
  lemma VerdictIsPromise(d: Double, k: int, g: Target, s: seq<Digit>, k1: int)
    requires Representable(d) && d.m > 0 && Scaled(d, k, g) && WellFormed(g) && g.S <= g.b
    requires |s| > 0 && s[0] != 0
    requires if k1 == k then Best(g, DigitsValue(s), |s|) else k1 == k + 1 && s == [1] && Best(g, 10, 1)
    ensures Prints(d, s, k1 + 1)
  {
    hide RoundsTo, Scaled, Hits, PowFrom;
    if k1 == k {
      BestIsShortest(d, k, g, DigitsValue(s), |s|);
    } else {
      BestIsShortest(d, k, g, 10, 1);
      CarryIntoNextPlace(d, k);
      assert [] + [1] == s;
      DigitsSnoc([], 1);
    }
    NoTrailingZero(d, s, k1 + 1 - |s|);
  }

  /** The scaled target before the estimate is checked: the numbers' factors balance the double's exponent. */
  lemma BuiltTarget(d: Double, bm: nat, be: int, bits: nat, k: int, b2: nat, b5: nat, s2: nat, s5: nat, m2: nat, i: nat,
      special: bool, g: Target)
    requires Representable(d) && d.m > 0 && OddParts(d, bm, be, bits) && g.even == (d.m % 2 == 0)
    requires special <==> Narrow(d)
    requires Balanced(d, be, k, b2, b5, s2, s5, m2, if special then m2 + 1 else m2)
    requires g.b == bm * Pow(5, b5) * Pow(2, b2 + i) && g.S == Pow(5, s5) * Pow(2, s2 + i)
    requires g.lo == Pow(5, b5) * Pow(2, m2 + i) && g.hi == if special then 2 * g.lo else g.lo
    ensures Scaled(d, k, g) && WellFormed(g)
  {
    var hi2 := if special then m2 + i + 1 else m2 + i;
    PowStep(2, m2 + i);
    hide Pow, PowFrom, OddParts, Scaled, WellFormed, Quad, GapUp, GapDown, Ulp, Ten, Scale;
    BuiltFactors(g, bm, Pow(2, b2 + i), Pow(5, b5), Pow(2, s2 + i), Pow(5, s5), Pow(2, m2 + i), Pow(2, hi2), special);
    BalancedIsScaled(d, bm, be, bits, k, b2 + i, b5, s2 + i, s5, m2 + i, hi2, g);
    BuiltIsPositive(g, b5, s2 + i, s5, m2 + i);
    ScaledIsWellFormed(d, k, g);
  }

  lemma BuiltFactors(g: Target, bm: nat, p2: nat, p5: nat, q2: nat, q5: nat, lo: nat, hi: nat, special: bool)
    requires g.b == bm * p5 * p2 && g.S == q5 * q2 && g.lo == p5 * lo
    requires g.hi == (if special then 2 * g.lo else g.lo) && hi == if special then 2 * lo else lo
    ensures Factored(g, bm, p2, p5, q2, q5, lo, hi)
  {
    Reorder(bm, p5, p2);
    Reorder(1, p5, lo);
    Reorder(2, p5, lo);
  }

  lemma BuiltIsPositive(g: Target, b5: nat, s2: nat, s5: nat, lo2: nat)
    requires g.S == Pow(5, s5) * Pow(2, s2) && g.lo == Pow(5, b5) * Pow(2, lo2)
    ensures g.S > 0 && g.lo > 0
  {
    PowPositive(2, s2);
    PowPositive(5, s5);
    PowPositive(2, lo2);
    PowPositive(5, b5);
    hide Pow, PowFrom;
    MulPositive(Pow(5, s5), Pow(2, s2));
    MulPositive(Pow(5, b5), Pow(2, lo2));
  }

  lemma Reorder(c: int, p5: int, p2: int)
    ensures c * p5 * p2 == c * p2 * p5 && c * (p5 * p2) == (c * p2) * p5
  {}

  /** The target the loop starts from, once the estimate has been checked. */
  lemma CheckedTarget(d: Double, k0: int, kCheck: bool, g0: Target, k: int, g: Target)
    requires Representable(d) && d.m > 0 && Scaled(d, k0, g0) && WellFormed(g0)
    requires !AtLeast(d, k0 + 1) && AtLeast(d, if kCheck then k0 - 1 else k0)
    requires var low := kCheck && g0.b < g0.S;
      k == (if low then k0 - 1 else k0) && g == (if low then Target(10 * g0.b, g0.S, 10 * g0.lo, 10 * g0.hi, g0.even) else g0)
    ensures Scaled(d, k, g) && WellFormed(g) && g.S <= g.b < 10 * g.S && NoTieAtTen(g) && Progress(g, 0, 0, g.b, g.lo, g.hi)
  {
    DecadeOfScaled(d, k0, g0);
    ScaledDown(d, k0, g0);
    DecadeOfScaled(d, k, g);
    ScaledHasNoTieAtTen(d, k, g);
    PowStep(10, 0);
  }

  /** Checks the estimate and forms the half-gaps: the loop can start. */
  method StartLoop(st: Store, table: Pow5Table, ghost d: Double, b0: Bigint, S: Bigint, mhi0: Bigint, m2: nat,
      k0: int, kCheck: bool, special: bool, ghost g0: Target)
    returns (b: Bigint, mlo: Bigint, mhi: Bigint, k: int, ghost g: Target)
    requires st.Valid() && table.Valid(st) && b0 != mhi0 && b0 != S && mhi0 != S && m2 < 0x3000
    requires Piece(st, table, b0, 13) && Piece(st, table, mhi0, 11) && Piece(st, table, S, 13) && Divisor(S)
    requires Representable(d) && d.m > 0 && Scaled(d, k0, g0) && WellFormed(g0)
    requires !AtLeast(d, k0 + 1) && AtLeast(d, if kCheck then k0 - 1 else k0)
    requires g0.b == b0.Value() && g0.S == S.Value() && g0.lo == mhi0.Value() * Pow(2, m2)
    requires g0.hi == if special then 2 * g0.lo else g0.lo
    modifies st, st.free, b0, mhi0
    ensures st.Valid() && table.Valid(st) && Running(st, b, S, mlo, mhi, g, 0, 0)
    ensures Scaled(d, k, g) && g.even == g0.even && b !in table.nodes && mlo !in table.nodes && mhi !in table.nodes
    ensures fresh(st.free + {b, mlo, mhi} - old(st.free) - {b0, mhi0})
  {
    hide Pow, PowFrom, Val, Representable, NoTieAtTen, Scaled, WellFormed, AtLeast, NothingHits, Divisor, Progress, Running;
    ghost var p5 := mhi0.Value();
    b, mhi, k := FixEstimate(st, table, b0, S, mhi0, k0, kCheck);
    g := if k == k0 then g0 else Target(10 * g0.b, g0.S, 10 * g0.lo, 10 * g0.hi, g0.even);
    CheckedTarget(d, k0, kCheck, g0, k, g);
    TenOrOne(p5, if k == k0 then 1 else 10, Pow(2, m2));
    mlo, mhi := HalfGaps(st, table, mhi, m2, special);
    LoopStarts(st, table, b, S, mlo, mhi, g);
  }

  lemma LoopStarts(st: Store, table: Pow5Table, b: Bigint, S: Bigint, mlo: Bigint, mhi: Bigint, g: Target)
    requires Piece(st, table, b, 14) && Piece(st, table, S, 13) && Piece(st, table, mlo, 14) && Piece(st, table, mhi, 14) && Divisor(S)
    requires b != S && b != mlo && b != mhi && S != mlo && S != mhi
    requires g.S == S.Value() && g.b == b.Value() && g.lo == mlo.Value() <= g.hi == mhi.Value()
    requires Progress(g, 0, 0, g.b, g.lo, g.hi) && NoTieAtTen(g) && g.S <= g.b
    ensures Running(st, b, S, mlo, mhi, g, 0, 0)
  {
    hide Progress, NoTieAtTen, Divisor, Val, NothingHits;
  }

  /** Exponents and numbers, before the check of the estimate. */
  method BuildScaled(st: Store, table: Pow5Table, ghost d: Double, b0: Bigint, be: int, bits: nat,
      k: int, denorm: bool, special: bool, ghost even: bool)
    returns (b: Bigint, S: Bigint, mhi: Bigint, m2: nat, ghost g: Target)
    requires st.Valid() && table.Valid(st) && Piece(st, table, b0, 1) && -0x400 < k < 0x400
    requires Representable(d) && d.m > 0 && d.e <= 971 && OddParts(d, b0.Value(), be, bits)
    requires (denorm <==> d.m < P52) && (special <==> Narrow(d)) && (even <==> d.m % 2 == 0)
    modifies st, st.free, table, b0
    ensures st.Valid() && table.Valid(st) && b != mhi && b != S && mhi != S && m2 < 0x3000
    ensures Piece(st, table, b, 13) && Piece(st, table, mhi, 11) && Piece(st, table, S, 13) && Divisor(S)
    ensures Scaled(d, k, g) && WellFormed(g) && g.even == even
    ensures g.b == b.Value() && g.S == S.Value() && g.lo == mhi.Value() * Pow(2, m2)
    ensures g.hi == if special then 2 * g.lo else g.lo
    ensures fresh(st.free + {b, mhi, S} - old(st.free) - {b0})
  {
    hide Pow, PowFrom, Val, Scaled, Balanced, OddParts, Representable, Narrow;
    ghost var bm := b0.Value();
    var b2, s2, b5, s5, i;
    b2, m2, s2, b5, s5 := ChooseExponents(d, bm, be, bits, be + bits - 1, k, denorm, special);
    b, S, mhi, i := BuildNumbers(st, table, b0, b2, s2, b5, s5);
    ghost var lo := mhi.Value() * Pow(2, m2 + i);
    g := Target(b.Value(), S.Value(), lo, if special then 2 * lo else lo, even);
    BuiltTarget(d, bm, be, bits, k, b2, b5, s2, s5, m2, i, special, g);
    m2 := m2 + i;
  }

  /** Everything before the loop: exponents, numbers, check of the estimate, half-gaps. */
  method SetUp(st: Store, table: Pow5Table, ghost d: Double, b0: Bigint, be: int, bits: nat,
      k0: int, kCheck: bool, denorm: bool, special: bool, even: bool)
    returns (b: Bigint, S: Bigint, mlo: Bigint, mhi: Bigint, k: int, ghost g: Target)
    requires st.Valid() && table.Valid(st) && Piece(st, table, b0, 1)
    requires Representable(d) && d.m > 0 && d.e <= 971 && OddParts(d, b0.Value(), be, bits)
    requires (denorm <==> d.m < P52) && (special <==> Narrow(d)) && (even <==> d.m % 2 == 0)
    requires !AtLeast(d, k0 + 1) && AtLeast(d, if kCheck then k0 - 1 else k0)
    modifies st, st.free, table, b0
    ensures st.Valid() && table.Valid(st) && Running(st, b, S, mlo, mhi, g, 0, 0)
    ensures Scaled(d, k, g) && g.even == even && b !in table.nodes && mlo !in table.nodes && mhi !in table.nodes
    ensures fresh({b, mlo, mhi} + st.free - old(st.free) - {b0})
  {
    assert -0x400 < k0 < 0x400 by {
      EstimateIsSmall(d, k0 + 1);
      EstimateIsSmall(d, if kCheck then k0 - 1 else k0);
    }
    var m2; ghost var g0;
    b, S, mhi, m2, g0 := BuildScaled(st, table, d, b0, be, bits, k0, denorm, special, even);
    b, mlo, mhi, k, g := StartLoop(st, table, d, b, S, mhi, m2, k0, kCheck, special, g0);
  }

  /** The bignum path. */
  method PrintBignum(st: Store, table: Pow5Table, ghost d: Double, b0: Bigint, be: int, bits: nat,
      k0: int, kCheck: bool, denorm: bool, special: bool, even: bool)
    returns (s: seq<Digit>, decpt: int)
    requires st.Valid() && table.Valid(st) && Piece(st, table, b0, 1)
    requires Representable(d) && d.m > 0 && d.e <= 971 && OddParts(d, b0.Value(), be, bits)
    requires (denorm <==> d.m < P52) && (special <==> Narrow(d)) && (even <==> d.m % 2 == 0)
    requires !AtLeast(d, k0 + 1) && AtLeast(d, if kCheck then k0 - 1 else k0)
    modifies st, st.free, table, b0
    ensures st.Valid() && table.Valid(st) && Prints(d, s, decpt) && fresh(st.free - old(st.free) - {b0})
  {
    var b, S, mlo, mhi, k; ghost var g;
    b, S, mlo, mhi, k, g := SetUp(st, table, d, b0, be, bits, k0, kCheck, denorm, special, even);
    var k1;
    s, k1 := GenerateDigits(st, b, S, mlo, mhi, even, k, g);
    VerdictIsPromise(d, k, g, s, k1);
    decpt := k1 + 1;
  }

  lemma TenOrOne(p: int, t: int, q: int)
    ensures (p * t) * q == t * (p * q)
  {}

  // The path for integers below 10^15, whose digits the source finds by exact division.

  /** An integer value and its half-gaps, scaled so that S stands for 10^k. */
  ghost function IntegerTarget(d: Double, k: nat): Target
    requires Representable(d)
  {
    Target(Quad(d), Scale() * Pow(10, k), GapDown(d), GapUp(d), d.m % 2 == 0)
  }

  lemma IntegerTargetIsScaled(d: Double, k: nat)
    requires Representable(d) && d.m > 0
    ensures Scaled(d, k, IntegerTarget(d, k)) && WellFormed(IntegerTarget(d, k))
  {
    PowStep(10, 0);
    PowPositive(10, k);
    PowPositive(2, PLACES);
    MulPositive(Scale(), Pow(10, k));
    UlpPositive(d);
    QuadFactors(d);
    MulLe(1, d.m, Ulp(d));
  }

  /** An integer below 10^15 is a double with an ulp of at most one half, so its gaps are below one half. */
  lemma IntegerGaps(d: Double, v: nat)
    requires Representable(d) && d.m > 0 && v < 1_000_000_000_000_000 && Quad(d) == v * Scale()
    ensures 2 * GapUp(d) <= Scale()
  {
    QuadFactors(d);
    UlpPositive(d);
    PowPositive(2, PLACES);
    if d.e >= 0 {
      PowMonotone(2, 1074, d.e + 1074);
      PowAdd(2, 1074, 2);
      PowersOfTwo();
      MulLe(P52, d.m, Ulp(d));
      MulLe(Pow(2, 1074), Ulp(d), P52);
      MulLt(v, P52, Scale());
    } else {
      PowMonotone(2, d.e + 1074, 1073);
      PowAdd(2, 1073, 3);
      PowersOfTwo();
      PowAdd(2, 2, 1);
    }
  }

  /** In units of the i-th digit, the remainder of an integer is at least one and at most ten to the k less one. */
  lemma IntegerKeeps(rem: nat, ds: nat, u: nat, sc: nat, gap: nat, t: nat)
    requires 0 < rem < ds && u > 0 && rem % u == 0 && ds % u == 0 && 2 * gap <= sc && t == u && sc > 0
    ensures gap * t < rem * sc && rem * sc + gap * t < ds * sc
  {
    assert rem >= u && ds - rem >= u by { AtLeastOneUnit(rem, ds, u); }
    MulLe(u, rem, sc);
    MulLe(u, ds - rem, sc);
    MulLt(gap, sc, u);
    assert (ds - rem) * sc == ds * sc - rem * sc;
  }

  lemma AtLeastOneUnit(rem: nat, ds: nat, u: nat)
    requires 0 < rem < ds && u > 0 && rem % u == 0 && ds % u == 0
    ensures rem >= u && ds - rem >= u
  {
    var a, b := rem / u, ds / u;
    assert rem == a * u && ds == b * u;
    if a < 1 {
      MulLe(a, 0, u);
    }
    if b < a + 1 {
      MulLe(b, a, u);
    }
    MulLe(1, a, u);
    MulLe(a + 1, b, u);
    assert (a + 1) * u == a * u + u;
  }

  /** The state of the integer loop: i digits with value p so far, v left, counted in units of 10^i. */
  ghost predicate IntegerState(d: Double, k: nat, i: nat, p: nat, v: nat)
    requires Representable(d)
  {
    var g := IntegerTarget(d, k);
    && i <= k && Progress(g, i, p, v * Scale(), g.lo * Pow(10, i), g.hi * Pow(10, i))
    && (i > 0 ==> NothingHits(g, i))
    && Pow(10, i) > 0 && v % Pow(10, i) == 0 && v < 10 * Pow(10, k)
  }

  lemma IntegerStart(d: Double, k: nat, v: nat)
    requires Representable(d) && d.m > 0 && Quad(d) == v * Scale() && v < 10 * Pow(10, k)
    ensures IntegerState(d, k, 0, 0, v)
  {
    IntegerTargetIsScaled(d, k);
    PowStep(10, 0);
    PowPositive(2, PLACES);
    MulLt(v, 10 * Pow(10, k), Scale());
  }

  lemma Multiple(r: nat, u: nat, u1: nat)
    requires u > 0 && r % u == 0 && u1 == 10 * u
    ensures (10 * r) % u1 == 0
  {
    var q := r / u;
    assert r == q * u;
    assert 10 * r == q * u1;
    DivUnique(10 * r, u1, q, 0);
  }

  lemma RemainderKeepsMultiple(v: nat, ds: nat, u: nat)
    requires u > 0 && ds > 0 && v % u == 0 && ds % u == 0
    ensures (v % ds) % u == 0
  {
    var a, b, q := v / u, ds / u, v / ds;
    assert v == a * u && ds == b * u && v == q * ds + v % ds;
    assert v % ds == (a - q * b) * u by {
      assert q * (b * u) == (q * b) * u;
      assert (a - q * b) * u == a * u - (q * b) * u;
    }
    DivUnique(v % ds, u, a - q * b, 0);
  }

  lemma UnitDivides(k: nat, i: nat)
    requires i <= k
    ensures Pow(10, i) > 0 && Pow(10, k) % Pow(10, i) == 0
  {
    PowAdd(10, k - i, i);
    PowPositive(10, i);
    DivUnique(Pow(10, k), Pow(10, i), Pow(10, k - i), 0);
  }

  lemma DigitOf(v: nat, ds: nat, q: nat, r: nat, sc: nat)
    requires v == q * ds + r
    ensures v * sc == q * (sc * ds) + r * sc
  {
    assert (q * ds + r) * sc == q * (sc * ds) + r * sc;
  }

  /** The digit and remainder against the target, and what the next unit divides. */
  lemma IntegerDigit(d: Double, k: nat, i: nat, p: nat, v: nat, q: nat, r: nat)
    requires Representable(d) && IntegerState(d, k, i, p, v) && q <= 9 && v == q * Pow(10, k) + r && r < Pow(10, k)
    ensures var g := IntegerTarget(d, k); v * Scale() == q * g.S + r * Scale() && r * Scale() < g.S
    ensures Pow(10, i) > 0 && r % Pow(10, i) == 0 && Pow(10, k) % Pow(10, i) == 0 && (r > 0 ==> i < k)
  {
    PowPositive(2, PLACES);
    hide Pow, PowFrom, Progress, NothingHits;
    DigitOf(v, Pow(10, k), q, r, Scale());
    MulLt(r, Pow(10, k), Scale());
    UnitDivides(k, i);
    DivUnique(v, Pow(10, k), q, r);
    RemainderKeepsMultiple(v, Pow(10, k), Pow(10, i));
    if r > 0 {
      MultipleAtLeast(r, Pow(10, i));
    }
  }

  lemma MultipleAtLeast(r: nat, u: nat)
    requires r > 0 && u > 0 && r % u == 0
    ensures r >= u
  {}

  /** The last digit leaves nothing. */
  lemma IntegerStops(d: Double, k: nat, i: nat, p: nat, v: nat, q: nat)
    requires Representable(d) && d.m > 0 && IntegerState(d, k, i, p, v) && q <= 9 && v == q * Pow(10, k) && Pow(10, k) > 0
    ensures Best(IntegerTarget(d, k), 10 * p + q, i + 1)
  {
    var g := IntegerTarget(d, k);
    IntegerTargetIsScaled(d, k);
    IntegerDigit(d, k, i, p, v, q, 0);
    hide Pow, PowFrom, Progress, NothingHits, Best, Scale, Scaled;
    MulPositive(g.lo, Pow(10, i));
    StopBelow(g, i, p, v * Scale(), g.lo * Pow(10, i), g.hi * Pow(10, i), q, 0);
  }

  /** The others leave a multiple of the next unit. */
  lemma IntegerGoesOn(d: Double, k: nat, i: nat, p: nat, v: nat, q: nat, r: nat)
    requires Representable(d) && d.m > 0 && 2 * GapUp(d) <= Scale() && IntegerState(d, k, i, p, v)
    requires q <= 9 && v == q * Pow(10, k) + r && 0 < r < Pow(10, k)
    ensures IntegerState(d, k, i + 1, 10 * p + q, 10 * r)
  {
    var g, u := IntegerTarget(d, k), Pow(10, i);
    IntegerTargetIsScaled(d, k);
    IntegerDigit(d, k, i, p, v, q, r);
    PowPositive(2, PLACES);
    PowPositive(10, i + 1);
    PowStep(10, i);
    hide Pow, PowFrom, Progress, NothingHits, Scale, Scaled;
    IntegerKeeps(r, Pow(10, k), u, Scale(), g.hi, u);
    MulLe(g.lo, g.hi, u);
    KeepDigit(g, i, p, v * Scale(), g.lo * u, g.hi * u, q, r * Scale());
    Multiple(r, u, Pow(10, i + 1));
    TenTimesState(g.lo, g.hi, u, Pow(10, i + 1), r, Scale());
  }

  /** One digit of the integer loop: exact, or more to come. */
  lemma IntegerTurn(d: Double, k: nat, i: nat, p: nat, v: nat, q: nat, r: nat)
    requires Representable(d) && d.m > 0 && 2 * GapUp(d) <= Scale() && IntegerState(d, k, i, p, v)
    requires q <= 9 && v == q * Pow(10, k) + r && r < Pow(10, k)
    ensures r == 0 ==> Best(IntegerTarget(d, k), 10 * p + q, i + 1)
    ensures r != 0 ==> IntegerState(d, k, i + 1, 10 * p + q, 10 * r)
  {
    hide Pow, PowFrom, Scale, IntegerState, IntegerTarget, Best;
    if r == 0 {
      IntegerStops(d, k, i, p, v, q);
    } else {
      IntegerGoesOn(d, k, i, p, v, q, r);
    }
  }

  lemma TenTimesState(lo: int, hi: int, u: int, u1: int, r: int, sc: int)
    requires u1 == 10 * u
    ensures 10 * (lo * u) == lo * u1 && 10 * (hi * u) == hi * u1 && 10 * (r * sc) == (10 * r) * sc
  {}

  /** The next digit of the quotient, and the remainder. */
  method DivideDigit(v: nat, ds: nat) returns (q: Digit, r: nat)
    requires ds > 0 && v < 10 * ds
    ensures v == q * ds + r && r < ds && (v >= ds ==> q != 0)
  {
    var n := v / ds;
    r := v % ds;
    assert v == n * ds + r;
    if n >= 10 {
      MulLe(10, n, ds);
    }
    q := n;
  }

  /** One turn of the integer loop on the digit string. */
  method IntegerPass(ghost d: Double, k: nat, ds: nat, v: nat, s0: seq<Digit>) returns (s: seq<Digit>, v1: nat)
    requires Representable(d) && d.m > 0 && 2 * GapUp(d) <= Scale() && IntegerState(d, k, |s0|, DigitsValue(s0), v)
    requires ds == Pow(10, k) && ds > 0
    requires if |s0| > 0 then s0[0] != 0 else v >= ds
    ensures |s| == |s0| + 1 && s[0] != 0
    ensures v1 == 0 ==> Best(IntegerTarget(d, k), DigitsValue(s), |s|)
    ensures v1 != 0 ==> IntegerState(d, k, |s|, DigitsValue(s), v1)
  {
    var q, r := DivideDigit(v, ds);
    IntegerTurn(d, k, |s0|, DigitsValue(s0), v, q, r);
    DigitsSnoc(s0, q);
    s, v1 := s0 + [q], 10 * r;
  }

  /** Digits of an integer of k + 1 digits, until nothing is left. */
  method PrintInteger(ghost d: Double, v0: nat, k: nat) returns (s: seq<Digit>, decpt: int)
    requires Representable(d) && d.m > 0 && Quad(d) == v0 * Scale()
    requires k <= 14 && Pow(10, k) <= v0 < 10 * Pow(10, k) && v0 < 1_000_000_000_000_000
    ensures Prints(d, s, decpt)
  {
    IntegerGaps(d, v0);
    IntegerStart(d, k, v0);
    PowPositive(10, k);
    var v := v0;
    s, v := IntegerPass(d, k, Pow(10, k), v0, []);
    while v != 0
      invariant 0 < |s| && s[0] != 0
      invariant if v == 0 then Best(IntegerTarget(d, k), DigitsValue(s), |s|) else IntegerState(d, k, |s|, DigitsValue(s), v)
      decreases v != 0, k - |s|
    {
      s, v := IntegerPass(d, k, Pow(10, k), v, s);
    }
    IntegerTargetIsScaled(d, k);
    IntegerDecade(d, v0, k);
    VerdictIsPromise(d, k, IntegerTarget(d, k), s, k);
    decpt := k + 1;
  }

  lemma IntegerDecade(d: Double, v: nat, k: nat)
    requires Representable(d) && Quad(d) == v * Scale() && Pow(10, k) <= v
    ensures IntegerTarget(d, k).S <= IntegerTarget(d, k).b
  {
    PowPositive(2, PLACES);
    MulLe(Pow(10, k), v, Scale());
  }

  // The whole of mode 0.

  /** What dtoa hands back: a sign and a text with the position of its decimal point. */
  datatype Text = NotANumber | Infinity | Zero | Digits(s: seq<Digit>, decpt: int)

  /** The value of the odd part as an integer. */
  lemma IntegerValue(d: Double, b: nat, be: int, bits: nat)
    requires Representable(d) && OddParts(d, b, be, bits) && be >= 0
    ensures Quad(d) == (b * Pow(2, be)) * Scale()
  {
    QuadFromParts(d, b, be, bits);
    PowAdd(2, be, PLACES);
    MulAssoc(b, Pow(2, be), Pow(2, PLACES));
  }

  lemma IntegerOrder(d: Double, v: nat, k: nat)
    requires Representable(d) && Quad(d) == v * Scale()
    ensures AtLeast(d, k) <==> Pow(10, k) <= v
  {
    PowStep(10, 0);
    PowPositive(2, PLACES);
    hide Pow, PowFrom, Quad;
    MulCancelOrder(v, Pow(10, k), Scale());
  }

  /** The value of a double that is an integer. */
  function IntegerOf(d: Double): nat {
    if d.e >= 0 then d.m * Pow(2, d.e) else PowPositive(2, -d.e); d.m / Pow(2, -d.e)
  }

  lemma IntegerOfParts(d: Double, b: nat, be: int, bits: nat)
    requires Representable(d) && OddParts(d, b, be, bits) && be >= 0
    ensures IntegerOf(d) == b * Pow(2, be)
  {
    if d.e >= 0 {
      PowAdd(2, be - d.e, d.e);
      MulAssoc(b, Pow(2, be - d.e), Pow(2, d.e));
    } else {
      PowPositive(2, -d.e);
      PowAdd(2, be, -d.e);
      MulAssoc(b, Pow(2, be), Pow(2, -d.e));
      DivUnique(d.m, Pow(2, -d.e), b * Pow(2, be), 0);
    }
  }

  /** The estimate with the exact comparison the source makes for small exponents. */
  method CheckSmallEstimate(d: Double, kEst: int) returns (k: int, kCheck: bool)
    requires Representable(d) && Estimate(d, kEst)
    ensures !AtLeast(d, k + 1) && AtLeast(d, if kCheck then k - 1 else k)
    ensures kCheck ==> k == kEst && (k < 0 || k > 22)
  {
    k, kCheck := kEst, true;
    if 0 <= k <= 22 {
      if !AtLeast(d, k) {
        k := k - 1;
      }
      kCheck := false;
    }
  }

  /** The integer path's conditions give it a decimal exponent from 0 to 14. */
  lemma IntegerCase(d: Double, b: nat, be: int, bits: nat, k: int, kCheck: bool)
    requires Representable(d) && OddParts(d, b, be, bits) && be >= 0 && b > 0 && k <= 14
    requires !AtLeast(d, k + 1) && AtLeast(d, if kCheck then k - 1 else k) && (kCheck ==> k < 0 || k > 22)
    ensures var v := IntegerOf(d);
      Quad(d) == v * Scale() && 0 <= k && Pow(10, k) <= v < 10 * Pow(10, k) && v < 1_000_000_000_000_000
  {
    var v := IntegerOf(d);
    IntegerOfParts(d, b, be, bits);
    IntegerValue(d, b, be, bits);
    PowPositive(2, be);
    MulPositive(b, Pow(2, be));
    PowStep(10, 0);
    IntegerOrder(d, v, 0);
    if k < 0 {
      NotBelowOne(d, v, k + 1);
    } else {
      IntegerOrder(d, v, k);
      IntegerOrder(d, v, k + 1);
      PowStep(10, k);
      PowMonotone(10, k + 1, 15);
      TenTo15();
    }
  }

  lemma TenTo15()
    ensures Pow(10, 15) == 1_000_000_000_000_000
  {
    PowStep(10, 0);
    PowStep(10, 1);
    PowAdd(10, 2, 1);
    PowAdd(10, 3, 3);
    PowAdd(10, 6, 6);
    PowAdd(10, 12, 3);
  }

  /** A number of at least one is at least every power of ten with a negative or zero exponent. */
  lemma NotBelowOne(d: Double, v: nat, k: int)
    requires Representable(d) && Quad(d) == v * Scale() && v >= 1 && k <= 0
    ensures AtLeast(d, k)
  {
    PowStep(10, 0);
    PowPositive(2, PLACES);
    TenPositive(-k);
    MulLe(1, v, Scale());
    MulAtLeast(Quad(d), Ten(-k));
  }

  /** A finite positive double. */
  method PrintFinite(st: Store, table: Pow5Table, w0: Word, w1: Word, kEst: int) returns (s: seq<Digit>, decpt: int)
    requires st.Valid() && table.Valid(st) && FinitePositive(w0, w1)
    requires Representable(FromWords(w0, w1)) && Estimate(FromWords(w0, w1), kEst)
    modifies st, st.free, table
    ensures st.Valid() && table.Valid(st) && Prints(FromWords(w0, w1), s, decpt) && fresh(st.free - old(st.free))
  {
    var d := FromWords(w0, w1);
    FromWordsRepresentable(w0, w1);
    var b, be, bits := D2b(st, w0, w1);
    var k, kCheck := CheckSmallEstimate(d, kEst);
    if be >= 0 && k <= 14 {
      IntegerCase(d, b.Value(), be, bits, k, kCheck);
      s, decpt := PrintInteger(d, IntegerOf(d), k);
      return;
    }
    var special := w1 == 0 && w0 % 0x10_0000 == 0 && ExponentField(w0) >= 2;
    SpecialIsNarrow(w0, w1);
    s, decpt := PrintBignum(st, table, d, b, be, bits, k, kCheck, ExponentField(w0) == 0, special, w1 % 2 == 0);
  }

  lemma SpecialIsNarrow(w0: Word, w1: Word)
    requires FinitePositive(w0, w1)
    ensures var d := FromWords(w0, w1);
      && (Narrow(d) <==> w1 == 0 && w0 % 0x10_0000 == 0 && ExponentField(w0) >= 2)
      && (d.m % 2 == 0 <==> w1 % 2 == 0)
  {
    var h := FromWords(w0, w1).m / BASE;
    assert (h * BASE + w1) % 2 == w1 % 2 by { EvenPart(h, w1); }
  }

  lemma EvenPart(h: nat, w: Word)
    ensures (h * BASE + w) % 2 == w % 2
  {
    assert h * BASE == 2 * (h * 0x8000_0000);
  }

  /** dtoa in mode 0: sign, special values, and the shortest digits of everything else. */
  method Dtoa(st: Store, table: Pow5Table, w: Word, w1: Word, kEst: int) returns (sign: bool, t: Text)
    requires st.Valid() && table.Valid(st)
    requires var w0 := w % 0x8000_0000;
      FinitePositive(w0, w1) ==> Representable(FromWords(w0, w1)) && Estimate(FromWords(w0, w1), kEst)
    modifies st, st.free, table
    ensures st.Valid() && table.Valid(st)
    ensures sign <==> w >= 0x8000_0000
    ensures var w0 := w % 0x8000_0000;
      && (t.Infinity? <==> w0 == 0x7ff0_0000 && w1 == 0)
      && (t.NotANumber? <==> ExponentField(w0) == 0x7ff && !t.Infinity?)
      && (t.Zero? <==> w0 == 0 && w1 == 0)
      && (t.Digits? <==> FinitePositive(w0, w1))
      && (t.Digits? ==> Prints(FromWords(w0, w1), t.s, t.decpt))
  {
    var w0 := w % 0x8000_0000;
    sign := w >= 0x8000_0000;
    if ExponentField(w0) == 0x7ff {
      t := if w1 == 0 && w0 % 0x10_0000 == 0 then Infinity else NotANumber;
    } else if w0 == 0 && w1 == 0 {
      t := Zero;
    } else {
      var s, decpt := PrintFinite(st, table, w0, w1, kEst);
      t := Digits(s, decpt);
    }
  }
}
