/**
 * When strtod's correction loop stops: the decision it takes on a candidate from exact comparisons,
 * and exactly which candidates it decides rightly (dtoa.cpp).
 */
module Correction {
  import opened Powers
  import opened Words
  import opened Doubles
  import opened DoubleBits
  import opened FreeFormat
  import opened Scaling

  /** The loop either settles on a double or goes on with a refined candidate. */
  datatype Reading = Settled(d: Double) | Refine

  /** The largest double below one whose mantissa is a power of two. */
  function DropDown(w0: Word): Double
    requires w0 < 0x8000_0000 && ExponentField(w0) > 0
  {
    FromWords((ExponentField(w0) - 1) * 0x10_0000 + 0xf_ffff, 0xffff_ffff)
  }

  predicate MantissaZero(w0: Word, w1: Word) {
    w1 == 0 && w0 % 0x10_0000 == 0
  }

  predicate MantissaOnes(w0: Word, w1: Word) {
    w1 == 0xffff_ffff && w0 % 0x10_0000 == 0xf_ffff
  }

  /**
   * The decision: below says that the candidate is below the decimal, i compares the error with half an
   * ulp, and twice compares twice the error with it.
   */
  function Decide(w0: Word, w1: Word, below: bool, i: int, exact: bool, twice: int): Reading
    requires FinitePositive(w0, w1)
  {
    var d := FromWords(w0, w1);
    if i < 0 then
      if below || !MantissaZero(w0, w1) || ExponentField(w0) <= 107 || exact || twice <= 0 then Settled(d)
      else Settled(DropDown(w0))
    else if i == 0 then
      if below && MantissaOnes(w0, w1) then Settled(FromWords((ExponentField(w0) + 1) * 0x10_0000, 0))
      else if !below && MantissaZero(w0, w1) then Settled(DropDown(w0))
      else if w1 % 2 == 0 then Settled(d)
      else if below then Settled(Double(d.m + 1, d.e))
      else Settled(Double(d.m - 1, d.e))
    else Refine
  }

  /** The decision on the decimal n / den (n scaled), with the comparisons made exactly. */
  ghost function Verdict(w0: Word, w1: Word, n: nat, den: nat): Reading
    requires FinitePositive(w0, w1) && Representable(FromWords(w0, w1))
  {
    var d := FromWords(w0, w1);
    var miss, half := Distance(n, den, d), den * GapUp(d);
    Decide(w0, w1, n > den * Quad(d), miss - half, miss == 0, 2 * miss - half)
  }

  /** The number with exponent field f and mantissa bits h, w1. */
  function Assembled(f: nat, h: nat, w1: nat): Double {
    if f == 0 then Double(h * BASE + w1, -1074) else Double((0x10_0000 + h) * BASE + w1, f - 1075)
  }

  lemma Assemble(f: nat, h: nat, w1: Word)
    requires f <= 0x7ff && h < 0x10_0000
    ensures var w0 := f * 0x10_0000 + h;
      && w0 < 0x8000_0000 && ExponentField(w0) == f && w0 % 0x10_0000 == h
      && FromWords(w0, w1) == Assembled(f, h, w1)
  {}

  /** What the fields say about the double. */
  lemma Fields(f: nat, h: nat, w1: Word)
    requires f < 0x7ff && h < 0x10_0000 && (f > 0 || h > 0 || w1 > 0)
    ensures var d := Assembled(f, h, w1);
      && Representable(d) && d.m > 0 && d.m % 2 == w1 % 2
      && (h == 0 && w1 == 0 <==> d.m == P52)
      && (d.m == P52 ==> f > 0 && (d.e > -1074 <==> f > 1) && Assembled(f - 1, 0xf_ffff, 0xffff_ffff) == Previous(d))
      && (h == 0xf_ffff && w1 == 0xffff_ffff ==> Assembled(f + 1, 0, 0) == Next(d))
      && (d.m == P53 - 1 || (d.m == P52 - 1 && d.e == -1074) ==> h == 0xf_ffff && w1 == 0xffff_ffff)
  {
    var g := if f == 0 then h else 0x10_0000 + h;
    assert (g * BASE + w1) % 2 == w1 % 2 by {
      assert g * BASE == 2 * (g * 0x8000_0000);
    }
  }

  /** What the bit patterns say about the double. */
  lemma Patterns(w0: Word, w1: Word)
    requires FinitePositive(w0, w1)
    ensures var d := FromWords(w0, w1);
      && Representable(d) && d.m > 0
      && (MantissaZero(w0, w1) <==> d.m == P52) && (d.m == P52 ==> ExponentField(w0) > 0)
      && (d.m == P52 ==> (d.e > -1074 <==> ExponentField(w0) > 1) && DropDown(w0) == Previous(d))
      && (MantissaOnes(w0, w1) ==> FromWords((ExponentField(w0) + 1) * 0x10_0000, 0) == Next(d))
      && (d.m == P53 - 1 || (d.m == P52 - 1 && d.e == -1074) ==> MantissaOnes(w0, w1))
      && (d.m % 2 == w1 % 2)
  {
    var f, h := ExponentField(w0), w0 % 0x10_0000;
    assert w0 == f * 0x10_0000 + h && f < 0x7ff;
    hide ExponentField, FromWords, Representable, Previous, Next, Assembled;
    Assemble(f, h, w1);
    Fields(f, h, w1);
    Assemble(f + 1, 0, 0);
    if f > 0 {
      Assemble(f - 1, 0xf_ffff, 0xffff_ffff);
    }
  }

  /** In units of the gaps: the ends of the neighbours' intervals. */
  lemma NeighbourEnds(d: Double)
    requires Representable(d) && d.m > 0
    ensures Representable(Next(d)) && Quad(Next(d)) == Quad(d) + 2 * GapUp(d) && GapDown(Next(d)) == GapUp(d)
    ensures Representable(Previous(d)) && Quad(Previous(d)) == Quad(d) - 2 * GapDown(d) && GapUp(Previous(d)) == GapDown(d)
    ensures if Narrow(d) then GapUp(d) == 2 * GapDown(d) else GapUp(d) == GapDown(d)
    ensures GapDown(d) > 0
  {
    NextIsTwoGapsUp(d);
    PreviousIsTwoGapsDown(d);
    UlpPositive(d);
    PowStep(2, d.e + 1074);
    if Narrow(d) {
      PowStep(2, d.e + 1073);
    }
  }

  /** A decimal at the upper end of a double's interval belongs to the even one of the two neighbours. */
  lemma UpperTie(n: nat, den: nat, d: Double)
    requires Representable(d) && d.m > 0 && den > 0 && n == den * Quad(d) + den * GapUp(d)
    ensures RoundsTo(n, den, d) <==> d.m % 2 == 0
    ensures Representable(Next(d)) && (RoundsTo(n, den, Next(d)) <==> Next(d).m % 2 == 0)
  {
    hide RoundsTo;
    NeighbourEnds(d);
    NeighbourEnds(Next(d));
    EndProducts(den, Quad(d), GapUp(d), GapDown(d));
    EndProducts(den, Quad(Next(d)), GapUp(Next(d)), GapDown(Next(d)));
    RoundsToIffInInterval(n, den, d);
    RoundsToIffInInterval(n, den, Next(d));
  }

  /** The same at the lower end, where the neighbour may be zero. */
  lemma LowerTie(n: nat, den: nat, d: Double)
    requires Representable(d) && d.m > 0 && den > 0 && n == den * Quad(d) - den * GapDown(d)
    ensures RoundsTo(n, den, d) <==> d.m % 2 == 0
    ensures Representable(Previous(d)) && (Previous(d).m % 2 == 0 ==> RoundsTo(n, den, Previous(d)))
    ensures Previous(d).m % 2 == 1 ==> !RoundsTo(n, den, Previous(d))
  {
    hide RoundsTo;
    NeighbourEnds(d);
    var r := Previous(d);
    UlpPositive(r);
    EndProducts(den, Quad(d), GapUp(d), GapDown(d));
    EndProducts(den, Quad(r), GapUp(r), GapDown(r));
    RoundsToIffInInterval(n, den, d);
    if r.m % 2 == 0 {
      InsideRounds(n, den, r);
    } else {
      RoundsToIffInInterval(n, den, r);
    }
  }

  lemma EndProducts(den: nat, q: int, up: int, down: int)
    requires den > 0 && up > 0 && down > 0
    ensures den * (q + up) == den * q + den * up && den * (q - down) == den * q - den * down
    ensures den * (q + 2 * up) == den * q + 2 * (den * up) && den * (q - 2 * down) == den * q - 2 * (den * down)
    ensures den * up > 0 && den * down > 0
  {
    MulPositive(den, up);
    MulPositive(den, down);
  }

  /** Strictly inside the interval, whatever the parity. */
  lemma StrictlyInside(n: nat, den: nat, d: Double)
    requires Representable(d) && d.m > 0 && den > 0
    requires den * Quad(d) - den * GapDown(d) < n < den * Quad(d) + den * GapUp(d)
    ensures RoundsTo(n, den, d)
  {
    UlpPositive(d);
    EndProducts(den, Quad(d), GapUp(d), GapDown(d));
    InsideRounds(n, den, d);
  }

  lemma Outside(n: nat, den: nat, d: Double)
    requires Representable(d) && d.m > 0 && den > 0
    requires n < den * Quad(d) - den * GapDown(d)
    ensures !RoundsTo(n, den, d)
  {
    UlpPositive(d);
    EndProducts(den, Quad(d), GapUp(d), GapDown(d));
    RoundsToIffInInterval(n, den, d);
  }

  /** Below a power of two by between one and two lower gaps, the next double down is the one. */
  lemma BelowPowerOfTwo(n: nat, den: nat, d: Double)
    requires Representable(d) && Narrow(d) && den > 0
    requires den * Quad(d) - den * GapUp(d) <= n < den * Quad(d) - den * GapDown(d)
    ensures Representable(Previous(d)) && RoundsTo(n, den, Previous(d))
  {
    hide RoundsTo, InInterval;
    NeighbourEnds(d);
    var r := Previous(d);
    NeighbourEnds(r);
    EndProducts(den, Quad(d), GapUp(d), GapDown(d));
    EndProducts(den, Quad(r), GapUp(r), GapDown(r));
    assert den * GapUp(d) == 2 * (den * GapDown(d));
    StrictlyInside(n, den, r);
  }

  /** The guard on small exponents misses these: a power of two too far above the decimal, or a tie below the least normal. */
  ghost predicate Misjudged(w0: Word, w1: Word, n: nat, den: nat)
    requires FinitePositive(w0, w1) && Representable(FromWords(w0, w1))
  {
    var d := FromWords(w0, w1);
    && MantissaZero(w0, w1) && ExponentField(w0) <= 107
    && if ExponentField(w0) > 1 then den * Quad(d) - den * GapUp(d) < n < den * Quad(d) - den * GapDown(d)
       else n == den * Quad(d) - den * GapDown(d)
  }

  /** A settled error below half an ulp. */
  lemma SettlesBelowHalf(w0: Word, w1: Word, n: nat, den: nat)
    requires FinitePositive(w0, w1) && den > 0 && Representable(FromWords(w0, w1))
    requires var d := FromWords(w0, w1); Distance(n, den, d) < den * GapUp(d)
    ensures Verdict(w0, w1, n, den).Settled?
    ensures var r := Verdict(w0, w1, n, den).d; Representable(r) && (RoundsTo(n, den, r) <==> !Misjudged(w0, w1, n, den))
  {
    hide RoundsTo, InInterval, FromWords, FinitePositive, Representable, Quad, GapUp, GapDown, Ulp;
    var d := FromWords(w0, w1);
    Patterns(w0, w1);
    NeighbourEnds(d);
    EndProducts(den, Quad(d), GapUp(d), GapDown(d));
    if Narrow(d) {
      assert den * GapUp(d) == 2 * (den * GapDown(d));
      if n > den * Quad(d) - den * GapDown(d) {
        StrictlyInside(n, den, d);
      } else if n == den * Quad(d) - den * GapDown(d) {
        LowerTie(n, den, d);
      } else {
        BelowPowerOfTwo(n, den, d);
        Outside(n, den, d);
      }
    } else {
      StrictlyInside(n, den, d);
    }
  }

  /** A settled tie. */
  lemma SettlesTie(w0: Word, w1: Word, n: nat, den: nat)
    requires FinitePositive(w0, w1) && den > 0 && Representable(FromWords(w0, w1))
    requires var d := FromWords(w0, w1); Distance(n, den, d) == den * GapUp(d)
    ensures Verdict(w0, w1, n, den).Settled?
    ensures var r := Verdict(w0, w1, n, den).d; Representable(r) && (RoundsTo(n, den, r) <==> !Misjudged(w0, w1, n, den))
  {
    hide RoundsTo, InInterval, FromWords, FinitePositive, Quad, GapUp, GapDown, Ulp;
    var d := FromWords(w0, w1);
    Patterns(w0, w1);
    NeighbourEnds(d);
    EndProducts(den, Quad(d), GapUp(d), GapDown(d));
    if n > den * Quad(d) {
      UpperTie(n, den, d);
    } else if Narrow(d) {
      BelowPowerOfTwo(n, den, d);
    } else {
      LowerTie(n, den, d);
    }
  }

  /** The loop settles exactly when the error is at most half an ulp, and rightly unless the guard misses the case. */
  lemma VerdictIsRight(w0: Word, w1: Word, n: nat, den: nat)
    requires FinitePositive(w0, w1) && den > 0 && Representable(FromWords(w0, w1))
    ensures var d, r := FromWords(w0, w1), Verdict(w0, w1, n, den);
      && (r.Settled? <==> Distance(n, den, d) <= den * GapUp(d))
      && (r.Settled? ==> Representable(r.d) && (RoundsTo(n, den, r.d) <==> !Misjudged(w0, w1, n, den)))
  {
    hide RoundsTo, Misjudged, FromWords;
    var d := FromWords(w0, w1);
    if Distance(n, den, d) < den * GapUp(d) {
      SettlesBelowHalf(w0, w1, n, den);
    } else if Distance(n, den, d) == den * GapUp(d) {
      SettlesTie(w0, w1, n, den);
    }
  }

  /** The verdict on the decimal v * 10^e. */
  ghost function Read(w0: Word, w1: Word, v: nat, e: int): Reading
    requires FinitePositive(w0, w1) && Representable(FromWords(w0, w1))
  {
    Verdict(w0, w1, v * Ten(e) * Scale(), Ten(-e))
  }

  /** Every decimal the candidate settles is read as the double nearest to it. */
  ghost predicate SettlesRight(w0: Word, w1: Word)
    requires FinitePositive(w0, w1) && Representable(FromWords(w0, w1))
  {
    forall v: nat, e: int ::
      var r := Read(w0, w1, v, e);
      r.Settled? ==> Representable(r.d) && ReadsBack(r.d, v, e)
  }

  /** A dyadic fraction x / 4 of a unit as a decimal. */
  lemma QuarterAsDecimal(x: nat)
    ensures 4 * ((x * Pow(5, PLACES + 2)) * Ten(-(PLACES + 2)) * Scale()) == x * Ten(PLACES + 2)
  {
    var p5, p2, s := Pow(5, PLACES + 2), Pow(2, PLACES + 2), Scale();
    PowTen(PLACES + 2);
    PowAdd(2, PLACES, 2);
    PowersOfTwo();
    assert Ten(-(PLACES + 2)) == 1;
    FourTimes(x, p5, s, p2);
  }

  lemma FourTimes(x: int, p5: int, s: int, p2: int)
    requires p2 == s * 4
    ensures 4 * ((x * p5) * 1 * s) == x * (p2 * p5)
  {
    assert x * (p2 * p5) == (x * p5) * (s * 4);
  }

  /** A power of two in reach of the guard is wrong about some decimal. */
  lemma SmallPowerOfTwoMisjudges(w0: Word, w1: Word) returns (v: nat, e: int)
    requires FinitePositive(w0, w1) && Representable(FromWords(w0, w1))
    requires MantissaZero(w0, w1) && ExponentField(w0) <= 107
    ensures var r := Read(w0, w1, v, e); r.Settled? && Representable(r.d) && !ReadsBack(r.d, v, e)
  {
    hide RoundsTo, InInterval, FromWords, Representable, Quad, GapUp, GapDown, Ulp, Pow, PowFrom, Verdict, Scale;
    var d := FromWords(w0, w1);
    Patterns(w0, w1);
    NeighbourEnds(d);
    var q, g := Quad(d), GapDown(d);
    PreviousIsTwoGapsDown(d);
    var x: nat := if Narrow(d) then 4 * q - 6 * g else 4 * q - 4 * g;
    v, e := x * Pow(5, PLACES + 2), -(PLACES + 2);
    var n, den := v * Ten(e) * Scale(), Ten(-e);
    QuarterAsDecimal(x);
    TenPositive(-e);
    Quarters(n, den, q, g, x, GapUp(d));
    EndProducts(den, q, GapUp(d), g);
    assert Misjudged(w0, w1, n, den);
    VerdictIsRight(w0, w1, n, den);
  }

  lemma Quarters(n: int, den: int, q: int, g: int, x: int, up: int)
    requires 4 * n == x * den
    ensures x == 4 * q - 6 * g ==> 4 * n == 4 * (den * q) - 6 * (den * g)
    ensures x == 4 * q - 4 * g ==> n == den * q - den * g
    ensures up == 2 * g ==> den * up == 2 * (den * g)
  {
    if x == 4 * q - 6 * g {
      assert (4 * q - 6 * g) * den == 4 * (q * den) - 6 * (g * den);
    }
    if x == 4 * q - 4 * g {
      assert (4 * q - 4 * g) * den == 4 * (q * den) - 4 * (g * den);
    }
  }

  /** Which candidates settle every decimal rightly: all but the powers of two the guard takes for small. */
  lemma SettlesRightIff(w0: Word, w1: Word)
    requires FinitePositive(w0, w1) && Representable(FromWords(w0, w1))
    ensures SettlesRight(w0, w1) <==> !(MantissaZero(w0, w1) && ExponentField(w0) <= 107)
  {
    hide RoundsTo, FromWords, Representable, Verdict, Scale;
    if MantissaZero(w0, w1) && ExponentField(w0) <= 107 {
      var v, e := SmallPowerOfTwoMisjudges(w0, w1);
    } else {
      forall v: nat, e: int
        ensures var r := Read(w0, w1, v, e); r.Settled? ==> Representable(r.d) && ReadsBack(r.d, v, e)
      {
        TenPositive(-e);
        VerdictIsRight(w0, w1, v * Ten(e) * Scale(), Ten(-e));
      }
    }
  }

  /** A double with an exponent field up to 107 is far below 10^-256. */
  lemma SmallFieldIsTiny(w0: Word, w1: Word, n: int)
    requires FinitePositive(w0, w1) && Representable(FromWords(w0, w1)) && ExponentField(w0) <= 107 && 0 <= n <= 256
    ensures !AtLeast(FromWords(w0, w1), -n)
  {
    var d := FromWords(w0, w1);
    var u, p := d.e + 1074, 10 * (n / 3 + 1);
    PowTenBelow(n);
    PowAdd(2, u, 55);
    PowAdd(2, u + 55, p);
    PowMonotone(2, u + 55 + p, PLACES - 1);
    PowStep(2, PLACES - 1);
    PowPositive(2, PLACES - 1);
    PowStep(10, 0);
    PowersOfTwo();
    PowAdd(2, 53, 2);
    assert Ten(n) == Pow(10, n) && (n > 0 ==> Ten(-n) == 1);
    hide Pow, PowFrom;
    TinyProduct(d.m, Ulp(d), Pow(2, 55), Ten(n), Pow(2, p), Pow(2, u + 55), Pow(2, u + 55 + p));
  }

  lemma TinyProduct(m: nat, u: nat, s: nat, t: nat, p: nat, us: nat, usp: nat)
    requires 4 * m <= s && t <= p && us == u * s && usp == us * p
    ensures 4 * m * u * t <= usp
  {
    MulLe(4 * m, s, u);
    MulLe(t, p, us);
    MulLe(4 * m * u, us, t);
  }

  /** Candidates of at least 10^-256, as unscaled ones are, lie above the guard and settle every decimal rightly. */
  lemma AboveTheGuard(w0: Word, w1: Word)
    requires FinitePositive(w0, w1) && Representable(FromWords(w0, w1)) && AtLeast(FromWords(w0, w1), -256)
    ensures ExponentField(w0) > 107 && SettlesRight(w0, w1)
  {
    hide AtLeast, SettlesRight, FromWords, Representable, Pow, PowFrom;
    if ExponentField(w0) <= 107 {
      SmallFieldIsTiny(w0, w1, 256);
    }
    SettlesRightIff(w0, w1);
  }
}
