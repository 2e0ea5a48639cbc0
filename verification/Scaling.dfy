/** The exponent bookkeeping of dtoa: which powers of 2 and 5 make b / S the double over 10^k. */
module Scaling {
  import opened Powers
  import opened Words
  import opened Doubles
  import opened FreeFormat
  import opened DoubleBits

  /** 10^k <= d. */
  predicate AtLeast(d: Double, k: int)
    requires Representable(d)
  {
    Pow(2, PLACES) * Ten(k) <= Quad(d) * Ten(-k)
  }

  /** k is the decimal exponent of d or one more: what the estimate in dtoa is built to give. */
  predicate Estimate(d: Double, k: int)
    requires Representable(d)
  {
    AtLeast(d, k - 1) && !AtLeast(d, k + 1)
  }

  // The products below are stated on plain numbers that are known to be powers, not on the powers themselves.

  lemma SamePowers(b: nat, x: nat, y: nat, z: nat, v: nat, w: nat, px: nat, py: nat, pz: nat, pv: nat, pw: nat)
    requires x + y + z == v + w
    requires px == Pow(b, x) && py == Pow(b, y) && pz == Pow(b, z) && pv == Pow(b, v) && pw == Pow(b, w)
    ensures px * py * pz == pv * pw
  {
    var pxy, all := Pow(b, x + y), Pow(b, x + y + z);
    assert px * py == pxy by { PowAdd(b, x, y); }
    assert pxy * pz == all by { PowAdd(b, x + y, z); }
    assert pv * pw == all by { PowAdd(b, v, w); }
  }

  /** v = c * 2^x * 5^y over s = 2^s2 * 5^s5 is q = c * 2^z, scaled by PLACES bits, over 10^k. */
  lemma Balance(c: nat, x: nat, y: nat, s2: nat, s5: nat, k: int, z: nat, v: nat, s: nat, q: nat)
    requires x + PLACES + k == s2 + z && y + k == s5
    requires v == c * Pow(2, x) * Pow(5, y) && s == Pow(2, s2) * Pow(5, s5) && q == c * Pow(2, z)
    ensures v * (Scale() * Ten(k)) == s * (q * Ten(-k))
  {
    var px, py, ps2, ps5, pz, sc := Pow(2, x), Pow(5, y), Pow(2, s2), Pow(5, s5), Pow(2, z), Scale();
    if k > 0 {
      var t2, t5 := Pow(2, k), Pow(5, k);
      SamePowers(2, x, PLACES, k, s2, z, px, sc, t2, ps2, pz);
      assert py * t5 == ps5 by { PowAdd(5, y, k); }
      assert Ten(k) == t2 * t5 by { PowTen(k); }
      Shuffle(c, px, py, sc, t2, t5, Ten(k), ps2, ps5, pz, Ten(-k), v, s, q);
    } else {
      var t2, t5 := Pow(2, -k), Pow(5, -k);
      PowStep(10, 0);
      SamePowers(2, s2, z, -k, x, PLACES, ps2, pz, t2, px, sc);
      assert ps5 * t5 == py by { PowAdd(5, s5, -k); }
      assert Ten(-k) == t2 * t5 by { PowTen(-k); }
      Unshuffle(c, px, py, sc, Ten(k), ps2, ps5, pz, t2, t5, Ten(-k), v, s, q);
    }
  }

  lemma Shuffle(c: int, a: int, b: int, p: int, t2: int, t5: int, t: int, s2: int, s5: int, z: int, one: int, v: int, s: int, q: int)
    requires a * p * t2 == s2 * z && b * t5 == s5 && t == t2 * t5 && one == 1
    requires v == c * a * b && s == s2 * s5 && q == c * z
    ensures v * (p * t) == s * (q * one)
  {
    assert (c * a * b) * (p * (t2 * t5)) == c * (a * p * t2) * (b * t5);
    assert (s2 * s5) * (c * z) == c * (s2 * z) * s5;
  }

  lemma Unshuffle(c: int, a: int, b: int, p: int, one: int, s2: int, s5: int, z: int, t2: int, t5: int, t: int, v: int, s: int, q: int)
    requires s2 * z * t2 == a * p && b == s5 * t5 && t == t2 * t5 && one == 1
    requires v == c * a * b && s == s2 * s5 && q == c * z
    ensures v * (p * one) == s * (q * t)
  {
    assert (c * a * b) * p == c * (a * p) * b;
    assert (s2 * s5) * ((c * z) * (t2 * t5)) == c * (s2 * z * t2) * (s5 * t5);
  }

  /** Twice as narrow below a power of two (the special case of dtoa). */
  predicate Narrow(d: Double) {
    d.m == P52 && d.e > -1074
  }

  /** What the exponents must satisfy for the target to be d / 10^k. */
  predicate Balanced(d: Double, be: int, k: int, b2: int, b5: int, s2: int, s5: int, lo2: int, hi2: int) {
    && b2 >= 0 && b5 >= 0 && s2 >= 0 && s5 >= 0 && lo2 >= 0 && hi2 >= 0
    && b2 - s2 == be - k && s5 - b5 == k
    && hi2 - s2 == d.e - 1 - k
    && lo2 == (if Narrow(d) then hi2 - 1 else hi2)
  }

  /** The numbers dtoa forms: b = bm * 2^b2 * 5^b5, S = 2^s2 * 5^s5, half-gaps 2^lo2 * 5^b5 and 2^hi2 * 5^b5. */
  ghost predicate Factored(g: Target, bm: nat, p2: nat, p5: nat, q2: nat, q5: nat, lo: nat, hi: nat) {
    g.b == bm * p2 * p5 && g.S == q2 * q5 && g.lo == lo * p5 && g.hi == hi * p5
  }

  lemma BalancedIsScaled(d: Double, bm: nat, be: int, bits: nat, k: int,
      b2: nat, b5: nat, s2: nat, s5: nat, lo2: nat, hi2: nat, g: Target)
    requires Representable(d) && OddParts(d, bm, be, bits) && g.even == (d.m % 2 == 0)
    requires Balanced(d, be, k, b2, b5, s2, s5, lo2, hi2)
    requires Factored(g, bm, Pow(2, b2), Pow(5, b5), Pow(2, s2), Pow(5, s5), Pow(2, lo2), Pow(2, hi2))
    ensures Scaled(d, k, g)
  {
    var u := d.e + 1074;
    var lz := if Narrow(d) then u else u + 1;
    QuadFromParts(d, bm, be, bits);
    PowStep(2, u);
    Balance(bm, b2, b5, s2, s5, k, be + PLACES, g.b, g.S, Quad(d));
    Balance(1, hi2, b5, s2, s5, k, u + 1, g.hi, g.S, GapUp(d));
    Balance(1, lo2, b5, s2, s5, k, lz, g.lo, g.S, GapDown(d));
  }

  lemma QuadFromParts(d: Double, bm: nat, be: int, bits: nat)
    requires Representable(d) && OddParts(d, bm, be, bits)
    ensures Quad(d) == bm * Pow(2, be + PLACES)
  {
    var u := d.e + 1074;
    PowAdd(2, be - d.e, u);
    PowAdd(2, be + 1074, 2);
    PowersOfTwo();
    QuadOfOdd(bm, Pow(2, be - d.e), Pow(2, u), Pow(2, be + 1074));
  }

  lemma QuadOfOdd(bm: int, p: int, u: int, q: int)
    requires p * u == q
    ensures 4 * (bm * p) * u == bm * (q * 4)
  {
    assert 4 * (bm * p) * u == 4 * bm * (p * u);
  }

  /** The order of b and S is the order of d and 10^k. */
  lemma OrderOfScaled(d: Double, k: int, g: Target)
    requires Representable(d) && Scaled(d, k, g) && g.S > 0
    ensures g.S <= g.b <==> AtLeast(d, k)
  {
    var w, t := Scale() * Ten(k), Ten(-k);
    PowPositive(2, PLACES);
    TenPositive(k);
    MulPositive(Scale(), Ten(k));
    MulCancelOrder(g.b, g.S, w);
    MulCancelOrder(Quad(d) * t, w, g.S);
  }

  lemma TenStep(k: int)
    ensures if k >= 1 then Ten(k) == 10 * Ten(k - 1) && Ten(1 - k) == 1 && Ten(-k) == 1
            else Ten(k - 1) == 1 && Ten(k) == 1 && Ten(1 - k) == 10 * Ten(-k)
  {
    PowStep(10, 0);
    if k >= 1 {
      PowStep(10, k - 1);
    } else {
      PowStep(10, -k);
    }
  }

  /** One less for k is one more decimal digit in b and the gaps. */
  lemma ScaledDown(d: Double, k: int, g: Target)
    requires Representable(d) && Scaled(d, k, g)
    ensures Scaled(d, k - 1, Target(10 * g.b, g.S, 10 * g.lo, 10 * g.hi, g.even))
  {
    TenStep(k);
    var t, t1, u, u1 := Ten(k), Ten(k - 1), Ten(-k), Ten(1 - k);
    OneDown(g.b, g.S, Quad(d), Scale(), t, t1, u, u1);
    OneDown(g.lo, g.S, GapDown(d), Scale(), t, t1, u, u1);
    OneDown(g.hi, g.S, GapUp(d), Scale(), t, t1, u, u1);
    assert -(k - 1) == 1 - k;
  }

  lemma OneDown(b: int, s: int, x: int, sc: int, t: int, t1: int, u: int, u1: int)
    requires b * (sc * t) == s * (x * u)
    requires (t == 10 * t1 && u == u1) || (t == t1 && u1 == 10 * u)
    ensures (10 * b) * (sc * t1) == s * (x * u1)
  {
    if t == 10 * t1 && u == u1 {
      assert (10 * b) * (sc * t1) == b * (sc * (10 * t1));
    } else {
      assert s * (x * (10 * u)) == 10 * (s * (x * u));
      assert (10 * b) * (sc * t) == 10 * (b * (sc * t));
    }
  }

  /** One more for k is a divisor ten times as large. */
  lemma ScaledUp(d: Double, k: int, g: Target)
    requires Representable(d) && Scaled(d, k, g)
    ensures Scaled(d, k + 1, Target(g.b, 10 * g.S, g.lo, g.hi, g.even))
  {
    TenStep(k + 1);
    var t, t1, u, u1 := Ten(k), Ten(k + 1), Ten(-k), Ten(-(k + 1));
    OneUp(g.b, g.S, Quad(d), Scale(), t, t1, u, u1);
    OneUp(g.lo, g.S, GapDown(d), Scale(), t, t1, u, u1);
    OneUp(g.hi, g.S, GapUp(d), Scale(), t, t1, u, u1);
  }

  lemma OneUp(b: int, s: int, x: int, sc: int, t: int, t1: int, u: int, u1: int)
    requires b * (sc * t) == s * (x * u)
    requires (t1 == 10 * t && u == u1) || (t == t1 && u == 10 * u1)
    ensures b * (sc * t1) == (10 * s) * (x * u1)
  {
    if t1 == 10 * t && u == u1 {
      assert b * (sc * (10 * t)) == 10 * (b * (sc * t));
      assert (10 * s) * (x * u) == 10 * (s * (x * u));
    } else {
      assert (10 * s) * (x * u1) == s * (x * (10 * u1));
    }
  }

  /** b and S of a target in its decade: S <= b < 10 S. */
  lemma DecadeOfScaled(d: Double, k: int, g: Target)
    requires Representable(d) && Scaled(d, k, g) && g.S > 0
    ensures (g.S <= g.b <==> AtLeast(d, k)) && (g.b < 10 * g.S <==> !AtLeast(d, k + 1))
  {
    OrderOfScaled(d, k, g);
    ScaledUp(d, k, g);
    OrderOfScaled(d, k + 1, Target(g.b, 10 * g.S, g.lo, g.hi, g.even));
  }

  /** The lower half-gap is no more than the value. */
  lemma ScaledIsWellFormed(d: Double, k: int, g: Target)
    requires Representable(d) && d.m > 0 && Scaled(d, k, g) && g.S > 0 && 0 < g.lo <= g.hi
    ensures WellFormed(g)
  {
    PowPositive(2, PLACES);
    TenPositive(k);
    GapBelowNumber(d);
    hide Pow, PowFrom, Ten, Quad, GapDown;
    MulPositive(Scale(), Ten(k));
    GapKeepsOrder(g.b, g.lo, g.S, Scale() * Ten(k), Quad(d), GapDown(d), Ten(-k));
  }

  lemma GapBelowNumber(d: Double)
    requires Representable(d) && d.m > 0
    ensures GapDown(d) <= Quad(d)
  {
    QuadFactors(d);
    hide Pow, PowFrom, Quad;
    MulLe(1, d.m, Ulp(d));
  }

  lemma GapKeepsOrder(b: nat, lo: nat, s: nat, w: nat, q: nat, gap: nat, t: nat)
    requires b * w == s * (q * t) && lo * w == s * (gap * t) && gap <= q && w > 0
    ensures lo <= b
  {
    MulLe(gap, q, t);
    MulLe(gap * t, q * t, s);
    MulCancelOrder(b, lo, w);
  }

  /** Estimates stay small: a double lies between 2^-1074 and 2^1024. */
  lemma EstimateIsSmall(d: Double, k: int)
    requires Representable(d) && d.m > 0 && d.e <= 971
    ensures AtLeast(d, k) ==> k < 0x200
    ensures !AtLeast(d, k) ==> -0x200 < k
  {
    if k >= 0x200 {
      BelowTheTop(d);
      PowTenAbovePowEight(k);
      PowMonotone(2, 1024, 3 * k);
      PowAdd(2, PLACES, 1024);
      PowPositive(2, PLACES);
      MulLe(Pow(2, 1024), Pow(10, k), Pow(2, PLACES));
    } else if k <= -0x200 {
      PowTenAbovePowEight(-k);
      PowMonotone(2, PLACES, -3 * k);
      UlpPositive(d);
      QuadFactors(d);
      MulPositive(d.m, Ulp(d));
      MulLe(1, Quad(d), Pow(10, -k));
    }
  }

  lemma BelowTheTop(d: Double)
    requires Representable(d) && d.e <= 971
    ensures Quad(d) < Pow(2, PLACES + 1024)
  {
    PowersOfTwo();
    PowMonotone(2, d.e + 1074, 2045);
    PowAdd(2, 53, 2045);
    PowAdd(2, 2, 2098);
    QuadFactors(d);
    UlpPositive(d);
    MulLt(d.m, P53, Ulp(d));
    MulLe(Ulp(d), Pow(2, 2045), P53);
  }

  /** A value and its upper half-gap make a power of ten only for doubles whose gap is tiny beside it. */
  lemma ScaledHasNoTieAtTen(d: Double, k: int, g: Target)
    requires Representable(d) && Scaled(d, k, g) && WellFormed(g)
    ensures g.even && g.b + g.hi == 10 * g.S ==> 2 * g.hi < g.S
  {
    if g.b + g.hi == 10 * g.S && 2 * g.hi >= g.S {
      var w, t := Scale() * Ten(k), Ten(-k);
      PowPositive(2, PLACES);
      TenPositive(k);
      TenPositive(-k);
      MulPositive(Scale(), Ten(k));
      ScaledEnd(g.b, w, g.S, Quad(d), t, g.hi, GapUp(d));
      TieInUnits(g.b + g.hi, g.hi, w, g.S, (Quad(d) + GapUp(d)) * t, GapUp(d) * t);
      UlpPositive(d);
      QuadFactors(d);
      SmallMantissa(d.m, Ulp(d), t, w);
      assert Ulp(d) == 1;
      OddOverTen(d.m, k);
    }
  }

  lemma TieInUnits(sum: int, h: int, w: int, s: int, x: int, y: int)
    requires sum == 10 * s && 2 * h >= s && sum * w == s * x && h * w == s * y && s > 0 && w > 0
    ensures x == 10 * w && 2 * y >= w
  {
    assert (10 * s) * w == (10 * w) * s;
    MulCancelOrder(x, 10 * w, s);
    MulLe(s, 2 * h, w);
    assert (2 * h) * w == (2 * y) * s;
    MulCancelOrder(2 * y, w, s);
  }

  lemma SmallMantissa(m: nat, u: nat, t: nat, w: nat)
    requires (4 * (m * u) + 2 * u) * t == 10 * w && 2 * ((2 * u) * t) >= w && u > 0 && t > 0
    ensures m <= 9
  {
    MulPositive(u, t);
    InUnits(m, u, t);
    if m >= 10 {
      MulLe(42, 4 * m + 2, u * t);
    }
  }

  lemma InUnits(m: int, u: int, t: int)
    ensures (4 * (m * u) + 2 * u) * t == (4 * m + 2) * (u * t) && (2 * u) * t == 2 * (u * t)
  {
    assert 4 * (m * u) + 2 * u == (4 * m + 2) * u;
  }

  lemma OddOverTen(m: nat, k: int)
    requires m <= 9
    ensures (4 * m + 2) * Ten(-k) != 10 * (Pow(2, PLACES) * Ten(k))
  {
    TenPositive(k);
    BigScale();
    if k >= 0 {
      MulLe(1, Ten(k), Pow(2, PLACES));
    } else {
      PowTwoNotMultipleOfFive(PLACES);
      PowStep(10, -k - 1);
      TenDivides(4 * m + 2, Pow(10, -k - 1), Pow(2, PLACES));
      if k < -1 {
        PowStep(10, -k - 2);
        FiveDivides(4 * m + 2, Pow(10, -k - 2));
      }
    }
  }

  lemma BigScale()
    ensures Pow(2, PLACES) >= 1024
  {
    PowMonotone(2, 10, PLACES);
    PowersOfTwo();
  }

  lemma TenDivides(c: int, p: int, s: int)
    ensures c * (10 * p) == 10 * (s * 1) ==> c * p == s
  {
    assert c * (10 * p) == 10 * (c * p);
  }

  lemma FiveDivides(c: nat, p: nat)
    ensures (c * (10 * p)) % 5 == 0
  {
    assert c * (10 * p) == 5 * (2 * (c * p));
  }
}
