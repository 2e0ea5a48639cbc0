/**
 * Finite doubles as integers, reading a decimal back to the nearest one, and the interval of
 * decimals that do (IEEE 754-2008 section 4.3.1, round half to even).
 */
module Doubles {
  import opened Powers

  const P52: nat := 0x10_0000_0000_0000
  const P53: nat := 0x20_0000_0000_0000

  /** The number m * 2^e. */
  datatype Double = Double(m: nat, e: int)

  /** Zero, subnormals and normals; exponents have no upper end, so the first value past the
      largest finite double stands for the overflow threshold. */
  predicate Representable(d: Double) {
    d.m < P53 && d.e >= -1074 && (d.m >= P52 || d.e == -1074)
  }

  /** One ulp, in units of 2^-1074. */
  function Ulp(d: Double): nat
    requires Representable(d)
  {
    Pow(2, d.e + 1074)
  }

  /** Four times the value, in units of 2^-1074. */
  function Quad(d: Double): nat
    requires Representable(d)
  {
    4 * d.m * Ulp(d)
  }

  /** Four times the distance to the middle of the gap above d... */
  function GapUp(d: Double): nat
    requires Representable(d)
  {
    2 * Ulp(d)
  }

  /** ... and below d, where a power of two has a narrower gap. */
  function GapDown(d: Double): nat
    requires Representable(d)
  {
    if d.m == P52 && d.e > -1074 then Ulp(d) else 2 * Ulp(d)
  }

  /** Binary places kept by Quad: 1074 and two more. */
  const PLACES: nat := 1076

  /** Quad's scale: the decimal num / den is num * Scale() / den in its units. */
  ghost function Scale(): nat {
    Pow(2, PLACES)
  }

  /** den times the distance between the decimal n / den (n already scaled) and d. */
  ghost function Distance(n: nat, den: nat, d: Double): nat
    requires Representable(d)
  {
    if n >= den * Quad(d) then n - den * Quad(d) else den * Quad(d) - n
  }

  /** Rounding n / den to nearest, ties to even, gives d. */
  ghost predicate RoundsTo(n: nat, den: nat, d: Double)
    requires Representable(d)
  {
    forall r :: Representable(r) && r != d ==>
      Distance(n, den, d) < Distance(n, den, r) || (Distance(n, den, d) == Distance(n, den, r) && d.m % 2 == 0)
  }

  /** n / den lies between the midpoints on either side of d, an endpoint counting only when d is even. */
  ghost predicate InInterval(n: nat, den: nat, d: Double)
    requires Representable(d)
  {
    && den * (Quad(d) - GapDown(d)) <= n <= den * (Quad(d) + GapUp(d))
    && (d.m % 2 == 1 ==> den * (Quad(d) - GapDown(d)) < n < den * (Quad(d) + GapUp(d)))
  }

  function Next(d: Double): Double {
    if d.m + 1 < P53 then Double(d.m + 1, d.e) else Double(P52, d.e + 1)
  }

  function Previous(d: Double): Double
    requires d.m > 0
  {
    if d.m == P52 && d.e > -1074 then Double(P53 - 1, d.e - 1) else Double(d.m - 1, d.e)
  }

  lemma NextIsTwoGapsUp(d: Double)
    requires Representable(d)
    ensures Representable(Next(d)) && Quad(Next(d)) == Quad(d) + 2 * GapUp(d)
  {
    PowStep(2, d.e + 1074);
  }

  lemma PreviousIsTwoGapsDown(d: Double)
    requires Representable(d) && d.m > 0
    ensures Representable(Previous(d)) && Quad(Previous(d)) == Quad(d) - 2 * GapDown(d)
  {
    if d.m == P52 && d.e > -1074 {
      PowStep(2, d.e + 1073);
    }
  }

  lemma HalfUlp(d: Double, r: Double)
    requires Representable(d) && Representable(r) && r.e < d.e
    ensures 2 * Ulp(r) <= Ulp(d)
  {
    PowStep(2, r.e + 1074);
    PowMonotone(2, r.e + 1075, d.e + 1074);
  }

  /** The arithmetic of a smaller exponent: units u and v with 2u <= v. */
  lemma SmallerUnit(dm: nat, v: nat, rm: nat, u: nat)
    requires 2 * u <= v && rm < P53 && P52 <= dm
    ensures 4 * (rm * u) <= 4 * (dm * v) - (if dm == P52 then 2 * v else 4 * v)
    ensures 4 * (dm * v) >= 4 * (rm * u) + 4 * u
  {
    assert rm * u <= (P53 - 1) * u by { MulLe(rm, P53 - 1, u); }
    if dm > P52 {
      assert (P52 + 1) * v <= dm * v by { MulLe(P52 + 1, dm, v); }
    }
  }

  lemma QuadFactors(d: Double)
    requires Representable(d)
    ensures Quad(d) == 4 * (d.m * Ulp(d))
  {
    MulAssoc(4, d.m, Ulp(d));
  }

  /** A smaller exponent keeps a double below every normal one. */
  lemma SmallerExponent(d: Double, r: Double)
    requires Representable(d) && Representable(r) && r.e < d.e
    ensures Quad(r) <= Quad(d) - 2 * GapDown(d) && Quad(d) >= Quad(r) + 2 * GapUp(r)
  {
    HalfUlp(d, r);
    SmallerUnit(d.m, Ulp(d), r.m, Ulp(r));
    QuadFactors(d);
    QuadFactors(r);
  }

  /** No representable number lies strictly between d and its neighbours. */
  lemma NeighboursAreAdjacent(d: Double, r: Double)
    requires Representable(d) && Representable(r) && r != d
    ensures Quad(r) >= Quad(d) + 2 * GapUp(d) || Quad(r) <= Quad(d) - 2 * GapDown(d)
  {
    if r.e < d.e {
      SmallerExponent(d, r);
    } else if r.e > d.e {
      SmallerExponent(r, d);
    } else {
      QuadFactors(d);
      QuadFactors(r);
      SameUnit(d.m, r.m, Ulp(d));
    }
  }

  lemma SameUnit(m: nat, n: nat, u: nat)
    requires m != n
    ensures if n > m then n * u >= m * u + u else n * u <= m * u - u
  {
    if n > m {
      MulLe(m + 1, n, u);
      assert (m + 1) * u == m * u + u;
    } else {
      MulLe(n + 1, m, u);
      assert (n + 1) * u == n * u + u;
    }
  }

  lemma UlpPositive(d: Double)
    requires Representable(d)
    ensures Ulp(d) > 0
  {
    PowPositive(2, d.e + 1074);
  }

  /** Scaled by den: the interval's ends and the neighbours. */
  lemma ScaledEnds(den: nat, q: int, up: int, down: int)
    ensures den * (q + up) == den * q + den * up && den * (q + 2 * up) == den * q + 2 * (den * up)
    ensures den * (q - down) == den * q - den * down && den * (q - 2 * down) == den * q - 2 * (den * down)
  {}

  /** On a line: n between a - w and a + u, and c at least 2u above or 2w below a. */
  lemma CloserOnLine(n: int, a: int, u: int, w: int, c: int, odd: bool)
    requires a - w <= n <= a + u && (odd ==> a - w < n < a + u) && u > 0 && w > 0
    requires c >= a + 2 * u || c <= a - 2 * w
    ensures var x, y := if n >= a then n - a else a - n, if n >= c then n - c else c - n;
      x < y || (x == y && !odd)
  {}

  lemma InsideIsCloser(n: nat, den: nat, d: Double, r: Double)
    requires Representable(d) && Representable(r) && r != d && den > 0 && InInterval(n, den, d)
    ensures Distance(n, den, d) < Distance(n, den, r) || (Distance(n, den, d) == Distance(n, den, r) && d.m % 2 == 0)
  {
    NeighboursAreAdjacent(d, r);
    UlpPositive(d);
    ScaledEnds(den, Quad(d), GapUp(d), GapDown(d));
    FarApart(den, Quad(d), GapUp(d), GapDown(d), Quad(r));
    CloserOnLine(n, den * Quad(d), den * GapUp(d), den * GapDown(d), den * Quad(r), d.m % 2 == 1);
  }

  lemma FarApart(den: nat, q: int, up: int, down: int, r: int)
    requires den > 0 && up > 0 && down > 0 && (r >= q + 2 * up || r <= q - 2 * down)
    ensures den * r >= den * q + 2 * (den * up) || den * r <= den * q - 2 * (den * down)
    ensures den * r != den * q && den * up > 0 && den * down > 0
  {
    ScaledEnds(den, q, up, down);
    MulPositive(den, up);
    MulPositive(den, down);
    if r >= q + 2 * up {
      MulLe(q + 2 * up, r, den);
    } else {
      MulLe(r, q - 2 * down, den);
    }
  }

  lemma CloserIsInside(n: nat, den: nat, d: Double)
    requires Representable(d) && d.m > 0 && den > 0 && RoundsTo(n, den, d)
    ensures InInterval(n, den, d)
  {
    NextIsTwoGapsUp(d);
    PreviousIsTwoGapsDown(d);
    ScaledEnds(den, Quad(d), GapUp(d), GapDown(d));
    UlpPositive(d);
    var up, down := Next(d), Previous(d);
    MulPositive(den, GapUp(d));
    MulPositive(den, GapDown(d));
    assert Distance(n, den, up) >= Distance(n, den, d);
    assert Distance(n, den, down) >= Distance(n, den, d);
  }

  /** The decimals that read back as d are exactly those in its interval. */
  lemma RoundsToIffInInterval(n: nat, den: nat, d: Double)
    requires Representable(d) && d.m > 0 && den > 0
    ensures RoundsTo(n, den, d) <==> InInterval(n, den, d)
  {
    if InInterval(n, den, d) {
      InsideRounds(n, den, d);
    }
    if RoundsTo(n, den, d) {
      CloserIsInside(n, den, d);
    }
  }

  /** Between two doubles that a decimal is equally far from, the next one up from the lower is closer still. */
  lemma MidpointOfNeighbours(n: nat, den: nat, d: Double, r: Double)
    requires Representable(d) && Representable(r) && den > 0 && Quad(d) < Quad(r)
    requires Distance(n, den, d) == Distance(n, den, r)
    ensures r == Next(d) || (Representable(Next(d)) && Next(d) != d && Distance(n, den, Next(d)) < Distance(n, den, d))
  {
    var x := Next(d);
    NextIsTwoGapsUp(d);
    UlpPositive(d);
    NeighboursAreAdjacent(d, r);
    if r != x {
      NeighboursAreAdjacent(x, r);
      UlpPositive(x);
      MulLt(Quad(d), Quad(x), den);
      MulLt(Quad(x), Quad(r), den);
    }
  }

  /** A decimal rounds to only one double. */
  lemma RoundingIsUnique(n: nat, den: nat, d: Double, r: Double)
    requires Representable(d) && Representable(r) && den > 0 && RoundsTo(n, den, d) && RoundsTo(n, den, r)
    ensures d == r
  {
    if d != r {
      assert Distance(n, den, d) == Distance(n, den, r) && d.m % 2 == 0 && r.m % 2 == 0;
      NeighboursAreAdjacent(d, r);
      UlpPositive(d);
      if Quad(d) < Quad(r) {
        MidpointOfNeighbours(n, den, d, r);
      } else {
        MidpointOfNeighbours(n, den, r, d);
      }
    }
  }

  /** Inside the interval is enough, also for zero. */
  lemma InsideRounds(n: nat, den: nat, d: Double)
    requires Representable(d) && den > 0 && InInterval(n, den, d)
    ensures RoundsTo(n, den, d)
  {
    forall r | Representable(r) && r != d
      ensures Distance(n, den, d) < Distance(n, den, r) || (Distance(n, den, d) == Distance(n, den, r) && d.m % 2 == 0)
    {
      InsideIsCloser(n, den, d, r);
    }
  }
}
