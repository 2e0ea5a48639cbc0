/** From the integer loop's verdict to the promise of mode 0: a shortest decimal that reads back as the double. */
module Shortest {
  import opened Powers
  import opened Doubles
  import opened FreeFormat

  /** How far c * 10^q is from d, in units that only depend on q and d. */
  ghost function Error(d: Double, c: nat, q: int): nat
    requires Representable(d)
  {
    Distance(c * Ten(q) * Scale(), Ten(-q), d)
  }

  /** Every decimal that reads back as d has at least n digits. */
  ghost predicate NoneShorter(d: Double, n: nat)
    requires Representable(d) && n > 0
  {
    forall c: nat, q: int :: c > 0 && ReadsBack(d, c, q) ==> c >= Pow(10, n - 1)
  }

  /** No multiple of 10^q that reads back as d is closer to it than p * 10^q. */
  ghost predicate NoneCloser(d: Double, p: nat, q: int)
    requires Representable(d)
  {
    forall c: nat :: ReadsBack(d, c, q) ==> Error(d, p, q) <= Error(d, c, q)
  }

  /** If another multiple of 10^q that reads back as d is as close to it, p is even. */
  ghost predicate TiesToEven(d: Double, p: nat, q: int)
    requires Representable(d)
  {
    forall c: nat :: c != p && ReadsBack(d, c, q) && Error(d, c, q) == Error(d, p, q) ==> p % 2 == 0
  }

  lemma HitsIffReadsBack(d: Double, k: int, g: Target, p: nat, n: nat)
    requires Representable(d) && d.m > 0 && Scaled(d, k, g) && WellFormed(g) && n > 0
    ensures Hits(g, p, n) <==> ReadsBack(d, p, k - n + 1)
  {
    HitsIffWithin(d, k, g, p, n);
    ReadsBackIffWithin(d, p, k - n + 1);
  }

  lemma UnitRatio(q: int, q1: int)
    requires q >= q1
    ensures Pow(10, q - q1) * Ten(q1) * Ten(-q) == Ten(q) * Ten(-q1)
  {
    PowStep(10, 0);
    if q1 >= 0 {
      PowAdd(10, q - q1, q1);
    } else if q >= 0 {
      PowAdd(10, q, -q1);
    } else {
      PowAdd(10, q - q1, -q);
    }
  }

  /** The same decimal with a finer unit, as equal fractions. */
  lemma FinerFraction(c: nat, q: int, q1: int)
    requires q >= q1
    ensures (c * Ten(q) * Scale()) * Ten(-q1) == ((c * Pow(10, q - q1)) * Ten(q1) * Scale()) * Ten(-q)
  {
    UnitRatio(q, q1);
    Regroup(c, Pow(10, q - q1), c * Pow(10, q - q1), Ten(q1), Scale(), Ten(-q), Ten(q), Ten(-q1));
  }

  /** A decimal with a coarse unit is one with a finer unit too. */
  lemma FinerUnit(d: Double, c: nat, q: int, q1: int)
    requires Representable(d) && d.m > 0 && q >= q1 && ReadsBack(d, c, q)
    ensures ReadsBack(d, c * Pow(10, q - q1), q1)
  {
    hide InInterval, RoundsTo, Scale;
    var c1 := c * Pow(10, q - q1);
    TenPositive(-q);
    TenPositive(-q1);
    FinerFraction(c, q, q1);
    ReadsBackIffWithin(d, c, q);
    ReadsBackIffWithin(d, c1, q1);
    SameFraction(c * Ten(q) * Scale(), Ten(-q), c1 * Ten(q1) * Scale(), Ten(-q1), d);
  }

  lemma Regroup(c: int, f: int, c1: int, a1: int, s: int, b: int, a: int, b1: int)
    requires f * a1 * b == a * b1 && c1 == c * f
    ensures (c * a * s) * b1 == (c1 * a1 * s) * b
  {
    assert (c * f * a1 * s) * b == c * s * (f * a1 * b);
    assert (c * a * s) * b1 == c * s * (a * b1);
  }

  /** A decimal below 10^k that hits lets 10^k itself hit, as the value lies above both. */
  lemma PowerOfTenHits(g: Target, c: nat, n: nat, n1: nat)
    requires WellFormed(g) && g.S <= g.b && n > 1 && n1 >= n && Hits(g, c, n1) && c < Pow(10, n - 1)
    ensures Hits(g, Pow(10, n - 2), n - 1)
  {
    var t, u := Pow(10, n1 - 1), Pow(10, n - 2);
    PowMonotone(10, n - 1, n1 - 1);
    PowPositive(10, n1 - 1);
    PowPositive(10, n - 2);
    MulLt(c, t, g.S);
    MulCancelOrder(g.b - g.lo, g.S, t);
    MulCancelOrder(g.b - g.lo, g.S, u);
    MulCancelOrder(g.S, g.b + g.hi, u);
  }

  /** No shorter decimal, on whatever grid, reads back as d. */
  lemma NothingShorter(d: Double, k: int, g: Target, n: nat, c: nat, q: int)
    requires Representable(d) && d.m > 0 && Scaled(d, k, g) && WellFormed(g) && g.S <= g.b
    requires n > 1 && NothingHits(g, n - 1)
    requires c > 0 && ReadsBack(d, c, q)
    ensures c >= Pow(10, n - 1)
  {
    var q1 := k - (n - 1) + 1;
    if q >= q1 {
      FinerUnit(d, c, q, q1);
      HitsIffReadsBack(d, k, g, c * Pow(10, q - q1), n - 1);
      assert false;
    } else if c < Pow(10, n - 1) {
      var n1 := k - q + 1;
      HitsIffReadsBack(d, k, g, c, n1);
      PowerOfTenHits(g, c, n, n1);
    }
  }

  /** Misses and errors are in a fixed ratio. */
  lemma MissIsError(d: Double, k: int, g: Target, p: nat, n: nat)
    requires Representable(d) && Scaled(d, k, g) && WellFormed(g) && n > 0
    ensures Miss(g, p, n) * (Scale() * Ten(k) * Ten(k - n + 1)) == Error(d, p, k - n + 1) * (g.S * Ten(k))
  {
    var q := k - n + 1;
    var w, t := Scale() * Ten(k), Pow(10, n - 1);
    PowPositive(2, PLACES);
    TenPositive(k);
    TenPositive(q);
    MulPositive(Scale(), Ten(k));
    UnitOfDigit(k, n);
    assert n - 1 - k == -q;
    SameDistance(g.b, t, w, Ten(q), g.S, Quad(d), Ten(-k), Ten(-q), p, Scale(), Ten(k));
    AbsoluteRatio(p * g.S - g.b * t, w * Ten(q), p * Ten(q) * Scale() - Ten(-q) * Quad(d), g.S * Ten(k));
  }

  lemma AbsoluteRatio(x: int, a: int, y: int, b: int)
    requires a > 0 && b > 0 && x * a == y * b
    ensures (if x >= 0 then x else -x) * a == (if y >= 0 then y else -y) * b
  {
    if x > 0 {
      MulPositive(x, a);
    } else if x < 0 {
      MulPositive(-x, a);
    }
    if y > 0 {
      MulPositive(y, b);
    } else if y < 0 {
      MulPositive(-y, b);
    }
  }

  lemma SameDistance(y: int, t: int, w: int, a: int, s: int, x: int, tn: int, dn: int, p: int, sc: int, kk: int)
    requires w == sc * kk && y * w == s * (x * tn) && t * tn * a == kk * dn
    ensures (p * s - y * t) * (w * a) == (p * a * sc - dn * x) * (s * kk)
  {
    assert (y * t) * (w * a) == (dn * x) * (s * kk) by {
      assert (y * t) * (w * a) == (y * w) * (t * a);
      assert (y * w) * (t * a) == (s * (x * tn)) * (t * a) == (s * x) * (t * tn * a);
      assert (s * x) * (kk * dn) == (dn * x) * (s * kk);
    }
    assert (p * s) * (w * a) == (p * a * sc) * (s * kk) by {
      MulSwap(p, s, sc * kk, a);
      assert (p * s) * ((sc * kk) * a) == (p * a * sc) * (s * kk);
    }
    MulDifferenceLeft(p * s, y * t, w * a);
    MulDifferenceLeft(p * a * sc, dn * x, s * kk);
  }

  lemma MulDifferenceLeft(a: int, b: int, c: int)
    ensures (a - b) * c == a * c - b * c
  {}

  lemma NothingCloser(d: Double, k: int, g: Target, p: nat, n: nat, c: nat)
    requires Representable(d) && d.m > 0 && Scaled(d, k, g) && Best(g, p, n) && WellFormed(g)
    requires ReadsBack(d, c, k - n + 1)
    ensures Error(d, p, k - n + 1) <= Error(d, c, k - n + 1)
  {
    HitsIffReadsBack(d, k, g, c, n);
    SameOrderOfErrors(d, k, g, p, n, c);
  }

  /** A tie between two that read back is settled for the even one. */
  lemma TieIsEven(d: Double, k: int, g: Target, p: nat, n: nat, c: nat)
    requires Representable(d) && d.m > 0 && Scaled(d, k, g) && Best(g, p, n) && WellFormed(g)
    requires c != p && ReadsBack(d, c, k - n + 1) && Error(d, c, k - n + 1) == Error(d, p, k - n + 1)
    ensures p % 2 == 0
  {
    hide ReadsBack, Error, Scaled, Hits, Inside, Miss, WellFormed;
    HitsIffReadsBack(d, k, g, c, n);
    SameOrderOfErrors(d, k, g, p, n, c);
    if !Inside(g, c, n) {
      NoTieAtEnds(d, k, g, p, n, c);
    }
  }

  /** The number is an even multiple of each of its gaps, so its interval does not end in a tie. */
  lemma NoTieAtEnds(d: Double, k: int, g: Target, p: nat, n: nat, c: nat)
    requires Representable(d) && d.m > 0 && Scaled(d, k, g) && Best(g, p, n) && WellFormed(g)
    requires c != p && Hits(g, c, n) && Miss(g, c, n) == Miss(g, p, n)
    ensures Inside(g, c, n)
  {
    EvenMultiples(d, k, g);
    hide Pow, PowFrom, Scaled, Hits, Inside, Miss, Nearest, EvenOnTie, NothingHits;
    if !Inside(g, c, n) {
      EndsOfTie(g, p, c, n);
      if p < c {
        NoTieAround(g, p, c, n, g.hi, d.m);
      } else {
        NoTieAround(g, c, p, n, g.lo, if d.m == P52 && d.e > -1074 then 2 * d.m else d.m);
      }
    }
  }

  /** A tie at an end of the interval has the other one as far on the other side. */
  lemma EndsOfTie(g: Target, p: nat, c: nat, n: nat)
    requires WellFormed(g) && n > 0 && c != p && Hits(g, p, n) && Hits(g, c, n) && !Inside(g, c, n) && Miss(g, c, n) == Miss(g, p, n)
    ensures var t := Pow(10, n - 1);
      if p < c then p * g.S == (g.b - g.hi) * t && c * g.S == (g.b + g.hi) * t
      else c * g.S == (g.b - g.lo) * t && p * g.S == (g.b + g.lo) * t
  {
    var t := Pow(10, n - 1);
    PowPositive(10, n - 1);
    hide Pow, PowFrom;
    ProductsOfSums(g.b, g.lo, g.hi, t);
    MulPositive(g.lo, t);
    MulPositive(g.hi, t);
    MulCancelOrder(p, c, g.S);
  }

  lemma ProductsOfSums(b: int, lo: int, hi: int, t: int)
    ensures (b - lo) * t == b * t - lo * t && (b + hi) * t == b * t + hi * t && (b - hi) * t == b * t - hi * t
    ensures (b + lo) * t == b * t + lo * t
  {}

  /** The target in terms of its gaps. */
  lemma EvenMultiples(d: Double, k: int, g: Target)
    requires Representable(d) && d.m > 0 && Scaled(d, k, g) && WellFormed(g)
    ensures g.b == 2 * d.m * g.hi && g.b == 2 * (if d.m == P52 && d.e > -1074 then 2 * d.m else d.m) * g.lo
  {
    PowPositive(2, PLACES);
    TenPositive(k);
    GapMultiples(d);
    hide Pow, PowFrom, Ten, Quad, GapUp, GapDown;
    MulPositive(Scale(), Ten(k));
    var lower := if d.m == P52 && d.e > -1074 then 2 * d.m else d.m;
    InProportion(g.b, g.hi, g.S, Scale() * Ten(k), Quad(d), GapUp(d), Ten(-k), 2 * d.m);
    InProportion(g.b, g.lo, g.S, Scale() * Ten(k), Quad(d), GapDown(d), Ten(-k), 2 * lower);
  }

  lemma GapMultiples(d: Double)
    requires Representable(d)
    ensures Quad(d) == 2 * d.m * GapUp(d) && Quad(d) == 2 * (if d.m == P52 && d.e > -1074 then 2 * d.m else d.m) * GapDown(d)
  {
    hide Pow, PowFrom;
    TwiceAsMany(d.m, Ulp(d));
  }

  lemma TwiceAsMany(m: int, u: int)
    ensures 4 * m * u == 2 * m * (2 * u) && 2 * (2 * m) * u == 4 * m * u
  {}

  lemma InProportion(b: int, h: int, s: int, w: int, q: int, gap: int, t: int, m: int)
    requires b * w == s * (q * t) && h * w == s * (gap * t) && q == m * gap && w > 0
    ensures b == m * h
  {
    assert s * ((m * gap) * t) == m * (s * (gap * t));
    assert (m * h) * w == m * (h * w);
    MulCancelOrder(b, m * h, w);
  }

  /** Two units at equal distances h around an even multiple of h are not neighbours, so neither is nearest. */
  lemma NoTieAround(g: Target, x: nat, y: nat, n: nat, h: nat, m: nat)
    requires WellFormed(g) && n > 0 && h > 0 && g.b == 2 * m * h && x < y && Hits(g, x, n) && Hits(g, y, n)
    requires x * g.S == (g.b - h) * Pow(10, n - 1) && y * g.S == (g.b + h) * Pow(10, n - 1)
    ensures !Nearest(g, x, n) && !Nearest(g, y, n)
  {
    var t := Pow(10, n - 1);
    PowPositive(10, n - 1);
    hide Pow, PowFrom;
    AroundMiddle(x, y, g.S, g.b, h, t, m);
    BetweenHits(g, x, x + 1, y, n);
    MulLe(2, y - x, g.S);
    NextProduct(x, y, g.S);
    ProductsOfSums(g.b, h, h, t);
    MulPositive(h, t);
  }

  lemma NextProduct(x: int, y: int, s: int)
    ensures (x + 1) * s == x * s + s && (y - x) * s == y * s - x * s
  {}

  lemma AroundMiddle(x: int, y: int, s: int, b: int, h: int, t: int, m: int)
    requires x * s == (b - h) * t && y * s == (b + h) * t && b == 2 * m * h && s > 0
    ensures x + y == 2 * (m * (y - x))
  {
    assert (y - x) * s == 2 * (h * t);
    assert (x + y) * s == 2 * (b * t);
    assert b * t == m * (2 * (h * t)) by { assert (2 * m * h) * t == m * (2 * (h * t)); }
    assert (2 * (m * (y - x))) * s == 2 * (m * ((y - x) * s));
    MulCancelOrder(x + y, 2 * (m * (y - x)), s);
  }

  lemma BetweenHits(g: Target, x: int, z: int, y: int, n: nat)
    requires n > 0 && x < z < y && Hits(g, x, n) && Hits(g, y, n)
    ensures Hits(g, z, n)
  {
    MulLe(x, z, g.S);
    MulLe(z, y, g.S);
  }

  /** Misses and errors compare alike. */
  lemma SameOrderOfErrors(d: Double, k: int, g: Target, p: nat, n: nat, c: nat)
    requires Representable(d) && d.m > 0 && Scaled(d, k, g) && WellFormed(g) && n > 0
    ensures var q := k - n + 1;
      && (Error(d, c, q) < Error(d, p, q) <==> Miss(g, c, n) < Miss(g, p, n))
      && (Error(d, c, q) == Error(d, p, q) <==> Miss(g, c, n) == Miss(g, p, n))
  {
    MissIsError(d, k, g, p, n);
    MissIsError(d, k, g, c, n);
    PowPositive(2, PLACES);
    TenPositive(k);
    TenPositive(k - n + 1);
    MulPositive(Scale(), Ten(k));
    MulPositive(Scale() * Ten(k), Ten(k - n + 1));
    MulPositive(g.S, Ten(k));
    MulCancelOrder(Miss(g, c, n), Miss(g, p, n), Scale() * Ten(k) * Ten(k - n + 1));
    MulCancelOrder(Error(d, c, k - n + 1), Error(d, p, k - n + 1), g.S * Ten(k));
  }

  /** The verdict of the loop is the promise made for mode 0. */
  lemma BestIsShortest(d: Double, k: int, g: Target, p: nat, n: nat)
    requires Representable(d) && d.m > 0 && Scaled(d, k, g) && WellFormed(g) && g.S <= g.b && Best(g, p, n)
    ensures ReadsBack(d, p, k - n + 1)
    ensures NoneShorter(d, n)
    ensures NoneCloser(d, p, k - n + 1) && TiesToEven(d, p, k - n + 1)
  {
    HitsIffReadsBack(d, k, g, p, n);
    forall c: nat, q: int | c > 0 && ReadsBack(d, c, q)
      ensures c >= Pow(10, n - 1)
    {
      if n > 1 {
        NothingShorter(d, k, g, n, c, q);
      }
    }
    var q := k - n + 1;
    forall c: nat | ReadsBack(d, c, q)
      ensures Error(d, p, q) <= Error(d, c, q)
    {
      NothingCloser(d, k, g, p, n, c);
    }
    forall c: nat | c != p && ReadsBack(d, c, q) && Error(d, c, q) == Error(d, p, q)
      ensures p % 2 == 0
    {
      TieIsEven(d, k, g, p, n, c);
    }
  }

  lemma TenStepUp(q: int)
    ensures (Ten(q + 1) == 10 * Ten(q) && Ten(-q) == Ten(-(q + 1))) || (Ten(q + 1) == Ten(q) && Ten(-q) == 10 * Ten(-(q + 1)))
  {
    PowStep(10, 0);
    if q >= 0 {
      PowStep(10, q);
    } else {
      PowStep(10, -q - 1);
    }
  }

  /** A trailing zero digit can be dropped: same decimal, and errors in proportion. */
  lemma CoarserUnit(d: Double, c: nat, q: int)
    requires Representable(d) && d.m > 0
    ensures ReadsBack(d, 10 * c, q) <==> ReadsBack(d, c, q + 1)
    ensures Error(d, 10 * c, q) == Error(d, c, q + 1) * (if Ten(q + 1) == Ten(q) then 10 else 1)
  {
    TenStepUp(q);
    TenPositive(q);
    TenPositive(-q);
    TenPositive(-(q + 1));
    var a, a1, b, b1 := Ten(q), Ten(q + 1), Ten(-q), Ten(-(q + 1));
    ReadsBackIffWithin(d, 10 * c, q);
    ReadsBackIffWithin(d, c, q + 1);
    CrossMultiply(c, a, a1, Scale(), b, b1, Quad(d));
    if Within(d, 10 * c, q) {
      SameFraction(10 * c * a * Scale(), b, c * a1 * Scale(), b1, d);
    }
    if Within(d, c, q + 1) {
      SameFraction(c * a1 * Scale(), b1, 10 * c * a * Scale(), b, d);
    }
  }

  lemma CrossMultiply(c: int, a: int, a1: int, s: int, b: int, b1: int, x: int)
    requires (a1 == 10 * a && b == b1) || (a1 == a && b == 10 * b1)
    ensures (10 * c * a * s) * b1 == (c * a1 * s) * b
    ensures if a1 == a && b == 10 * b1 then 10 * c * a * s - b * x == 10 * (c * a1 * s - b1 * x)
            else 10 * c * a * s == c * a1 * s
  {
    if a1 == a && b == 10 * b1 {
      assert (10 * c * a * s) * b1 == (c * a * s) * (10 * b1);
      assert b * x == 10 * (b1 * x);
      assert 10 * c * a * s == 10 * (c * a * s);
    } else {
      assert 10 * c * a * s == c * (10 * a) * s;
    }
  }

  /** The middle of two that are equally far from d is d itself. */
  lemma ExactMiddle(d: Double, a: nat, b: nat, x: nat, q: int)
    requires Representable(d) && d.m > 0 && a != b && a + b == 2 * x && ReadsBack(d, a, q) && Error(d, a, q) == Error(d, b, q)
    ensures ReadsBack(d, x, q) && Error(d, x, q) == 0 < Error(d, a, q)
  {
    TenPositive(q);
    TenPositive(-q);
    PowPositive(2, PLACES);
    ReadsBackIffWithin(d, a, q);
    ReadsBackIffWithin(d, x, q);
    GapDownPositive(d);
    hide Ten, Scale, Pow, PowFrom, ReadsBack, Quad, GapUp, GapDown;
    MulPositive(Ten(q), Scale());
    MiddleProducts(a, b, x, Ten(q), Scale());
    MulAround(Ten(-q), Quad(d), GapUp(d), GapDown(d));
  }

  lemma GapDownPositive(d: Double)
    requires Representable(d)
    ensures GapDown(d) > 0 && GapUp(d) > 0
  {
    UlpPositive(d);
  }

  lemma MulAround(n: int, q: int, up: int, down: int)
    requires n > 0 && up > 0 && down > 0
    ensures n * (q - down) < n * q < n * (q + up)
  {
    MulLt(q - down, q, n);
    MulLt(q, q + up, n);
  }

  lemma MiddleProducts(a: int, b: int, x: int, t: int, s: int)
    requires a + b == 2 * x && t * s > 0
    ensures a * t * s + b * t * s == 2 * (x * t * s) && (a * t * s == b * t * s ==> a == b)
  {
    assert a * t * s == a * (t * s) && b * t * s == b * (t * s) && x * t * s == x * (t * s);
    assert a * (t * s) + b * (t * s) == (a + b) * (t * s);
    MulCancelOrder(a, b, t * s);
  }
}
