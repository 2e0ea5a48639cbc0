/**
 * The arithmetic of free-format digit generation (mode 0 of dtoa): what the numbers b, S, mlo and mhi
 * say about a double, when a digit string may stop, and why the first place it stops is right.
 */
module FreeFormat {
  import opened Powers
  import opened Doubles

  /** A value b / S with half-gaps lo / S and hi / S below and above it; even says an end belongs to the interval. */
  datatype Target = Target(b: nat, S: nat, lo: nat, hi: nat, even: bool)

  ghost predicate WellFormed(g: Target) {
    g.S > 0 && 0 < g.lo <= g.hi && g.lo <= g.b
  }

  /** p counts units of the n-th digit: does p / 10^(n-1) lie in the interval? */
  ghost predicate Hits(g: Target, p: int, n: nat)
    requires n > 0
  {
    var t := Pow(10, n - 1);
    && (g.b - g.lo) * t <= p * g.S <= (g.b + g.hi) * t
    && (!g.even ==> (g.b - g.lo) * t < p * g.S < (g.b + g.hi) * t)
  }

  /** How far p / 10^(n-1) is from the value, scaled. */
  ghost function Miss(g: Target, p: int, n: nat): int
    requires n > 0
  {
    var e := p * g.S - g.b * Pow(10, n - 1);
    if e >= 0 then e else -e
  }

  ghost predicate NothingHits(g: Target, n: nat)
    requires n > 0
  {
    forall t: int :: !Hits(g, t, n)
  }

  ghost predicate Nearest(g: Target, p: int, n: nat)
    requires n > 0
  {
    forall t: int :: Hits(g, t, n) ==> Miss(g, p, n) <= Miss(g, t, n)
  }

  /** Hits, and not at an end of the interval. */
  ghost predicate Inside(g: Target, p: int, n: nat)
    requires n > 0
  {
    var t := Pow(10, n - 1);
    (g.b - g.lo) * t < p * g.S < (g.b + g.hi) * t
  }

  /** Of two that are equally near, p is the even one. */
  ghost predicate EvenOnTie(g: Target, p: int, n: nat)
    requires n > 0
  {
    forall t: int :: t != p && Inside(g, t, n) && Miss(g, t, n) == Miss(g, p, n) ==> p % 2 == 0
  }

  /** n digits p that hit, none shorter hitting, none of the same length closer, and even if one is as close. */
  ghost predicate Best(g: Target, p: nat, n: nat) {
    && n > 0 && Hits(g, p, n)
    && (n > 1 ==> NothingHits(g, n - 1))
    && Nearest(g, p, n) && EvenOnTie(g, p, n)
  }

  /**
   * The loop's state after n digits with value p: b is ten times what is left, lo and hi have kept pace,
   * and if a digit was kept neither it nor its successor would do.
   */
  ghost predicate Progress(g: Target, n: nat, p: nat, b: nat, lo: nat, hi: nat) {
    && WellFormed(g)
    && lo == g.lo * Pow(10, n) && hi == g.hi * Pow(10, n)
    && g.b * Pow(10, n) == 10 * (p * g.S) + b
    && b < 10 * g.S
    && (n > 0 ==> b >= lo && b + hi <= 10 * g.S)
    && (n > 0 && g.even ==> b > lo && b + hi < 10 * g.S)
    && (n == 0 ==> p == 0)
  }

  /** One more digit: p S-units and a remainder r against the unscaled target. */
  lemma NextDigit(g: Target, n: nat, p: nat, b: nat, lo: nat, hi: nat, dig: nat, r: nat)
    requires Progress(g, n, p, b, lo, hi) && b == dig * g.S + r
    ensures g.b * Pow(10, n) == (10 * p + dig) * g.S + r
  {
    hide Pow, PowFrom;
    DigitAppended(p, dig, g.S);
  }

  lemma DigitAppended(p: int, dig: int, s: int)
    ensures (10 * p + dig) * s == 10 * (p * s) + dig * s
  {}

  /** Hits and Miss, in terms of the remainder left by p. */
  lemma Relative(g: Target, n: nat, p: nat, r: int, t: int)
    requires g.b * Pow(10, n) == p * g.S + r
    ensures (t - p) * g.S == t * g.S - p * g.S
    ensures Miss(g, t, n + 1) == (if (t - p) * g.S - r >= 0 then (t - p) * g.S - r else r - (t - p) * g.S)
    ensures var lo, hi, d := g.lo * Pow(10, n), g.hi * Pow(10, n), (t - p) * g.S - r;
      && (Hits(g, t, n + 1) <==> -lo <= d <= hi && (!g.even ==> -lo < d < hi))
      && (Inside(g, t, n + 1) <==> -lo < d < hi)
  {
    var q := Pow(10, n);
    assert (g.b - g.lo) * q == g.b * q - g.lo * q;
    assert (g.b + g.hi) * q == g.b * q + g.hi * q;
    assert (t - p) * g.S == t * g.S - p * g.S;
  }

  /** Multiples of S away from the two nearest ones. */
  lemma FarMultiples(d: int, S: int)
    requires S >= 0
    ensures d >= 2 ==> d * S >= 2 * S
    ensures d <= -1 ==> d * S <= -S
    ensures d == 0 ==> d * S == 0
    ensures d == 1 ==> d * S == S
  {
    if d >= 2 {
      MulLe(2, d, S);
    } else if d <= -1 {
      MulLe(d, -1, S);
    }
  }

  /** Keeping a digit: the remainder is outside both half-gaps, so no string of this length hits. */
  lemma KeepDigit(g: Target, n: nat, p: nat, b: nat, lo: nat, hi: nat, dig: nat, r: nat)
    requires Progress(g, n, p, b, lo, hi) && b == dig * g.S + r && r < g.S
    requires r >= lo && r + hi <= g.S && (g.even ==> r > lo && r + hi < g.S)
    ensures Progress(g, n + 1, 10 * p + dig, 10 * r, 10 * lo, 10 * hi)
    ensures NothingHits(g, n + 1)
  {
    NextDigit(g, n, p, b, lo, hi, dig, r);
    var n1 := n + 1;
    forall t: int
      ensures !Hits(g, t, n1)
    {
      Relative(g, n, 10 * p + dig, r, t);
      FarMultiples(t - (10 * p + dig), g.S);
    }
    PowStep(10, n);
    TenTimes(g.b, Pow(10, n), Pow(10, n + 1));
    TenTimes(g.lo, Pow(10, n), Pow(10, n + 1));
    TenTimes(g.hi, Pow(10, n), Pow(10, n + 1));
  }

  lemma TenTimes(a: nat, t: nat, t1: nat)
    requires t1 == 10 * t
    ensures a * t1 == 10 * (a * t)
  {}

  /** A string of the next length, relative to the one that ends in the quotient digit. */
  lemma OtherDigit(g: Target, n: nat, p: nat, b: nat, lo: nat, hi: nat, dig: nat, r: nat, t: int)
    requires Progress(g, n, p, b, lo, hi) && b == dig * g.S + r && r < g.S
    ensures var q := 10 * p + dig;
      && (t == q ==> Miss(g, t, n + 1) == r && (Hits(g, t, n + 1) <==> r < lo || (r == lo && g.even)))
      && (t == q + 1 ==> Miss(g, t, n + 1) == g.S - r && (Hits(g, t, n + 1) <==> r + hi > g.S || (r + hi == g.S && g.even)))
      && (t == q ==> (Inside(g, t, n + 1) <==> r < lo))
      && (t == q + 1 ==> (Inside(g, t, n + 1) <==> r + hi > g.S))
      && (t != q && t != q + 1 ==> Miss(g, t, n + 1) >= g.S)
    ensures g.S > 0 && lo > 0 && hi > 0
  {
    NextDigit(g, n, p, b, lo, hi, dig, r);
    Relative(g, n, 10 * p + dig, r, t);
    FarMultiples(t - (10 * p + dig), g.S);
    PowPositive(10, n);
    MulPositive(g.lo, Pow(10, n));
    MulPositive(g.hi, Pow(10, n));
  }

  /** Stopping with the digit as it is: it is close enough below, and the next one up is no better. */
  lemma StopBelow(g: Target, n: nat, p: nat, b: nat, lo: nat, hi: nat, dig: nat, r: nat)
    requires Progress(g, n, p, b, lo, hi) && b == dig * g.S + r && r < g.S
    requires n > 0 ==> NothingHits(g, n)
    requires r < lo || (r == lo && g.even)
    requires 2 * r <= g.S || r + hi < g.S || (r + hi == g.S && !g.even)
    requires 2 * r == g.S && r + hi > g.S ==> dig % 2 == 0
    ensures Best(g, 10 * p + dig, n + 1)
  {
    hide Pow, PowFrom, Progress, Hits, Inside, Miss;
    var q, n1 := 10 * p + dig, n + 1;
    OtherDigit(g, n, p, b, lo, hi, dig, r, q);
    forall t: int
      ensures Hits(g, t, n1) ==> Miss(g, q, n1) <= Miss(g, t, n1)
      ensures t != q && Inside(g, t, n1) && Miss(g, t, n1) == Miss(g, q, n1) ==> q % 2 == 0
    {
      OtherDigit(g, n, p, b, lo, hi, dig, r, t);
    }
  }

  /** Stopping with the next digit up: it is close enough above, and the digit itself is no better. */
  lemma StopAbove(g: Target, n: nat, p: nat, b: nat, lo: nat, hi: nat, dig: nat, r: nat)
    requires Progress(g, n, p, b, lo, hi) && b == dig * g.S + r && r < g.S
    requires n > 0 ==> NothingHits(g, n)
    requires r + hi > g.S || (r + hi == g.S && g.even)
    requires 2 * r >= g.S || r > lo || (r == lo && !g.even)
    requires 2 * r == g.S && r < lo ==> dig % 2 == 1
    ensures Best(g, 10 * p + dig + 1, n + 1)
  {
    hide Pow, PowFrom, Progress, Hits, Inside, Miss;
    var q, n1 := 10 * p + dig + 1, n + 1;
    OtherDigit(g, n, p, b, lo, hi, dig, r, q);
    forall t: int
      ensures Hits(g, t, n1) ==> Miss(g, q, n1) <= Miss(g, t, n1)
      ensures t != q && Inside(g, t, n1) && Miss(g, t, n1) == Miss(g, q, n1) ==> q % 2 == 0
    {
      OtherDigit(g, n, p, b, lo, hi, dig, r, t);
    }
  }

  /** A nine can only be rounded up as the first digit. */
  lemma NineUpOnlyFirst(g: Target, n: nat, p: nat, b: nat, lo: nat, hi: nat, r: nat)
    requires Progress(g, n, p, b, lo, hi) && b == 9 * g.S + r
    requires r + hi > g.S || (r + hi == g.S && g.even)
    ensures n == 0 && p == 0
  {}

  // From the scaled integers back to the double.

  /** Ten to the power z, as a numerator. */
  function Ten(z: int): nat {
    if z >= 0 then Pow(10, z) else 1
  }

  /** c * 10^q reads back as d. */
  ghost predicate ReadsBack(d: Double, c: nat, q: int)
    requires Representable(d)
  {
    RoundsTo(c * Ten(q) * Scale(), Ten(-q), d)
  }

  /** g is d / 10^k with its half-gaps. */
  ghost predicate Scaled(d: Double, k: int, g: Target)
    requires Representable(d)
  {
    var w, t := Scale() * Ten(k), Ten(-k);
    && g.b * w == g.S * (Quad(d) * t)
    && g.hi * w == g.S * (GapUp(d) * t)
    && g.lo * w == g.S * (GapDown(d) * t)
    && g.even == (d.m % 2 == 0)
  }

  lemma TenPositive(z: int)
    ensures Ten(z) > 0
  {
    if z >= 0 {
      PowPositive(10, z);
    }
  }

  /** The digit position n of a number scaled by 10^k counts units of 10^(k-n+1). */
  lemma UnitOfDigit(k: int, n: nat)
    requires n > 0
    ensures Pow(10, n - 1) * Ten(-k) * Ten(k - n + 1) == Ten(k) * Ten(n - 1 - k)
  {
    if k >= n - 1 {
      PowAdd(10, n - 1, k - n + 1);
    } else if k >= 0 {
      PowAdd(10, k, n - 1 - k);
    } else {
      PowAdd(10, n - 1, -k);
    }
  }

  // Products in another order, each on its own.

  lemma Crossed(y: int, t: int, w: int, a: int)
    ensures (y * t) * (w * a) == (y * w) * (t * a)
  {}

  lemma Collected(s: int, x: int, tn: int, t: int, a: int)
    ensures (s * (x * tn)) * (t * a) == (s * x) * (t * tn * a)
  {}

  lemma Turned(s: int, x: int, kk: int, dn: int)
    ensures (s * x) * (kk * dn) == (dn * x) * (s * kk)
  {}

  lemma Spread(p: int, s: int, sc: int, kk: int, a: int)
    ensures (p * s) * ((sc * kk) * a) == (p * a * sc) * (s * kk)
  {
    assert (p * s) * ((sc * kk) * a) == p * a * sc * s * kk;
  }

  /** Comparing y * t with p * s is comparing dn * x with p * a * sc, when both sides are the same ratio rescaled. */
  lemma SameOrder(y: int, t: int, w: int, a: int, s: int, x: int, tn: int, dn: int, p: int, sc: int, kk: int)
    requires w == sc * kk && y * w == s * (x * tn) && t * tn * a == kk * dn
    requires w > 0 && a > 0 && s > 0 && kk > 0
    ensures y * t < p * s <==> dn * x < p * a * sc
    ensures y * t == p * s <==> dn * x == p * a * sc
  {
    assert (y * t) * (w * a) == (dn * x) * (s * kk) by {
      Crossed(y, t, w, a);
      Collected(s, x, tn, t, a);
      Turned(s, x, kk, dn);
    }
    assert (p * s) * (w * a) == (p * a * sc) * (s * kk) by {
      Spread(p, s, sc, kk, a);
    }
    MulPositive(w, a);
    MulPositive(s, kk);
    MulCancelOrder(y * t, p * s, w * a);
    MulCancelOrder(dn * x, p * a * sc, s * kk);
  }

  lemma ScaledEnd(b: int, w: int, s: int, q: int, t: int, h: int, gap: int)
    requires b * w == s * (q * t) && h * w == s * (gap * t)
    ensures (b + h) * w == s * ((q + gap) * t) && (b - h) * w == s * ((q - gap) * t)
  {
    assert (b + h) * w == b * w + h * w && (b - h) * w == b * w - h * w;
    assert (q + gap) * t == q * t + gap * t && (q - gap) * t == q * t - gap * t;
    assert s * (q * t + gap * t) == s * (q * t) + s * (gap * t);
    assert s * (q * t - gap * t) == s * (q * t) - s * (gap * t);
  }

  /** c * 10^q lies in d's interval. */
  ghost predicate Within(d: Double, c: nat, q: int)
    requires Representable(d)
  {
    InInterval(c * Ten(q) * Scale(), Ten(-q), d)
  }

  lemma ReadsBackIffWithin(d: Double, c: nat, q: int)
    requires Representable(d) && d.m > 0
    ensures ReadsBack(d, c, q) <==> Within(d, c, q)
  {
    hide InInterval, RoundsTo, Scale;
    TenPositive(-q);
    RoundsToIffInInterval(c * Ten(q) * Scale(), Ten(-q), d);
  }

  /** Hitting the scaled target is lying in the double's interval. */
  lemma HitsIffWithin(d: Double, k: int, g: Target, p: nat, n: nat)
    requires Representable(d) && Scaled(d, k, g) && WellFormed(g) && n > 0
    ensures Hits(g, p, n) <==> Within(d, p, k - n + 1)
  {
    var q := k - n + 1;
    var w, t := Scale() * Ten(k), Pow(10, n - 1);
    PowPositive(2, PLACES);
    TenPositive(k);
    TenPositive(q);
    MulPositive(Scale(), Ten(k));
    UnitOfDigit(k, n);
    assert n - 1 - k == -q;
    ScaledEnd(g.b, w, g.S, Quad(d), Ten(-k), g.hi, GapUp(d));
    ScaledEnd(g.b, w, g.S, Quad(d), Ten(-k), g.lo, GapDown(d));
    SameOrder(g.b - g.lo, t, w, Ten(q), g.S, Quad(d) - GapDown(d), Ten(-k), Ten(-q), p, Scale(), Ten(k));
    SameOrder(g.b + g.hi, t, w, Ten(q), g.S, Quad(d) + GapUp(d), Ten(-k), Ten(-q), p, Scale(), Ten(k));
  }

  /** Equal fractions lie in the same intervals. */
  lemma SameFraction(n1: nat, d1: nat, n2: nat, d2: nat, d: Double)
    requires Representable(d) && d1 > 0 && d2 > 0 && n1 * d2 == n2 * d1 && InInterval(n1, d1, d)
    ensures InInterval(n2, d2, d)
  {
    SameFractionOrder(n1, d1, n2, d2, Quad(d) - GapDown(d));
    SameFractionOrder(n1, d1, n2, d2, Quad(d) + GapUp(d));
  }

  lemma SameFractionOrder(n1: nat, d1: nat, n2: nat, d2: nat, x: int)
    requires d1 > 0 && d2 > 0 && n1 * d2 == n2 * d1
    ensures d1 * x < n1 <==> d2 * x < n2
    ensures d1 * x == n1 <==> d2 * x == n2
  {
    MulCancelOrder(d1 * x, n1, d2);
    MulCancelOrder(d2 * x, n2, d1);
    assert (d1 * x) * d2 == (d2 * x) * d1;
  }
}
