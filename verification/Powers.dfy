/** Powers of natural numbers, and the few laws the bignum code rests on. */
module Powers {

  /** a * b^e, by repeated multiplication into an accumulator. */
  function PowFrom(a: nat, b: nat, e: nat): nat
    decreases e
  {
    if e == 0 then a else PowFrom(a * b, b, e - 1)
  }

  /** b to the power e. */
  function Pow(b: nat, e: nat): nat {
    PowFrom(1, b, e)
  }

  lemma {:induction false} PowFromScales(a: nat, b: nat, e: nat)
    ensures PowFrom(a, b, e) == a * PowFrom(1, b, e)
    decreases e
  {
    if e > 0 {
      PowFromScales(a * b, b, e - 1);
      PowFromScales(b, b, e - 1);
      MulAssoc(a, b, PowFrom(1, b, e - 1));
      assert 1 * b == b;
    }
  }

  lemma PowStep(b: nat, e: nat)
    ensures Pow(b, e + 1) == b * Pow(b, e) && Pow(b, 0) == 1 && Pow(b, 1) == b
  {
    PowFromScales(b, b, e);
    assert 1 * b == b && PowFrom(b, b, 0) == b;
  }

  lemma {:induction false} PowPositive(b: nat, e: nat)
    requires b > 0
    ensures Pow(b, e) > 0
  {
    if e > 0 {
      PowPositive(b, e - 1);
      PowStep(b, e - 1);
      MulPositive(b, Pow(b, e - 1));
    }
  }

  lemma {:induction false} PowAdd(b: nat, m: nat, n: nat)
    ensures Pow(b, m + n) == Pow(b, m) * Pow(b, n)
  {
    if m > 0 {
      PowAdd(b, m - 1, n);
      PowStep(b, m - 1);
      PowStep(b, m - 1 + n);
      MulAssoc(b, Pow(b, m - 1), Pow(b, n));
    }
  }

  lemma {:induction false} PowProduct(a: nat, b: nat, n: nat)
    ensures Pow(a * b, n) == Pow(a, n) * Pow(b, n)
  {
    if n > 0 {
      PowProduct(a, b, n - 1);
      PowStep(a * b, n - 1);
      PowStep(a, n - 1);
      PowStep(b, n - 1);
      MulSwap(a, b, Pow(a, n - 1), Pow(b, n - 1));
    }
  }

  lemma {:induction false} PowPow(b: nat, m: nat, n: nat)
    ensures Pow(Pow(b, m), n) == Pow(b, m * n)
  {
    if n > 0 {
      PowPow(b, m, n - 1);
      PowStep(Pow(b, m), n - 1);
      PowAdd(b, m, m * (n - 1));
      assert m + m * (n - 1) == m * n;
    }
  }

  lemma PowMonotone(b: nat, m: nat, n: nat)
    requires b > 0 && m <= n
    ensures Pow(b, m) <= Pow(b, n)
  {
    PowAdd(b, m, n - m);
    PowPositive(b, n - m);
    MulAtLeast(Pow(b, m), Pow(b, n - m));
  }

  lemma {:induction false} PowBaseMonotone(a: nat, b: nat, n: nat)
    requires a <= b
    ensures Pow(a, n) <= Pow(b, n)
  {
    if n > 0 {
      PowBaseMonotone(a, b, n - 1);
      PowStep(a, n - 1);
      PowStep(b, n - 1);
      MulLe(a, b, Pow(a, n - 1));
      MulLe(Pow(a, n - 1), Pow(b, n - 1), b);
    }
  }

  /** Three binary places are less than a decimal one. */
  lemma PowTenAbovePowEight(n: nat)
    ensures Pow(2, 3 * n) <= Pow(10, n)
  {
    PowersOfTwo();
    PowAdd(2, 2, 1);
    PowPow(2, 3, n);
    PowBaseMonotone(8, 10, n);
  }

  lemma PowTen(n: nat)
    ensures Pow(10, n) == Pow(2, n) * Pow(5, n)
  {
    PowProduct(2, 5, n);
  }

  /** The small powers of two that the bignum code meets. */
  lemma PowersOfTwo()
    ensures Pow(2, 0) == 1 && Pow(2, 1) == 2 && Pow(2, 2) == 4 && Pow(2, 4) == 0x10 && Pow(2, 8) == 0x100
    ensures Pow(2, 10) == 0x400 && Pow(2, 13) == 0x2000 && Pow(2, 14) == 0x4000 && Pow(2, 15) == 0x8000
    ensures Pow(2, 16) == 0x1_0000 && Pow(2, 31) == 0x8000_0000 && Pow(2, 32) == 0x1_0000_0000
    ensures Pow(2, 52) == 0x10_0000_0000_0000 && Pow(2, 53) == 0x20_0000_0000_0000
  {
    PowStep(2, 0);
    PowAdd(2, 1, 1);
    PowAdd(2, 2, 2);
    PowAdd(2, 4, 4);
    PowAdd(2, 8, 2);
    PowAdd(2, 8, 4);
    PowAdd(2, 12, 1);
    PowAdd(2, 13, 1);
    PowAdd(2, 14, 1);
    PowAdd(2, 8, 8);
    PowAdd(2, 16, 15);
    PowAdd(2, 16, 16);
    PowAdd(2, 16, 4);
    PowAdd(2, 32, 20);
    PowAdd(2, 52, 1);
  }

  /** Three decimal places are less than ten binary ones. */
  lemma PowTenBelow(n: nat)
    ensures Pow(10, n) <= Pow(2, 10 * (n / 3 + 1))
  {
    var m := n / 3 + 1;
    PowMonotone(10, n, 3 * m);
    PowPow(10, 3, m);
    PowPow(2, 10, m);
    PowersOfTwo();
    assert Pow(10, 3) == 1000 by {
      PowStep(10, 0);
      PowAdd(10, 1, 1);
      PowAdd(10, 2, 1);
    }
    PowBaseMonotone(1000, 1024, m);
  }

  /** A power of two is never a multiple of five. */
  lemma {:induction false} PowTwoNotMultipleOfFive(n: nat)
    ensures Pow(2, n) % 5 != 0
  {
    if n > 0 {
      PowTwoNotMultipleOfFive(n - 1);
      PowStep(2, n - 1);
    }
  }

  // Multiplication facts, each kept in a context of its own.

  lemma MulAssoc(a: int, b: int, c: int)
    ensures a * (b * c) == (a * b) * c
  {}

  lemma MulSwap(a: int, b: int, c: int, d: int)
    ensures (a * b) * (c * d) == (a * c) * (b * d)
  {
    assert (a * b) * (c * d) == a * (b * (c * d)) == a * (c * (b * d)) == (a * c) * (b * d);
  }

  lemma MulAtLeast(a: nat, b: nat)
    requires b > 0
    ensures a <= a * b
  {
    assert a * b == a + a * (b - 1);
  }

  lemma MulLe(a: int, b: int, c: int)
    requires a <= b && c >= 0
    ensures a * c <= b * c
  {}

  lemma MulLt(a: int, b: int, c: int)
    requires a < b && c > 0
    ensures a * c < b * c
  {}

  /** A common positive factor does not change an order. */
  lemma MulCancelOrder(a: int, b: int, c: int)
    requires c > 0
    ensures a * c < b * c <==> a < b
    ensures a * c == b * c <==> a == b
  {
    if a < b {
      MulLt(a, b, c);
    } else if b < a {
      MulLt(b, a, c);
    }
  }

  lemma MulPositive(a: int, b: int)
    requires a > 0 && b > 0
    ensures a * b > 0
  {}

  /** Division is determined by its quotient and remainder. */
  lemma DivUnique(n: int, d: int, q: int, r: int)
    requires d > 0 && 0 <= r < d && n == q * d + r
    ensures n / d == q && n % d == r
  {
    assert n == (n / d) * d + n % d;
    var k := q - n / d;
    assert k * d == n % d - r;
    if k > 0 {
      MulLe(1, k, d);
    } else if k < 0 {
      MulLe(k, -1, d);
    }
  }
}
