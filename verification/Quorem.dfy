/** One digit of a long division with a one-step correction of the estimated quotient (quorem in dtoa.cpp). */
module Quorem {
  import opened Powers
  import opened Words
  import opened Bigints
  import opened BigintOps

  /** A divisor whose top word has exactly four leading zero bits. */
  ghost predicate Divisor(S: Bigint)
    reads S
  {
    S.Valid() && S.wds >= 1 && TopWordAligned(S.x[S.wds - 1])
  }

  predicate TopWordAligned(w: Word) {
    0x800_0000 <= w < 0x1000_0000
  }

  /** The estimate never exceeds the quotient... */
  lemma EstimateNotTooLarge(b: nat, S: nat, t: nat, s: nat, p: nat, q: nat)
    requires t * p <= b && S <= (s + 1) * p && q * (s + 1) <= t
    ensures q * S <= b
  {
    MulLe(S, (s + 1) * p, q);
    MulLe(q * (s + 1), t, p);
    MulAssoc(q, s + 1, p);
  }

  /** ... and falls short by at most one, as the divisor's top word dwarfs the quotient. */
  lemma EstimateShortByOne(b: nat, S: nat, t: nat, s: nat, p: nat, q: nat)
    requires b < (t + 1) * p && s * p <= S && t < (q + 1) * (s + 1) && q + 1 <= s
    ensures b < (q + 2) * S
  {
    MulLe(t + 1, (q + 1) * (s + 1), p);
    MulAssoc(q + 1, s + 1, p);
    Expand(q + 1, s, p);
    MulLe(s * p, S, q + 1);
    MulLe(q + 1, s, p);
    OneMore(q + 1, S, 0);
  }

  lemma Expand(a: int, s: int, p: int)
    ensures a * ((s + 1) * p) == a * (s * p) + a * p
  {}

  /** From the top words alone: the estimate t / (s + 1) is the quotient or one less. */
  lemma EstimateIsClose(b: nat, S: nat, t: nat, s: nat, p: nat, q: nat)
    requires 0x800_0000 <= s && t * p <= b < (t + 1) * p && s * p <= S < (s + 1) * p
    requires b < 10 * S && q * (s + 1) <= t < (q + 1) * (s + 1)
    ensures q <= 9 && 0 <= b - q * S < 2 * S
  {
    EstimateNotTooLarge(b, S, t, s, p, q);
    if q >= 10 {
      MulLe(10, q, S);
    }
    EstimateShortByOne(b, S, t, s, p, q);
    TwoMore(q, S);
  }

  /** The same for the words of two numbers of equal size. */
  lemma EstimateFromTopWords(b: Bigint, S: Bigint, q: nat)
    requires b.Valid() && Divisor(S) && b.wds == S.wds && b.Value() < 10 * S.Value()
    requires var t, s := b.x[b.wds - 1], S.x[S.wds - 1]; q * (s + 1) <= t < (q + 1) * (s + 1)
    ensures q <= 9 && 0 <= b.Value() - q * S.Value() < 2 * S.Value()
  {
    ValTop(b.x[..b.wds]);
    ValTop(S.x[..S.wds]);
    EstimateIsClose(b.Value(), S.Value(), b.x[b.wds - 1], S.x[S.wds - 1], Pow(BASE, S.wds - 1), q);
  }

  /** Truncated quotient of two words. */
  method Quotient(t: nat, d: nat) returns (q: nat)
    requires d > 0
    ensures q * d <= t < (q + 1) * d
  {
    q := t / d;
    assert t == q * d + t % d;
  }

  /** A dividend below ten times the divisor has no more words than it. */
  lemma DividendFits(b: Bigint, S: Bigint)
    requires b.Valid() && b.Normal() && Divisor(S) && b.Value() < 10 * S.Value()
    ensures b.wds <= S.wds
  {
    var n := S.wds;
    ValTop(S.x[..n]);
    var top: int, p := S.x[n - 1], Pow(BASE, n - 1);
    MulLe(top + 1, 0x1000_0000, p);
    PowStep(BASE, n - 1);
    if b.wds > n {
      NormalBounds(b);
      PowMonotone(BASE, n, b.wds - 1);
    }
  }

  /** The word loop: subtracts q * S from b, keeping a carry for the product and a borrow for the difference. */
  method SubtractColumns(b: Bigint, S: Bigint, q: Word) returns (ghost owed: seq<nat>)
    requires b != S && S.wds <= |b.x| && S.wds <= |S.x|
    modifies b
    ensures |b.x| == old(|b.x|) && b.wds == old(b.wds) && b.sign == old(b.sign)
    ensures |owed| == S.wds + 1 && owed[0] == 0
    ensures forall t :: 0 <= t < S.wds ==> Owed(old(b.x)[t], S.x[t], q, owed[t], b.x[t], owed[t + 1])
  {
    var carry: nat, borrow: nat := 0, 0;
    owed := [0];
    ghost var b0 := b.x;
    var i := 0;
    while i < S.wds
      invariant 0 <= i <= S.wds && |b.x| == |b0| && b.wds == old(b.wds) && b.sign == old(b.sign)
      invariant carry < BASE && borrow <= 1 && |owed| == i + 1 && owed[i] == carry + borrow && owed[0] == 0
      invariant forall t :: i <= t < |b0| ==> b.x[t] == b0[t]
      invariant forall t :: 0 <= t < i ==> Owed(b0[t], S.x[t], q, owed[t], b.x[t], owed[t + 1])
    {
      var ys := S.x[i] * q + carry;
      var y := (b.x[i] - ys % BASE - borrow) % TWO64;
      SubtractStep(b.x[i], S.x[i], q, carry, borrow, ys, y);
      carry, borrow := ys / BASE, (y / BASE) % 2;
      b.x := b.x[i := y % BASE];
      owed := owed + [carry + borrow];
      i := i + 1;
    }
  }

  lemma SubtractStep(x: Word, s: Word, q: Word, carry: nat, borrow: nat, ys: nat, y: int)
    requires carry < BASE && borrow <= 1 && ys == s * q + carry && y == (x - ys % BASE - borrow) % TWO64
    ensures ys < TWO64 && ys / BASE < BASE && 0 <= (y / BASE) % 2 <= 1
    ensures Owed(x, s, q, carry + borrow, y % BASE, ys / BASE + (y / BASE) % 2)
  {
    ColumnFits(s, q, 0, carry);
    WrappedDifference(x, ys % BASE + borrow, y);
  }

  /** b - q * S over all the words of S, with no final borrow. */
  method SubtractMultiple(b: Bigint, S: Bigint, q: Word)
    requires b != S && b.Valid() && S.Valid() && b.wds == S.wds && q * S.Value() <= b.Value()
    modifies b
    ensures b.Valid() && b.wds == old(b.wds) && b.sign == old(b.sign)
    ensures b.Value() == old(b.Value()) - q * S.Value()
  {
    ghost var b0, v := b.x, b.Value();
    ghost var owed := SubtractColumns(b, S, q);
    BorrowsAddUp(b.x, b0, S.x, q, owed, S.wds);
    ValBound(b.x[..S.wds]);
    NoBorrow(b.Value(), q * S.Value(), v, owed[S.wds], Pow(BASE, S.wds));
  }

  /** Drops leading zero words below the top word; a lone zero word is dropped as well. */
  method DropLeadingZeros(b: Bigint)
    requires b.Valid() && b.wds >= 1
    modifies b
    ensures b.Valid() && b.Normal() && b.sign == old(b.sign) && b.x == old(b.x)
    ensures b.Value() == old(b.Value()) && b.wds <= old(b.wds)
    ensures b.wds == 0 ==> old(b.wds) == 1 && b.x[0] == 0
  {
    var n := b.wds - 1;
    if b.x[n] == 0 {
      while n > 1 && b.x[n - 1] == 0
        invariant 0 <= n < b.wds && (old(b.wds) > 1 ==> n >= 1)
        invariant forall i :: n <= i < b.wds ==> b.x[i] == 0
        invariant b.Valid() && b.wds == old(b.wds) && b.x == old(b.x) && b.sign == old(b.sign)
      {
        n := n - 1;
      }
      assert b.x[..b.wds][..n] == b.x[..n];
      ValTrim(b.x[..b.wds], n);
      b.wds := n;
    }
  }

  /** Subtracts the estimated multiple. */
  method EstimateStep(b: Bigint, S: Bigint) returns (q: nat)
    requires b != S && b.Valid() && b.Normal() && Divisor(S) && b.wds == S.wds
    requires b.Value() < 10 * S.Value()
    modifies b
    ensures b.Valid() && b.Normal() && b.sign == old(b.sign)
    ensures q <= 9 && b.Value() == old(b.Value()) - q * S.Value() && b.Value() < 2 * S.Value()
    ensures b.wds <= S.wds && (b.wds == 0 ==> S.wds == 1 && b.x[0] == 0)
  {
    q := Quotient(b.x[b.wds - 1], S.x[S.wds - 1] + 1);
    EstimateFromTopWords(b, S, q);
    if q != 0 {
      SubtractMultiple(b, S, q);
      DropLeadingZeros(b);
    }
  }

  /** Subtracts the divisor once more when the estimate was one short. */
  method CorrectStep(b: Bigint, S: Bigint) returns (more: nat)
    requires b != S && b.Valid() && b.Normal() && Divisor(S) && S.Normal() && b.wds <= S.wds && S.Value() > 0
    requires b.Value() < 2 * S.Value()
    modifies b
    ensures b.Valid() && b.Normal() && b.sign == old(b.sign)
    ensures if old(b.Value()) < S.Value() then more == 0 && b.Value() == old(b.Value())
            else more == 1 && b.Value() == old(b.Value()) - S.Value()
    ensures b.wds == 0 ==> (old(b.wds) == 0 && b.x == old(b.x)) || (S.wds == 1 && b.x[0] == 0)
  {
    more := 0;
    var c := Cmp(b, S);
    if c >= 0 {
      FewerWords(S, b);
      more := 1;
      SubtractMultiple(b, S, 1);
      DropLeadingZeros(b);
    }
  }

  /** The quotient digit of b by S; b becomes the remainder. */
  method QuoRem(b: Bigint, S: Bigint) returns (q: nat)
    requires b != S && b.Valid() && b.Normal() && Divisor(S)
    requires b.Value() < 10 * S.Value()
    modifies b
    ensures b.Valid() && b.Normal() && b.sign == old(b.sign)
    ensures q <= 9 && old(b.Value()) == q * S.Value() + b.Value() && b.Value() < S.Value()
    ensures b.wds == 0 ==> old(b.wds) == 0 || (S.wds == 1 && b.x[0] == 0)
  {
    DividendFits(b, S);
    NormalBounds(S);
    if b.wds < S.wds {
      MoreWords(b, S);
      return 0;
    }
    ghost var v := b.Value();
    q := EstimateStep(b, S);
    ghost var rest := b.Value();
    var more := CorrectStep(b, S);
    QuotientIsDigit(v, S.Value(), q, rest, more);
    q := q + more;
  }

  lemma QuotientIsDigit(v: nat, s: nat, q: nat, rest: nat, more: nat)
    requires rest == v - q * s && rest < 2 * s && v < 10 * s
    requires more == if rest < s then 0 else 1
    ensures q + more <= 9 && v == (q + more) * s + (rest - more * s)
  {
    OneMore(q, s, 0);
    if q + more >= 10 {
      MulLe(10, q + more, s);
    }
  }

  lemma TwoMore(q: nat, s: nat)
    ensures (q + 2) * s == q * s + 2 * s
  {}

  lemma OneMore(q: nat, s: nat, r: int)
    ensures (q + 1) * s + r == q * s + s + r
  {}
}
