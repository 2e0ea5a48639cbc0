/** The mode-0 digit loop of dtoa on its bignums: remainder, two stopping tests, final rounding. */
module DigitLoop {
  import opened Powers
  import opened Words
  import opened Bigints
  import opened BigintOps
  import opened Quorem
  import opened FreeFormat

  /** A decimal digit; the source stores it as '0' + d. */
  type Digit = d: int | 0 <= d <= 9

  /** The number a digit string denotes. */
  function DigitsValue(s: seq<Digit>): nat {
    if |s| == 0 then 0 else 10 * DigitsValue(s[..|s| - 1]) + s[|s| - 1]
  }

  lemma DigitsSnoc(s: seq<Digit>, d: Digit)
    ensures DigitsValue(s + [d]) == 10 * DigitsValue(s) + d
  {
    assert (s + [d])[..|s|] == s;
  }

  /**
   * The tail of dtoa at label roundoff: trailing nines give way to a carry, and a string of nothing
   * but nines becomes a one with a larger exponent.
   */
  method RoundOff(s0: seq<Digit>, k0: int) returns (s: seq<Digit>, k: int)
    requires |s0| > 0
    ensures 0 < |s| <= |s0| && s[|s| - 1] != 0
    ensures k == k0 || (k == k0 + 1 && s == [1])
    ensures DigitsValue(s) * Pow(10, |s0| - |s| + (k - k0)) == DigitsValue(s0) + 1
  {
    s, k := s0, k0;
    while true
      invariant 0 < |s| <= |s0| && (DigitsValue(s) + 1) * Pow(10, |s0| - |s|) == DigitsValue(s0) + 1
      decreases |s|
    {
      var last := s[|s| - 1];
      if last != 9 {
        ghost var t := s;
        s := s[..|s| - 1] + [last + 1];
        DigitsSnoc(t[..|t| - 1], last + 1);
        return;
      }
      ghost var p := Pow(10, |s0| - |s|);
      PowStep(10, |s0| - |s|);
      assert (DigitsValue(s) + 1) * p == (DigitsValue(s[..|s| - 1]) + 1) * (10 * p) by {
        TenFold(DigitsValue(s[..|s| - 1]) + 1, p);
      }
      if |s| == 1 {
        assert DigitsValue(s[..0]) == 0;
        k := k + 1;
        s := [1];
        DigitsSnoc([], 1);
        assert [] + [1] == s;
        return;
      }
      s := s[..|s| - 1];
    }
  }

  lemma TenFold(a: int, p: int)
    ensures (10 * a) * p == a * (10 * p)
  {}

  ghost predicate Number(st: Store, b: Bigint)
    reads st, b
  {
    b.Valid() && b.Normal() && b !in st.free && b.k <= 14
  }

  /** The divisor and the two half-gaps, which may be one object. */
  ghost predicate Gaps(st: Store, S: Bigint, mlo: Bigint, mhi: Bigint)
    reads st, S, mlo, mhi
  {
    && Number(st, S) && Number(st, mlo) && Number(st, mhi)
    && Divisor(S) && S.k <= 13 && S != mlo && S != mhi
    && mlo.wds >= 1 && mhi.wds >= 1 && 0 < mlo.Value() <= mhi.Value()
  }

  /** How b compares with S - mhi; positive if mhi alone exceeds S. */
  method UpperTest(st: Store, b: Bigint, S: Bigint, mhi: Bigint) returns (j1: int)
    requires st.Valid() && Number(st, b) && Number(st, S) && Number(st, mhi)
    requires S.wds >= 1 && mhi.wds >= 1 && mhi.Value() > 0
    modifies st, st.free
    ensures st.Valid() && Number(st, b) && Number(st, S) && Number(st, mhi) && fresh(st.free - old(st.free))
    ensures j1 > 0 <==> b.Value() + mhi.Value() > S.Value()
    ensures j1 == 0 ==> b.Value() + mhi.Value() == S.Value()
    ensures j1 < 0 ==> b.Value() + mhi.Value() < S.Value() || b.Value() == 0
  {
    hide Pow, PowFrom, Val;
    var delta := Diff(st, S, mhi);
    if delta.sign {
      j1 := 1;
    } else {
      NormalBounds(delta);
      if b.wds > 0 {
        NormalBounds(b);
      }
      j1 := Cmp(b, delta);
    }
    st.Bfree(delta);
  }

  /** One digit, and how the remainder compares with the gaps below and above. */
  method Compare(st: Store, b: Bigint, S: Bigint, mlo: Bigint, mhi: Bigint) returns (dig: Digit, j: int, j1: int)
    requires st.Valid() && Gaps(st, S, mlo, mhi) && Number(st, b) && b != S && b != mlo && b != mhi
    requires b.wds >= 1 && b.Value() < 10 * S.Value()
    modifies st, st.free, b
    ensures st.Valid() && Gaps(st, S, mlo, mhi) && Number(st, b) && fresh(st.free - old(st.free))
    ensures old(b.Value()) == dig * S.Value() + b.Value() && b.Value() < S.Value()
    ensures b.wds == 0 ==> |b.x| > 0 && b.x[0] == 0
    ensures (j < 0 <==> b.Value() < mlo.Value()) && (j == 0 <==> b.Value() == mlo.Value())
    ensures j1 > 0 <==> b.Value() + mhi.Value() > S.Value()
    ensures j1 == 0 ==> b.Value() + mhi.Value() == S.Value()
    ensures j1 < 0 ==> b.Value() + mhi.Value() < S.Value() || b.Value() == 0
  {
    PowPositive(2, b.k);
    var q := QuoRem(b, S);
    dig := q;
    j := Cmp(b, mlo);
    j1 := UpperTest(st, b, S, mhi);
  }

  /** The final rounding test: is the remainder past the middle, or in the middle after an odd digit? */
  method PastMiddle(st: Store, b: Bigint, S: Bigint, dig: Digit) returns (up: bool)
    requires st.Valid() && Number(st, b) && Number(st, S) && Divisor(S) && S.k <= 13
    requires b != S && 0 < b.Value() < S.Value()
    modifies st, st.free
    ensures st.Valid() && fresh(st.free - old(st.free) - {b})
    ensures up <==> 2 * b.Value() > S.Value() || (2 * b.Value() == S.Value() && dig % 2 == 1)
  {
    SmallerFits(b, S);
    PowersOfTwo();
    var b2 := Lshift(st, b, 1);
    var j1 := Cmp(b2, S);
    up := j1 > 0 || (j1 == 0 && dig % 2 == 1);
    st.Bfree(b2);
  }

  lemma SmallerFits(b: Bigint, S: Bigint)
    requires b.Valid() && b.Normal() && S.Valid() && S.Normal() && 0 < b.Value() <= S.Value() && S.k <= 13
    ensures 0 < b.wds <= 0x2000 && Pow(2, KMAX) == 0x8000 && Pow(2, 14) == 0x4000
  {
    FewerWords(b, S);
    PowMonotone(2, S.k, 13);
    PowersOfTwo();
  }

  /** Ten times a number no larger than the divisor. */
  method TimesTen(st: Store, b: Bigint, ghost S: Bigint) returns (r: Bigint)
    requires st.Valid() && Number(st, b) && Number(st, S) && S.k <= 13 && b != S
    requires 0 < b.Value() <= S.Value()
    modifies st, st.free, b
    ensures st.Valid() && Number(st, r) && r.wds >= 1 && r.Value() == 10 * old(b.Value())
    ensures fresh(st.free + {r} - old(st.free) - {b})
  {
    SmallerFits(b, S);
    r := MultAdd(st, b, 10, 0);
  }

  /** What the tests of one turn decide. */
  datatype Action = Keep | Emit(d: Digit) | RoundUpNine

  /** Remainder r against divisor s and half-gaps lo and hi: neither the digit nor the next one will do. */
  ghost predicate NeitherWillDo(r: nat, s: nat, lo: nat, hi: nat, even: bool) {
    r >= lo && r + hi <= s && (even ==> r > lo && r + hi < s)
  }

  /** The digit will do, and the next one is no better, or only as good and odd. */
  ghost predicate DigitWillDo(r: nat, s: nat, lo: nat, hi: nat, even: bool, dig: nat) {
    && (r < lo || (r == lo && even)) && (2 * r <= s || r + hi < s || (r + hi == s && !even))
    && (2 * r == s && r + hi > s ==> dig % 2 == 0)
  }

  /** The next digit up will do. */
  ghost predicate NextWillDo(r: nat, s: nat, hi: nat, even: bool) {
    r + hi > s || (r + hi == s && even)
  }

  /** ... and the digit itself is no better, or only as good and odd. */
  ghost predicate DigitNoBetter(r: nat, s: nat, lo: nat, even: bool, dig: nat) {
    (2 * r >= s || r > lo || (r == lo && !even)) && (2 * r == s && r < lo ==> dig % 2 == 1)
  }

  /** The tests after a quotient digit, in the order the source makes them; b is spent by the rounding test. */
  method Settle(st: Store, b: Bigint, S: Bigint, even: bool, dig: Digit, j: int, j1: int, ghost lo: nat, ghost hi: nat)
    returns (act: Action)
    requires st.Valid() && Number(st, b) && Number(st, S) && Divisor(S) && S.k <= 13 && b != S
    requires b.Value() < S.Value() && (b.wds == 0 ==> |b.x| > 0 && b.x[0] == 0) && 0 < lo <= hi
    requires (j < 0 <==> b.Value() < lo) && (j == 0 <==> b.Value() == lo)
    requires j1 > 0 <==> b.Value() + hi > S.Value()
    requires j1 == 0 ==> b.Value() + hi == S.Value()
    requires j1 < 0 ==> b.Value() + hi < S.Value() || b.Value() == 0
    modifies st, st.free
    ensures st.Valid() && fresh(st.free - old(st.free) - {b})
    ensures act.Keep? ==> st.free == old(st.free) && NeitherWillDo(old(b.Value()), S.Value(), lo, hi, even)
    ensures act == Emit(dig) ==> DigitWillDo(old(b.Value()), S.Value(), lo, hi, even, dig)
    ensures act.Emit? && act.d != dig ==>
      act.d == dig + 1 && NextWillDo(old(b.Value()), S.Value(), hi, even) && DigitNoBetter(old(b.Value()), S.Value(), lo, even, dig)
    ensures act.RoundUpNine? ==> dig == 9 && NextWillDo(old(b.Value()), S.Value(), hi, even)
    ensures act.RoundUpNine? ==>
      DigitNoBetter(old(b.Value()), S.Value(), lo, even, dig) || (old(b.Value()) + hi == S.Value() && even)
  {
    ZeroTest(b);
    if j1 == 0 && even {
      if dig == 9 {
        return RoundUpNine;
      }
      return Emit(if j > 0 then dig + 1 else dig);
    }
    if j < 0 || (j == 0 && even) {
      if b.x[0] == 0 && b.wds <= 1 {
        return Emit(dig);
      }
      if j1 > 0 {
        var up := PastMiddle(st, b, S, dig);
        if up {
          return if dig == 9 then RoundUpNine else Emit(dig + 1);
        }
      }
      return Emit(dig);
    }
    if j1 > 0 {
      return if dig == 9 then RoundUpNine else Emit(dig + 1);
    }
    return Keep;
  }

  lemma ZeroTest(b: Bigint)
    requires b.Valid() && b.Normal() && (b.wds == 0 ==> |b.x| > 0 && b.x[0] == 0)
    ensures |b.x| > 0 && (b.Value() == 0 <==> b.x[0] == 0 && b.wds <= 1)
  {
    PowPositive(2, b.k);
    if b.wds > 0 {
      NormalBounds(b);
    } else {
      NoWords(b);
    }
  }

  /** The numbers held by the loop's objects. */
  ghost predicate Holds(b: Bigint, S: Bigint, mlo: Bigint, mhi: Bigint, g: Target, n: nat, p: nat)
    requires b.Valid() && S.Valid() && mlo.Valid() && mhi.Valid()
    reads b, S, mlo, mhi
  {
    S.Value() == g.S && Progress(g, n, p, b.Value(), mlo.Value(), mhi.Value())
  }

  /** b, mlo and mhi times ten, keeping the two gaps one object if they were. */
  method NextRound(st: Store, b0: Bigint, S: Bigint, mlo0: Bigint, mhi0: Bigint) returns (b: Bigint, mlo: Bigint, mhi: Bigint)
    requires st.Valid() && Gaps(st, S, mlo0, mhi0) && Number(st, b0) && b0 != S && b0 != mlo0 && b0 != mhi0
    requires 0 < b0.Value() <= S.Value() && mhi0.Value() <= S.Value()
    modifies st, st.free, b0, mlo0, mhi0
    ensures st.Valid() && Gaps(st, S, mlo, mhi) && Number(st, b) && b != S && b != mlo && b != mhi && b.wds >= 1
    ensures b.Value() == 10 * old(b0.Value()) && S.Value() == old(S.Value())
    ensures mlo.Value() == 10 * old(mlo0.Value()) && mhi.Value() == 10 * old(mhi0.Value())
    ensures fresh(st.free + {b, mlo, mhi} - old(st.free) - {b0, mlo0, mhi0})
  {
    b := TimesTen(st, b0, S);
    if mlo0 == mhi0 {
      mhi := TimesTen(st, mhi0, S);
      mlo := mhi;
    } else {
      mlo := TimesTen(st, mlo0, S);
      mhi := TimesTen(st, mhi0, S);
    }
  }

  /** When the value and its upper half-gap make exactly ten units, the half-gap is less than half a unit. */
  ghost predicate NoTieAtTen(g: Target) {
    g.even && g.b + g.hi == 10 * g.S ==> 2 * g.hi < g.S
  }

  /** One turn's outcome: a digit, a remainder, and an action the tests justify. */
  ghost predicate Justified(v: nat, s: nat, lo: nat, hi: nat, even: bool, dig: Digit, r: nat, act: Action) {
    && v == dig * s + r && r < s
    && (act.Keep? ==> NeitherWillDo(r, s, lo, hi, even))
    && (act == Emit(dig) ==> DigitWillDo(r, s, lo, hi, even, dig))
    && (act.Emit? && act.d != dig ==> act.d == dig + 1 && NextWillDo(r, s, hi, even) && DigitNoBetter(r, s, lo, even, dig))
    && (act.RoundUpNine? ==> dig == 9 && NextWillDo(r, s, hi, even))
    && (act.RoundUpNine? ==> DigitNoBetter(r, s, lo, even, dig) || (r + hi == s && even))
  }

  /** A quotient digit and the tests on what it leaves. */
  method Turn(st: Store, b: Bigint, S: Bigint, mlo: Bigint, mhi: Bigint, even: bool) returns (dig: Digit, act: Action)
    requires st.Valid() && Gaps(st, S, mlo, mhi) && Number(st, b) && b != S && b != mlo && b != mhi
    requires b.wds >= 1 && b.Value() < 10 * S.Value()
    modifies st, st.free, b
    ensures st.Valid() && Gaps(st, S, mlo, mhi) && b.Valid()
    ensures Justified(old(b.Value()), S.Value(), mlo.Value(), mhi.Value(), even, dig, b.Value(), act)
    ensures act.Keep? ==> Number(st, b)
    ensures fresh(st.free - old(st.free) - {b})
  {
    var j, j1;
    dig, j, j1 := Compare(st, b, S, mlo, mhi);
    act := Settle(st, b, S, even, dig, j, j1, mlo.Value(), mhi.Value());
  }

  /** What stopping after n kept digits with value p establishes. */
  lemma Stopped(g: Target, n: nat, p: nat, b: nat, lo: nat, hi: nat, dig: Digit, r: nat, act: Action)
    requires Progress(g, n, p, b, lo, hi) && Justified(b, g.S, lo, hi, g.even, dig, r, act) && NoTieAtTen(g)
    requires n > 0 ==> NothingHits(g, n)
    requires !act.Keep?
    ensures act.Emit? ==> Best(g, 10 * p + act.d, n + 1)
    ensures act.RoundUpNine? ==> n == 0 && Best(g, 10, 1)
  {
    if act == Emit(dig) {
      StopBelow(g, n, p, b, lo, hi, dig, r);
    } else if act.Emit? {
      StopAbove(g, n, p, b, lo, hi, dig, r);
    } else {
      RoundedUpNine(g, n, p, b, lo, hi, r);
    }
  }

  lemma GapsAtStart(g: Target, p: nat, b: nat, lo: nat, hi: nat)
    requires Progress(g, 0, p, b, lo, hi)
    ensures p == 0 && lo == g.lo && hi == g.hi && b == g.b && g.S > 0
  {
    PowStep(10, 0);
  }

  lemma RoundedUpNine(g: Target, n: nat, p: nat, b: nat, lo: nat, hi: nat, r: nat)
    requires Progress(g, n, p, b, lo, hi) && b == 9 * g.S + r && r < g.S && NoTieAtTen(g)
    requires NextWillDo(r, g.S, hi, g.even)
    requires DigitNoBetter(r, g.S, lo, g.even, 9) || (r + hi == g.S && g.even)
    ensures n == 0 && Best(g, 10, 1)
  {
    hide Pow, PowFrom, Progress, NothingHits, Best;
    NineUpOnlyFirst(g, n, p, b, lo, hi, r);
    GapsAtStart(g, p, b, lo, hi);
    StopAbove(g, 0, 0, b, lo, hi, 9, r);
  }

  /** The digit string and exponent at the end of the loop. */
  method Finish(s0: seq<Digit>, k0: int, dig: Digit, act: Action,
      ghost g: Target, ghost p: nat, ghost b: nat, ghost lo: nat, ghost hi: nat, ghost r: nat)
    returns (s: seq<Digit>, k: int)
    requires Progress(g, |s0|, p, b, lo, hi) && p == DigitsValue(s0) && Justified(b, g.S, lo, hi, g.even, dig, r, act)
    requires NoTieAtTen(g) && g.S <= g.b && !act.Keep?
    requires |s0| > 0 ==> NothingHits(g, |s0|) && s0[0] != 0
    ensures |s| > 0 && s[0] != 0
    ensures if k == k0 then Best(g, DigitsValue(s), |s|) else k == k0 + 1 && s == [1] && Best(g, 10, 1)
  {
    Stopped(g, |s0|, p, b, lo, hi, dig, r, act);
    FirstDigit(g, |s0|, p, b, lo, hi, dig, r);
    if act.Emit? {
      DigitsSnoc(s0, act.d);
      s, k := s0 + [act.d], k0;
    } else {
      DigitsSnoc([], 9);
      assert [] + [9] == s0 + [9];
      s, k := RoundOff(s0 + [9], k0);
      PowStep(10, 0);
      if k == k0 {
        OneDigit(s);
      }
    }
  }

  lemma OneDigit(s: seq<Digit>)
    requires |s| == 1
    ensures DigitsValue(s) <= 9
  {
    DigitsSnoc([], s[0]);
    assert [] + [s[0]] == s;
  }

  lemma FirstDigit(g: Target, n: nat, p: nat, b: nat, lo: nat, hi: nat, dig: Digit, r: nat)
    requires Progress(g, n, p, b, lo, hi) && b == dig * g.S + r && r < g.S && g.S <= g.b
    ensures n == 0 ==> dig != 0
  {
    if n == 0 {
      PowStep(10, 0);
    }
  }

  /** What keeping a digit leaves for the next turn. */
  lemma Kept(g: Target, n: nat, p: nat, b: nat, lo: nat, hi: nat, dig: Digit, r: nat)
    requires Progress(g, n, p, b, lo, hi) && Justified(b, g.S, lo, hi, g.even, dig, r, Keep)
    ensures Progress(g, n + 1, 10 * p + dig, 10 * r, 10 * lo, 10 * hi) && NothingHits(g, n + 1)
    ensures 0 < lo <= r <= g.S && 0 < hi <= g.S
  {
    KeepDigit(g, n, p, b, lo, hi, dig, r);
    PowPositive(10, n);
    MulPositive(g.lo, Pow(10, n));
    MulPositive(g.hi, Pow(10, n));
  }

  /** The loop's invariant on its objects and on what they hold after n digits with value p. */
  ghost predicate Running(st: Store, b: Bigint, S: Bigint, mlo: Bigint, mhi: Bigint, g: Target, n: nat, p: nat)
    reads st, b, S, mlo, mhi
  {
    && Gaps(st, S, mlo, mhi) && Number(st, b) && b != S && b != mlo && b != mhi && b.wds >= 1
    && Holds(b, S, mlo, mhi, g, n, p)
    && NoTieAtTen(g) && g.S <= g.b && (n > 0 ==> NothingHits(g, n))
  }

  /** One pass through the loop body: either the string is finished, or it grows by a digit. */
  method Pass(st: Store, b0: Bigint, S: Bigint, mlo0: Bigint, mhi0: Bigint, even: bool, s0: seq<Digit>, k0: int, ghost g: Target)
    returns (done: bool, s: seq<Digit>, k: int, b: Bigint, mlo: Bigint, mhi: Bigint)
    requires st.Valid() && Running(st, b0, S, mlo0, mhi0, g, |s0|, DigitsValue(s0)) && g.even == even
    requires |s0| > 0 ==> s0[0] != 0
    modifies st, st.free, b0, mlo0, mhi0
    ensures st.Valid() && |s| > 0 && s[0] != 0
    ensures done ==> if k == k0 then Best(g, DigitsValue(s), |s|) else k == k0 + 1 && s == [1] && Best(g, 10, 1)
    ensures !done ==> k == k0 && Running(st, b, S, mlo, mhi, g, |s|, DigitsValue(s))
    ensures !done ==> mhi.Value() > old(mhi0.Value()) && old(mhi0.Value()) <= g.S
    ensures fresh(st.free + {b, mlo, mhi} - old(st.free) - {b0, mlo0, mhi0})
  {
    hide Pow, PowFrom, Val, DigitsValue, Best, NothingHits, Justified;
    b, mlo, mhi := b0, mlo0, mhi0;
    ghost var n, p, v, lo, hi := |s0|, DigitsValue(s0), b.Value(), mlo.Value(), mhi.Value();
    var dig, act := Turn(st, b, S, mlo, mhi, even);
    FirstDigit(g, n, p, v, lo, hi, dig, b.Value());
    done := !act.Keep?;
    if done {
      s, k := Finish(s0, k0, dig, act, g, p, v, lo, hi, b.Value());
    } else {
      Kept(g, n, p, v, lo, hi, dig, b.Value());
      DigitsSnoc(s0, dig);
      s, k := s0 + [dig], k0;
      b, mlo, mhi := NextRound(st, b, S, mlo, mhi);
    }
  }

  /** The loop. Its digits hit the interval, nothing shorter does, and nothing of the same length is closer. */
  method GenerateDigits(st: Store, b0: Bigint, S: Bigint, mlo0: Bigint, mhi0: Bigint, even: bool, k0: int, ghost g: Target)
    returns (s: seq<Digit>, k: int)
    requires st.Valid() && Running(st, b0, S, mlo0, mhi0, g, 0, 0) && g.even == even
    modifies st, st.free, b0, mlo0, mhi0
    ensures st.Valid() && |s| > 0 && s[0] != 0
    ensures if k == k0 then Best(g, DigitsValue(s), |s|) else k == k0 + 1 && s == [1] && Best(g, 10, 1)
    ensures fresh(st.free - old(st.free) - {b0, mlo0, mhi0})
  {
    var b, mlo, mhi := b0, mlo0, mhi0;
    ghost var blocks := st.free + {b0, mlo0, mhi0};
    var done := false;
    s, k := [], k0;
    while !done
      invariant st.Valid() && (|s| > 0 ==> s[0] != 0) && (done ==> |s| > 0)
      invariant done ==> if k == k0 then Best(g, DigitsValue(s), |s|) else k == k0 + 1 && s == [1] && Best(g, 10, 1)
      invariant !done ==> k == k0 && Running(st, b, S, mlo, mhi, g, |s|, DigitsValue(s))
      invariant fresh(st.free + {b, mlo, mhi} - blocks)
      decreases !done, if done then 0 else g.S - mhi.Value()
    {
      done, s, k, b, mlo, mhi := Pass(st, b, S, mlo, mhi, even, s, k, g);
    }
  }
}
