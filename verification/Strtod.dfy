/**
 * Reading a decimal (strtod in dtoa.cpp): the digits as a bignum, and the integer core of the correction
 * loop, which compares a candidate with the decimal to within exactly half an ulp.
 */
module Strtod {
  import opened Powers
  import opened Words
  import opened Bigints
  import opened BigintOps
  import opened Pow5
  import opened Doubles
  import opened DoubleBits
  import opened FreeFormat
  import opened Scaling
  import opened Shortest
  import opened DigitLoop
  import opened Dtoa
  import opened Correction

  // The digits (s2b).

  /** nd digits, a decimal point standing after the first nd0 if there are more. */
  predicate IsNumeral(s: string, nd0: nat, nd: nat) {
    && nd0 <= nd && |s| >= nd + (if nd0 < nd then 1 else 0)
    && (forall i :: 0 <= i < nd ==> '0' <= s[At(nd0, i)] <= '9')
  }

  /** Where digit i stands. */
  function At(nd0: nat, i: nat): nat {
    if i < nd0 then i else i + 1
  }

  /** The number the first i digits denote. */
  function Numeral(s: string, nd0: nat, nd: nat, i: nat): nat
    requires IsNumeral(s, nd0, nd) && i <= nd
  {
    if i == 0 then 0 else 10 * Numeral(s, nd0, nd, i - 1) + (s[At(nd0, i - 1)] as int - '0' as int)
  }

  /** A digit's value. */
  function Worth(c: char): Digit
    requires '0' <= c <= '9'
  {
    c as int - '0' as int
  }

  /** The digits of a text without a point. */
  function AsDigits(t: string): (ds: seq<Digit>)
    requires forall i :: 0 <= i < |t| ==> '0' <= t[i] <= '9'
    ensures |ds| == |t|
  {
    seq(|t|, i requires 0 <= i < |t| => Worth(t[i]))
  }

  /** The characters of a numeral with the point left out. */
  function WithoutPoint(s: string, nd0: nat, nd: nat): (t: string)
    requires IsNumeral(s, nd0, nd)
    ensures |t| == nd && forall i :: 0 <= i < nd ==> '0' <= t[i] <= '9'
  {
    var t := s[..nd0] + if nd0 < nd then s[nd0 + 1..nd + 1] else [];
    assert forall i :: 0 <= i < nd ==> t[i] == s[At(nd0, i)];
    t
  }

  /** A numeral, with or without a point, has the value of its digits. */
  lemma NumeralIsDigits(s: string, nd0: nat, nd: nat)
    requires IsNumeral(s, nd0, nd)
    ensures Numeral(s, nd0, nd, nd) == DigitsValue(AsDigits(WithoutPoint(s, nd0, nd)))
  {
    NumeralIsPrefix(s, nd0, nd, nd);
    var ds := AsDigits(WithoutPoint(s, nd0, nd));
    assert ds[..nd] == ds;
  }

  lemma {:induction false} NumeralIsPrefix(s: string, nd0: nat, nd: nat, i: nat)
    requires IsNumeral(s, nd0, nd) && i <= nd
    ensures Numeral(s, nd0, nd, i) == DigitsValue(AsDigits(WithoutPoint(s, nd0, nd))[..i])
  {
    if i > 0 {
      var t := WithoutPoint(s, nd0, nd);
      var ds := AsDigits(t);
      NumeralIsPrefix(s, nd0, nd, i - 1);
      assert ds[..i] == ds[..i - 1] + [ds[i - 1]];
      DigitsSnoc(ds[..i - 1], ds[i - 1]);
      assert t[i - 1] == s[At(nd0, i - 1)];
    }
  }

  /** Digits as text, with a point after the first nd0 of them if there are more. */
  function AsText(ds: seq<Digit>, nd0: nat): (s: string)
    requires nd0 <= |ds|
  {
    var t := seq(|ds|, i requires 0 <= i < |ds| => ('0' as int + ds[i]) as char);
    if nd0 < |ds| then t[..nd0] + "." + t[nd0..] else t
  }

  /** The text is a numeral for the digits it was made from. */
  lemma TextIsNumeral(ds: seq<Digit>, nd0: nat)
    requires nd0 <= |ds|
    ensures IsNumeral(AsText(ds, nd0), nd0, |ds|) && AsDigits(WithoutPoint(AsText(ds, nd0), nd0, |ds|)) == ds
  {
    var s := AsText(ds, nd0);
    forall i | 0 <= i < |ds|
      ensures At(nd0, i) < |s| && s[At(nd0, i)] == ('0' as int + ds[i]) as char
    {}
    var t := WithoutPoint(s, nd0, |ds|);
    forall i | 0 <= i < |ds|
      ensures t[i] == s[At(nd0, i)]
    {}
  }

  lemma {:induction false} NumeralBelow(s: string, nd0: nat, nd: nat, i: nat)
    requires IsNumeral(s, nd0, nd) && i <= nd
    ensures Numeral(s, nd0, nd, i) < Pow(10, i)
  {
    PowStep(10, 0);
    if i > 0 {
      NumeralBelow(s, nd0, nd, i - 1);
      PowStep(10, i - 1);
      assert '0' <= s[At(nd0, i - 1)] <= '9';
    }
  }

  /** Nine digits fit one word, so x words hold nine times as many digits. */
  lemma NineDigitsPerWord(nd: nat, x: nat, words: nat)
    requires nd <= 9 * x && x <= words
    ensures Pow(10, nd) <= Pow(BASE, words)
  {
    PowMonotone(10, nd, 9 * x);
    PowPow(10, 9, x);
    PowStep(10, 0);
    PowAdd(10, 1, 1);
    PowAdd(10, 2, 2);
    PowAdd(10, 4, 4);
    PowAdd(10, 8, 1);
    PowBaseMonotone(1_000_000_000, BASE, x);
    PowMonotone(BASE, x, words);
  }

  /** One more digit, without outgrowing the block. */
  method AppendDigit(st: Store, b0: Bigint, s: string, nd0: nat, nd: nat, i: nat) returns (b: Bigint)
    requires st.Valid() && b0 !in st.free && b0.Valid() && b0.Normal() && b0.wds >= 1
    requires IsNumeral(s, nd0, nd) && i < nd && b0.Value() == Numeral(s, nd0, nd, i)
    requires Pow(10, nd) <= Pow(BASE, Pow(2, b0.k))
    modifies st, st.free, b0
    ensures st.Valid() && b !in st.free && b.Valid() && b.Normal() && b.wds >= 1 && b.k == b0.k
    ensures b.Value() == Numeral(s, nd0, nd, i + 1)
    ensures fresh(st.free + {b} - old(st.free) - {b0})
  {
    hide Pow, PowFrom, Val;
    NumeralBelow(s, nd0, nd, i + 1);
    PowMonotone(10, i + 1, nd);
    b := MultAdd(st, b0, 10, s[At(nd0, i)] as int - '0' as int);
  }

  /** The digits from i up to n, read from position p on. */
  method AppendDigits(st: Store, b0: Bigint, s: string, nd0: nat, nd: nat, i0: nat, p0: nat, n: nat) returns (b: Bigint, p: nat)
    requires st.Valid() && b0 !in st.free && b0.Valid() && b0.Normal() && b0.wds >= 1
    requires IsNumeral(s, nd0, nd) && i0 <= n <= nd && b0.Value() == Numeral(s, nd0, nd, i0)
    requires p0 == At(nd0, i0) || i0 == n
    requires n <= nd0 || nd0 <= i0
    requires Pow(10, nd) <= Pow(BASE, Pow(2, b0.k))
    modifies st, st.free, b0
    ensures st.Valid() && b !in st.free && b.Valid() && b.Normal() && b.wds >= 1 && b.k == b0.k
    ensures b.Value() == Numeral(s, nd0, nd, n) && p == p0 + (n - i0)
    ensures fresh(st.free + {b} - old(st.free) - {b0})
  {
    hide Numeral, Val, Pow, PowFrom;
    ghost var blocks := st.free + {b0};
    b, p := b0, p0;
    var i := i0;
    while i < n
      invariant i0 <= i <= n && p == p0 + (i - i0)
      invariant st.Valid() && b !in st.free && b.Valid() && b.Normal() && b.wds >= 1 && b.k == b0.k
      invariant b.Value() == Numeral(s, nd0, nd, i) && fresh(st.free + {b} - blocks)
    {
      assert p == At(nd0, i);
      b := AppendDigit(st, b, s, nd0, nd, i);
      p, i := p + 1, i + 1;
    }
  }

  /** A word in a block of class k. */
  method OneWordNumber(st: Store, k: nat, w: Word) returns (b: Bigint)
    requires st.Valid() && k <= KMAX
    modifies st, st.free
    ensures st.Valid() && b !in st.free && b.Valid() && b.Normal() && b.wds == 1 && b.k == k && b.Value() == w
    ensures fresh(st.free + {b} - old(st.free))
  {
    b := st.Balloc(k);
    PowPositive(2, k);
    b.x := b.x[0 := w];
    b.wds := 1;
    OneWord(b);
  }

  /** The number the digits denote; y9 is the value of the first nine. */
  method S2b(st: Store, s: string, nd0: nat, nd: nat, y9: Word) returns (b: Bigint)
    requires st.Valid() && IsNumeral(s, nd0, nd) && 0 < nd <= 9 * 0x8000
    requires y9 == Numeral(s, nd0, nd, if nd < 9 then nd else 9)
    modifies st, st.free
    ensures st.Valid() && b !in st.free && b.Valid() && b.Normal() && b.wds >= 1
    ensures b.Value() == Numeral(s, nd0, nd, nd) == DigitsValue(AsDigits(WithoutPoint(s, nd0, nd)))
    ensures b.k == 0 || 9 * Pow(2, b.k - 1) < nd + 8
    ensures fresh(st.free + {b} - old(st.free))
  {
    hide Numeral, Val, Pow, PowFrom;
    NumeralIsDigits(s, nd0, nd);
    var k := FittingClass(0, (nd + 8) / 9);
    SmallEnough(k, (nd + 8) / 9);
    b := OneWordNumber(st, k, y9);
    NineDigitsPerWord(nd, (nd + 8) / 9, Pow(2, k));
    if nd > 9 {
      var p := 10;
      if 9 < nd0 {
        b, p := AppendDigits(st, b, s, nd0, nd, 9, 9, nd0);
        p := p + 1;
      }
      b, p := AppendDigits(st, b, s, nd0, nd, if 9 < nd0 then nd0 else 9, p, nd);
    }
  }

  lemma SmallEnough(k: nat, n: nat)
    requires n <= 0x8000 && (k == 0 || Pow(2, k - 1) < n)
    ensures k <= KMAX
  {
    PowersOfTwo();
    if k > KMAX {
      PowMonotone(2, KMAX, k - 1);
    }
  }

  // The head of the correction loop.

  /** The exponents of 2 and 5 that turn candidate, decimal and half an ulp into integers with no common factor of 2. */
  method ScaleExponents(ghost d: Double, ghost bm: nat, e: int, bbe: int, bbbits: nat)
    returns (bb2: nat, bb5: nat, bd2: nat, bd5: nat, bs2: nat)
    requires Representable(d) && OddParts(d, bm, bbe, bbbits) && d.e <= 971
    ensures bb2 - bs2 == bbe - d.e + 1 && bd2 - bs2 == e - d.e + 1 && bd5 - bb5 == e && (bb5 == 0 || bd5 == 0)
    ensures bb2 <= bb5 + 1140 && bd2 <= bd5 + 1140 && bs2 <= bb5 + 1140
  {
    if e >= 0 {
      bb2, bb5, bd2, bd5 := 0, 0, e, e;
    } else {
      bb2, bb5, bd2, bd5 := -e, -e, 0, 0;
    }
    if bbe >= 0 {
      bb2 := bb2 + bbe;
    } else {
      bd2 := bd2 - bbe;
    }
    bs2 := bb2;
    var j := bbe;
    SizeTellsSubnormals(d, bm, bbe, bbbits);
    if j + bbbits - 1 < -1022 {
      j := j + 53 + 1022;
    } else {
      j := 53 + 1 - bbbits;
    }
    bb2, bd2 := bb2 + j, bd2 + j;
    var i := if bb2 < bd2 then bb2 else bd2;
    if i > bs2 {
      i := bs2;
    }
    if i > 0 {
      bb2, bd2, bs2 := bb2 - i, bd2 - i, bs2 - i;
    }
  }

  lemma SizeTellsSubnormals(d: Double, bm: nat, be: int, bits: nat)
    requires Representable(d) && OddParts(d, bm, be, bits)
    ensures be + bits - 1 < -1022 <==> d.m < P52
  {
    if d.m < P52 {
      PowersOfTwo();
      PowAdd(2, bits - 1, be - d.e);
      MulLe(Pow(2, bits - 1), bm, Pow(2, be - d.e));
      if bits - 1 + be - d.e >= 52 {
        PowMonotone(2, 52, bits - 1 + be - d.e);
      }
    }
  }

  // What fits into blocks.

  const SPARE: nat := 1200

  ghost function SpareFactor(): nat {
    Pow(2, SPARE)
  }

  /** The decimal v * 10^e leaves room for the bignums of any candidate: a sufficient number of words below the largest block. */
  ghost predicate Roomy(v: nat, e: int) {
    Fits(v * Ten(e) * SpareFactor()) && Fits(Ten(-e) * SpareFactor())
  }

  /** c with n fives and q twos. */
  ghost function Grown(c: nat, n: nat, q: nat): nat {
    c * Pow(5, n) * Pow(2, q)
  }

  /** The twos that come with n fives make tens, but for q - n. */
  lemma AtMostTens(c: nat, n: nat, q: nat)
    requires q <= n + SPARE
    ensures Grown(c, n, q) <= c * Pow(10, n) * SpareFactor()
  {
    PowTen(n);
    PowAdd(2, n, SPARE);
    PowMonotone(2, q, n + SPARE);
    hide Pow, PowFrom;
    MulLe(Pow(2, q), Pow(2, n + SPARE), c * Pow(5, n));
    Regrouped(c, Pow(2, n), Pow(5, n), Pow(2, SPARE));
  }

  lemma Regrouped(c: int, t: int, f: int, s: int)
    ensures c * f * (t * s) == c * (t * f) * s
  {}

  lemma Commuted(a: int, b: int)
    ensures a * b == b * a
  {}

  /** The largest mantissa takes 53 of the spare twos. */
  lemma MantissaBelow(bm: nat, n: nat, q: nat)
    requires bm <= P53
    ensures Grown(bm, n, q) <= Grown(1, n, q + 53)
  {
    PowersOfTwo();
    PowAdd(2, q, 53);
    hide Pow, PowFrom;
    MulLe(bm, P53, Pow(5, n) * Pow(2, q));
    MulAssoc(bm, Pow(5, n), Pow(2, q));
    MulAssoc(P53, Pow(5, n), Pow(2, q));
    MulAssoc(Pow(5, n), Pow(2, q), P53);
    Commuted(P53, Pow(5, n) * Pow(2, q));
  }

  lemma ComparandsFit(v: nat, e: int, bm: nat, bb2: nat, bb5: nat, bd2: nat, bd5: nat, bs2: nat)
    requires Roomy(v, e) && bm <= P53 && bd5 - bb5 == e && (bb5 == 0 || bd5 == 0)
    requires bb2 <= bb5 + 1140 && bd2 <= bd5 + 1140 && bs2 <= bb5 + 1140
    ensures Fits(Grown(bm, bb5, bb2)) && Fits(Grown(v, bd5, bd2)) && Fits(Grown(1, bb5, bs2))
  {
    PowStep(10, 0);
    assert Ten(e) == Pow(10, bd5) && Ten(-e) == Pow(10, bb5);
    hide Pow, PowFrom, Fits, SpareFactor, Ten, Grown;
    MantissaBelow(bm, bb5, bb2);
    AtMostTens(1, bb5, bb2 + 53);
    AtMostTens(v, bd5, bd2);
    AtMostTens(1, bb5, bs2);
    SmallerFit(Grown(bm, bb5, bb2), Ten(-e) * SpareFactor());
    SmallerFit(Grown(v, bd5, bd2), v * Ten(e) * SpareFactor());
    SmallerFit(Grown(1, bb5, bs2), Ten(-e) * SpareFactor());
  }

  lemma TensFit(v: nat, n: nat)
    requires v <= Pow(10, n) && n <= 314_000
    ensures Fits(v * SpareFactor())
  {
    var p := 10 * (n / 3 + 1);
    PowTenBelow(n);
    PowAdd(2, p, SPARE);
    MulLe(v, Pow(2, p), SpareFactor());
    SmallEnoughPower(p + SPARE);
    SmallerFit(v * SpareFactor(), Pow(2, p + SPARE));
  }

  lemma SmallEnoughPower(p: nat)
    requires p < 32 * 0x7fff
    ensures Fits(Pow(2, p))
  {
    var n := p / 32 + 1;
    assert Pow(2, 32) == BASE && n < Pow(2, KMAX) by { PowersOfTwo(); }
    PowPow(2, 32, n);
    PowMonotone(2, p + 1, 32 * n);
    PowStep(2, p);
    PowPositive(2, p);
  }

  /** Every numeral that finds a block, with every exponent that could come with it, leaves that room. */
  lemma NumeralsAreRoomy(v: nat, nd: nat, e: int)
    requires v < Pow(10, nd)
    requires if e >= 0 then nd + e <= 314_000 else nd <= 314_000 && -e <= 314_000
    ensures Roomy(v, e)
  {
    var t: nat := if e >= 0 then e else 0;
    PowStep(10, 0);
    PowAdd(10, nd, t);
    MulLe(v, Pow(10, nd), Ten(e));
    hide Pow, PowFrom, Fits, SpareFactor;
    TensFit(v * Ten(e), nd + t);
    TensFit(Ten(-e), if e >= 0 then 0 else -e);
  }

  /** b * 5^k, if there is anything to multiply by. */
  method FivesInto(st: Store, table: Pow5Table, b0: Bigint, k: nat) returns (b: Bigint)
    requires st.Valid() && table.Valid(st) && Operand(st, table, b0) && Fits(b0.Value() * Pow(5, k))
    modifies st, st.free, table, b0
    ensures st.Valid() && table.Valid(st) && Operand(st, table, b) && b.Value() == old(b0.Value()) * Pow(5, k)
    ensures fresh(st.free + {b} - old(st.free) - {b0}) && fresh(table.Nodes() - old(st.free + table.Nodes()) - {b0})
  {
    b := b0;
    PowStep(5, 0);
    hide Pow, PowFrom, Val, Fits;
    if k > 0 {
      b := Pow5Mult(st, table, b, k);
    }
  }

  /** Factors of a product that fits. */
  lemma FactorsFit(v: nat, k: nat, m: nat)
    requires v > 0 && Fits(Grown(v, k, m))
    ensures Pow(5, k) > 0 && Fits(v * Pow(5, k)) && Fits(Pow(5, k)) && Fits(Pow(5, k) * v)
  {
    PowPositive(5, k);
    PowPositive(2, m);
    hide Pow, PowFrom;
    MulAtLeast(v * Pow(5, k), Pow(2, m));
    MulAtLeast(Pow(5, k), v);
    SmallerFit(v * Pow(5, k), v * Pow(5, k) * Pow(2, m));
    SmallerFit(Pow(5, k), v * Pow(5, k));
  }

  /** The candidate and half an ulp with their fives, the candidate also with its twos. */
  method ScaleCandidate(st: Store, table: Pow5Table, bb0: Bigint, bb2: nat, bb5: nat) returns (bb: Bigint, bs: Bigint)
    requires st.Valid() && table.Valid(st) && Operand(st, table, bb0) && Fits(Grown(bb0.Value(), bb5, bb2))
    modifies st, st.free, table, bb0
    ensures st.Valid() && table.Valid(st) && Operand(st, table, bb) && Operand(st, table, bs) && bb != bs
    ensures bb.Value() == old(bb0.Value()) * Pow(5, bb5) * Pow(2, bb2) && bs.Value() == Pow(5, bb5)
    ensures fresh(st.free + {bb, bs} - old(st.free) - {bb0}) && fresh(table.Nodes() - old(st.free + table.Nodes()) - {bb0})
  {
    hide Pow, PowFrom, Val, Fits, Snug;
    PowStep(5, 0);
    FactorsFit(bb0.Value(), bb5, bb2);
    bs := FiveNumber(st, table, bb5);
    bb := bb0;
    if bb5 > 0 {
      ProductFits(bs, bb0);
      bb := Absorb(st, table, bs, bb0);
    }
    bb := ShiftBy(st, table, bb, bb2);
  }

  /** Candidate, decimal and half an ulp as bignums, whenever they fit. */
  method ScaleNumbers(st: Store, table: Pow5Table, bb0: Bigint, bd0: Bigint, bb2: nat, bb5: nat, bd2: nat, bd5: nat, bs2: nat)
    returns (bb: Bigint, bd: Bigint, bs: Bigint)
    requires st.Valid() && table.Valid(st) && Operand(st, table, bb0) && Operand(st, table, bd0) && bb0 != bd0
    requires Fits(Grown(bb0.Value(), bb5, bb2)) && Fits(Grown(bd0.Value(), bd5, bd2))
    requires Fits(Grown(1, bb5, bs2))
    modifies st, st.free, table, bb0, bd0
    ensures st.Valid() && table.Valid(st) && Operand(st, table, bb) && Operand(st, table, bd) && Operand(st, table, bs)
    ensures bb.Value() == old(bb0.Value()) * Pow(5, bb5) * Pow(2, bb2)
    ensures bd.Value() == old(bd0.Value()) * Pow(5, bd5) * Pow(2, bd2)
    ensures bs.Value() == Pow(5, bb5) * Pow(2, bs2) && Fits(bs.Value())
    ensures fresh(st.free + {bb, bd, bs} - old(st.free) - {bb0, bd0})
  {
    hide Pow, PowFrom, Val, Fits;
    FactorsFit(bd0.Value(), bd5, bd2);
    bb, bs := ScaleCandidate(st, table, bb0, bb2, bb5);
    bd := FivesInto(st, table, bd0, bd5);
    bd := ShiftBy(st, table, bd, bd2);
    bs := ShiftBy(st, table, bs, bs2);
  }

  /** The bignums for candidate and half an ulp are in the proportion of what they stand for... */
  lemma CandidateInProportion(d: Double, bm: nat, be: int, bits: nat, e: int, bb2: nat, b5: nat, bs2: nat, bb: nat, bs: nat)
    requires Representable(d) && OddParts(d, bm, be, bits) && bb2 - bs2 == be - d.e + 1
    requires bb == bm * Pow(5, b5) * Pow(2, bb2) && bs == Pow(5, b5) * Pow(2, bs2)
    ensures bb * (Ten(-e) * GapUp(d)) == bs * (Ten(-e) * Quad(d))
  {
    var u := d.e + 1075;
    PowStep(2, d.e + 1074);
    QuadFromParts(d, bm, be, bits);
    PowAdd(2, bb2, u);
    PowAdd(2, bs2, be + PLACES);
    hide Pow, PowFrom, Quad, Ten, OddParts;
    CandidateProportion(bm, Pow(5, b5), Pow(2, bb2), Pow(2, bs2), Pow(2, u), Pow(2, be + PLACES), Ten(-e), bb, bs, GapUp(d), Quad(d));
  }

  /** ... and so are those for the decimal and half an ulp. */
  lemma DecimalInProportion(d: Double, v: nat, e: int, b5: nat, bd2: nat, bd5: nat, bs2: nat, bd: nat, bs: nat)
    requires Representable(d) && bd2 - bs2 == e - d.e + 1 && bd5 - b5 == e
    requires bd == v * Pow(5, bd5) * Pow(2, bd2) && bs == Pow(5, b5) * Pow(2, bs2)
    ensures bd * (Ten(-e) * GapUp(d)) == bs * (v * Ten(e) * Scale())
  {
    PowStep(2, d.e + 1074);
    hide Pow, PowFrom, Ten, Scale;
    var s := Pow(2, bd2) * Pow(5, bd5);
    Reorder(1, Pow(5, b5), Pow(2, bs2));
    Balance(1, bs2, b5, bd2, bd5, e, d.e + 1075, bs, s, GapUp(d));
    DecimalProportion(bs, Scale(), Ten(e), Pow(2, bd2), Pow(5, bd5), GapUp(d), Ten(-e), v, bd);
  }

  lemma CandidateProportion(m: int, p5: int, b2: int, s2: int, u: int, w: int, t: int, bb: int, bs: int, gap: int, q: int)
    requires b2 * u == s2 * w && bb == m * p5 * b2 && bs == p5 * s2 && gap == u && q == m * w
    ensures bb * (t * gap) == bs * (t * q)
  {
    assert (m * p5 * b2) * (t * u) == m * p5 * t * (b2 * u);
    assert (p5 * s2) * (t * (m * w)) == m * p5 * t * (s2 * w);
  }

  lemma DecimalProportion(bs: int, sc: int, t: int, q2: int, q5: int, gap: int, one: int, v: int, bd: int)
    requires bs * (sc * t) == (q2 * q5) * (gap * one) && bd == v * q5 * q2
    ensures bd * (one * gap) == bs * (v * t * sc)
  {
    assert (v * q5 * q2) * (one * gap) == v * ((q2 * q5) * (gap * one));
    assert bs * (v * t * sc) == v * (bs * (sc * t));
  }

  /** Comparing numbers in proportion compares what they stand for. */
  lemma SameComparisons(bb: nat, bd: nat, bs: nat, q: nat, n: nat, half: nat)
    requires bb * half == bs * q && bd * half == bs * n && bs > 0 && half > 0
    ensures var delta, miss := if bb < bd then bd - bb else bb - bd, if n >= q then n - q else q - n;
      && (bb < bd <==> q < n) && (delta == 0 <==> miss == 0)
      && (delta < bs <==> miss < half) && (delta == bs <==> miss == half) && (2 * delta > bs <==> 2 * miss > half)
  {
    var delta, miss := if bb < bd then bd - bb else bb - bd, if n >= q then n - q else q - n;
    MulCancelOrder(bb, bd, half);
    MulCancelOrder(q, n, bs);
    assert delta * half == bs * miss by {
      Distribute(bb, bd, half);
      Distribute(q, n, bs);
    }
    MulCancelOrder(delta, bs, half);
    MulCancelOrder(miss, half, bs);
    MulCancelOrder(2 * delta, bs, half);
    MulCancelOrder(2 * miss, half, bs);
    MulCancelOrder(delta, 0, half);
    assert (2 * delta) * half == (2 * miss) * bs;
  }

  lemma Distribute(a: int, b: int, c: int)
    ensures (a - b) * c == a * c - b * c && c * (a - b) == c * a - c * b
  {}

  /** Half an ulp, as a number. */
  ghost predicate Divider(st: Store, bs: Bigint)
    reads st, bs
  {
    bs.Valid() && bs.Normal() && bs.wds >= 1 && bs.Value() > 0 && bs !in st.free && Fits(bs.Value())
  }

  /** The comparisons at the head of the loop, and the decision on them. */
  method DecideByComparison(st: Store, bb: Bigint, bd: Bigint, bs: Bigint, w0: Word, w1: Word) returns (r: Reading)
    requires st.Valid() && FinitePositive(w0, w1)
    requires bb.Valid() && bb.Normal() && bb.wds > 0 && bb !in st.free
    requires bd.Valid() && bd.Normal() && bd.wds > 0 && bd !in st.free
    requires Divider(st, bs)
    modifies st, st.free
    ensures st.Valid()
    ensures var a, c, h := old(bb.Value()), old(bd.Value()), old(bs.Value());
      var delta := if a < c then c - a else a - c;
      r == Decide(w0, w1, a < c, delta - h, delta == 0, 2 * delta - h)
  {
    hide Decide, FinitePositive, Pow, PowFrom, Val, FromWords;
    ghost var h := bs.Value();
    var delta := Diff(st, bb, bd);
    var dsign := delta.sign;
    delta.sign := false;
    var i := Cmp(delta, bs);
    r := DecideOn(st, delta, bs, w0, w1, dsign, i);
  }

  /** The tests that follow, with the third comparison made only where it matters. */
  method DecideOn(st: Store, delta: Bigint, bs: Bigint, w0: Word, w1: Word, dsign: bool, i: int) returns (r: Reading)
    requires st.Valid() && FinitePositive(w0, w1) && delta != bs
    requires delta.Valid() && delta.Normal() && delta.wds >= 1 && delta !in st.free
    requires Divider(st, bs)
    requires (i < 0 <==> delta.Value() < bs.Value()) && (i > 0 <==> delta.Value() > bs.Value())
    modifies st, st.free
    ensures st.Valid()
    ensures var v, h := old(delta.Value()), old(bs.Value());
      r == Decide(w0, w1, dsign, v - h, v == 0, 2 * v - h)
  {
    hide Pow, PowFrom, Val;
    var d := FromWords(w0, w1);
    NormalBounds(delta);
    if i < 0 {
      if dsign || !MantissaZero(w0, w1) || ExponentField(w0) <= 107 {
        return Settled(d);
      }
      if delta.x[0] == 0 && delta.wds <= 1 {
        return Settled(d);
      }
      PositiveUnlessZero(delta);
      var more := ExceedsHalf(st, delta, bs);
      if more {
        return Settled(DropDown(w0));
      }
      return Settled(d);
    }
    if i == 0 {
      if dsign {
        if MantissaOnes(w0, w1) {
          return Settled(FromWords((ExponentField(w0) + 1) * 0x10_0000, 0));
        }
      } else if MantissaZero(w0, w1) {
        return Settled(DropDown(w0));
      }
      if w1 % 2 == 0 {
        return Settled(d);
      }
      if dsign {
        return Settled(Double(d.m + 1, d.e));
      }
      return Settled(Double(d.m - 1, d.e));
    }
    return Refine;
  }

  lemma PositiveUnlessZero(b: Bigint)
    requires b.Valid() && b.Normal() && b.wds >= 1 && !(b.x[0] == 0 && b.wds <= 1)
    ensures b.Value() > 0
  {
    NormalBounds(b);
  }

  /** Is twice a number more than a larger one? */
  method ExceedsHalf(st: Store, delta: Bigint, bs: Bigint) returns (more: bool)
    requires st.Valid() && delta.Valid() && delta.Normal() && delta !in st.free && delta != bs
    requires Divider(st, bs) && 0 < delta.Value() < bs.Value()
    modifies st, st.free
    ensures st.Valid() && (more <==> 2 * old(delta.Value()) > old(bs.Value()))
  {
    PowStep(2, 0);
    hide Pow, PowFrom, Val;
    FewerWords(delta, bs);
    NumberFits(bs);
    if delta.wds == 0 {
      NoWords(delta);
    }
    var twice := Lshift(st, delta, 1);
    var c := Cmp(twice, bs);
    more := c > 0;
  }

  /** Numbers in the proportions of the candidate d, the decimal v * 10^e and half an ulp of d. */
  ghost predicate InProportion(d: Double, v: nat, e: int, bb: nat, bd: nat, bs: nat)
    requires Representable(d)
  {
    && bs > 0
    && bb * (Ten(-e) * GapUp(d)) == bs * (Ten(-e) * Quad(d))
    && bd * (Ten(-e) * GapUp(d)) == bs * (v * Ten(e) * Scale())
  }

  /** A working copy, as every pass of the loop starts from the digits again. */
  method Copy(st: Store, table: Pow5Table, b: Bigint) returns (c: Bigint)
    requires st.Valid() && table.Valid(st) && Operand(st, table, b)
    modifies st, st.free
    ensures st.Valid() && table.Valid(st) && Operand(st, table, c) && c.Value() == b.Value() && c != b
    ensures fresh(st.free + {c} - old(st.free))
  {
    hide Pow, PowFrom, Val;
    c := st.Balloc(b.k);
    CopyInto(c, b);
  }

  lemma OddPartIsSmall(d: Double, bm: nat, be: int, bits: nat)
    requires OddParts(d, bm, be, bits)
    ensures bm <= P53
  {
    PowersOfTwo();
    PowMonotone(2, bits, 53);
  }

  /** The three bignums for a candidate in its parts. */
  method Comparands(st: Store, table: Pow5Table, bb0: Bigint, bd0: Bigint, ghost d: Double, e: int, bbe: int, bbbits: nat)
    returns (bb: Bigint, bd: Bigint, bs: Bigint)
    requires st.Valid() && table.Valid(st) && Operand(st, table, bb0) && Operand(st, table, bd0) && bb0 != bd0
    requires Representable(d) && OddParts(d, bb0.Value(), bbe, bbbits) && d.e <= 971 && Roomy(bd0.Value(), e)
    modifies st, st.free, table, bb0, bd0
    ensures st.Valid() && table.Valid(st) && Operand(st, table, bb) && Operand(st, table, bd) && Operand(st, table, bs)
    ensures Fits(bs.Value())
    ensures InProportion(d, old(bd0.Value()), e, bb.Value(), bd.Value(), bs.Value())
    ensures fresh(st.free + {bb, bd, bs} - old(st.free) - {bb0, bd0})
  {
    hide Pow, PowFrom, Val, Representable, Quad, GapUp, OddParts, Scale, Ten, Fits, Roomy;
    ghost var bm, v := bb0.Value(), bd0.Value();
    var bb2, bb5, bd2, bd5, bs2 := ScaleExponents(d, bm, e, bbe, bbbits);
    OddPartIsSmall(d, bm, bbe, bbbits);
    ComparandsFit(v, e, bm, bb2, bb5, bd2, bd5, bs2);
    bb, bd, bs := ScaleNumbers(st, table, bb0, bd0, bb2, bb5, bd2, bd5, bs2);
    CandidateInProportion(d, bm, bbe, bbbits, e, bb2, bb5, bs2, bb.Value(), bs.Value());
    DecimalInProportion(d, v, e, bb5, bd2, bd5, bs2, bd.Value(), bs.Value());
  }

  /** Deciding on numbers in proportion is deciding on the decimal. */
  lemma DecisionIsVerdict(w0: Word, w1: Word, v: nat, e: int, bb: nat, bd: nat, bs: nat)
    requires FinitePositive(w0, w1) && Representable(FromWords(w0, w1)) && InProportion(FromWords(w0, w1), v, e, bb, bd, bs)
    ensures var delta := if bb < bd then bd - bb else bb - bd;
      Decide(w0, w1, bb < bd, delta - bs, delta == 0, 2 * delta - bs) == Read(w0, w1, v, e)
  {
    var d := FromWords(w0, w1);
    TenPositive(-e);
    UlpPositive(d);
    MulPositive(Ten(-e), GapUp(d));
    hide Pow, PowFrom, Representable, Quad, GapUp, Scale, Ten, FromWords, FinitePositive;
    SameComparisons(bb, bd, bs, Ten(-e) * Quad(d), v * Ten(e) * Scale(), Ten(-e) * GapUp(d));
  }

  /**
   * One pass of the correction loop on a candidate, given the digits' value in bd0 and the decimal exponent e:
   * the bignum comparison takes the decision that exact arithmetic would, whatever finds room in the largest block.
   */
  method CorrectionStep(st: Store, table: Pow5Table, bd0: Bigint, e: int, w0: Word, w1: Word) returns (r: Reading)
    requires st.Valid() && table.Valid(st) && Operand(st, table, bd0) && Roomy(bd0.Value(), e)
    requires FinitePositive(w0, w1) && Representable(FromWords(w0, w1))
    modifies st, st.free, table
    ensures st.Valid()
    ensures r == Read(w0, w1, old(bd0.Value()), e)
  {
    hide Pow, PowFrom, Val, Representable, Quad, GapUp, OddParts, Scale, Ten, FromWords, FinitePositive, InProportion, Decide, Read, Fits, Roomy;
    ghost var d, v := FromWords(w0, w1), bd0.Value();
    FromWordsRepresentable(w0, w1);
    var bd := Copy(st, table, bd0);
    var bb, bbe, bbbits := D2b(st, w0, w1);
    var bs;
    bb, bd, bs := Comparands(st, table, bb, bd, d, e, bbe, bbbits);
    DecisionIsVerdict(w0, w1, v, e, bb.Value(), bd.Value(), bs.Value());
    r := DecideByComparison(st, bb, bd, bs, w0, w1);
  }

  /** Digits to bignum to decision, for every numeral that finds a block. */
  method ReadNumeral(st: Store, table: Pow5Table, s: string, nd0: nat, nd: nat, y9: Word, e: int, w0: Word, w1: Word) returns (r: Reading)
    requires st.Valid() && table.Valid(st) && IsNumeral(s, nd0, nd) && 0 < nd <= 9 * 0x8000 && Numeral(s, nd0, nd, nd) > 0
    requires y9 == Numeral(s, nd0, nd, if nd < 9 then nd else 9)
    requires -314_000 <= e <= 314_000 - nd || -314_000 <= e < 0
    requires FinitePositive(w0, w1) && Representable(FromWords(w0, w1))
    modifies st, st.free, table
    ensures st.Valid() && r == Read(w0, w1, DigitsValue(AsDigits(WithoutPoint(s, nd0, nd))), e)
  {
    hide Numeral, Val, Pow, PowFrom, Representable, FromWords, FinitePositive, Read, Fits, Roomy;
    NumeralBelow(s, nd0, nd, nd);
    NumeralIsDigits(s, nd0, nd);
    NumeralsAreRoomy(Numeral(s, nd0, nd, nd), nd, e);
    var bd0 := S2b(st, s, nd0, nd, y9);
    r := CorrectionStep(st, table, bd0, e, w0, w1);
  }

  /** What lies in a double's interval is within half an ulp of it. */
  lemma InsideIsWithinHalf(n: nat, den: nat, d: Double)
    requires Representable(d) && d.m > 0 && den > 0 && InInterval(n, den, d)
    ensures Distance(n, den, d) <= den * GapUp(d)
  {
    NeighbourEnds(d);
    EndProducts(den, Quad(d), GapUp(d), GapDown(d));
    MulLe(GapDown(d), GapUp(d), den);
  }

  /** Printing and reading: whatever candidate the loop settles on mode 0's digits of d, the result is d. */
  lemma PrintedThenRead(d: Double, s: seq<Digit>, decpt: int, w0: Word, w1: Word)
    requires Representable(d) && d.m > 0 && Prints(d, s, decpt)
    requires FinitePositive(w0, w1) && Representable(FromWords(w0, w1))
    requires !(MantissaZero(w0, w1) && ExponentField(w0) <= 107)
    ensures var r := Read(w0, w1, DigitsValue(s), decpt - |s|);
      (r.Settled? ==> r.d == d) && (FromWords(w0, w1) == d ==> r.Settled?)
  {
    hide InInterval, RoundsTo, FromWords, FinitePositive, Verdict, Scale, Ten, Pow, PowFrom, Distance, Quad, GapUp;
    var v, e := DigitsValue(s), decpt - |s|;
    var n, den := v * Ten(e) * Scale(), Ten(-e);
    TenPositive(-e);
    RoundsToIffInInterval(n, den, d);
    InsideIsWithinHalf(n, den, d);
    VerdictIsRight(w0, w1, n, den);
    var r := Read(w0, w1, v, e);
    if r.Settled? {
      RoundingIsUnique(n, den, d, r.d);
    }
  }

  // How long mode 0's output can be.

  /** Every double is a decimal. */
  lemma ExactDecimal(d: Double, c: nat, q: int)
    requires Representable(d) && d.m > 0 && c == Quad(d) * Pow(5, PLACES) && q + PLACES == 0
    ensures Quad(d) > 0 && ReadsBack(d, c, q)
  {
    QuadFactors(d);
    UlpPositive(d);
    MulPositive(d.m, Ulp(d));
    PowTen(PLACES);
    PowPositive(10, PLACES);
    PowStep(10, 0);
    GapDownPositive(d);
    ReadsBackIffWithin(d, c, q);
    assert Ten(q) == 1 && Ten(-q) == Pow(10, PLACES);
    hide Pow, PowFrom, Quad, GapUp, GapDown, Ten, ReadsBack, Representable;
    ExactProducts(Quad(d), Pow(5, PLACES), Pow(2, PLACES), Pow(10, PLACES));
    MulAround(Pow(10, PLACES), Quad(d), GapUp(d), GapDown(d));
  }

  lemma ExactProducts(q: int, f: int, t: int, ten: int)
    requires ten == t * f
    ensures (q * f) * 1 * t == ten * q
  {}

  lemma QuadBelow(d: Double)
    requires Representable(d) && d.e <= 971
    ensures Quad(d) < Pow(2, 2100) && Quad(d) + GapUp(d) < Pow(2, 2101)
  {
    QuadFactors(d);
    PowMonotone(2, d.e + 1074, 2045);
    PowersOfTwo();
    PowAdd(2, 53, 2);
    PowAdd(2, 55, 2045);
    PowStep(2, 2100);
    PowPositive(2, 2045);
    hide Pow, PowFrom, Quad;
    var u := Ulp(d);
    MulLe(d.m, P53 - 1, u);
    assert 4 * ((P53 - 1) * u) + 4 * u == Pow(2, 55) * u;
    MulLe(u, Pow(2, 2045), Pow(2, 55));
    UlpPositive(d);
  }

  /** No shortest string has more digits than the exact decimal. */
  lemma FewDigits(d: Double, n: nat)
    requires Representable(d) && d.m > 0 && d.e <= 971 && n > 0 && NoneShorter(d, n)
    ensures n <= 1776
  {
    QuadBelow(d);
    var c, q := Quad(d) * Pow(5, PLACES), -1076;
    ExactDecimal(d, c, q);
    PowPositive(5, PLACES);
    PowTenAbovePowEight(n - 1);
    PowBaseMonotone(5, 8, PLACES);
    PowPow(2, 3, PLACES);
    PowersOfTwo();
    PowAdd(2, 2, 1);
    PowAdd(2, 2100, 3 * PLACES);
    hide Pow, PowFrom, Quad;
    MulPositive(Quad(d), Pow(5, PLACES));
    MulLt(Quad(d), Pow(2, 2100), Pow(5, PLACES));
    MulLe(Pow(5, PLACES), Pow(2, 3 * PLACES), Pow(2, 2100));
    if 3 * (n - 1) >= 2100 + 3 * PLACES {
      PowMonotone(2, 2100 + 3 * PLACES, 3 * (n - 1));
    }
  }

  /** Nor is its exponent large. */
  lemma ExponentBelow(d: Double, v: nat, e: int)
    requires Representable(d) && d.m > 0 && d.e <= 971 && v > 0 && ReadsBack(d, v, e)
    ensures e <= 342
  {
    if e > 0 {
      ReadsBackIffWithin(d, v, e);
      QuadBelow(d);
      PowTenAbovePowEight(e);
      PowAdd(2, 3 * e, PLACES);
      assert Ten(e) == Pow(10, e) && Ten(-e) == 1;
      hide Pow, PowFrom, Quad, GapUp, GapDown, Ten;
      PowPositive(2, PLACES);
      MulLe(1, v, Pow(10, e));
      MulLe(Pow(2, 3 * e), Pow(10, e), Pow(2, PLACES));
      MulLe(Pow(10, e), v * Pow(10, e), Pow(2, PLACES));
      if 3 * e + PLACES >= 2101 {
        PowMonotone(2, 2101, 3 * e + PLACES);
      }
    }
  }

  /** Nor far below zero. */
  lemma ExponentAbove(d: Double, v: nat, n: nat, e: int)
    requires Representable(d) && d.m > 0 && v < Pow(10, n) && ReadsBack(d, v, e)
    ensures -e <= n + 359
  {
    if e < 0 {
      ReadsBackIffWithin(d, v, e);
      AboveLowerEnd(d);
      assert Ten(e) == 1 && Ten(-e) == Pow(10, -e);
      PowTenAbovePowEight(359);
      PowMonotone(2, PLACES, 3 * 359);
      PowAdd(10, n, 359);
      PowPositive(2, PLACES);
      hide Pow, PowFrom, Quad, GapUp, GapDown, Ten, ReadsBack, Representable;
      BelowProduct(Pow(10, -e), Quad(d) - GapDown(d), v, Pow(10, n), Pow(2, PLACES), Pow(10, 359));
      if -e > n + 359 {
        PowMonotone(10, n + 359, -e);
      }
    }
  }

  lemma BelowProduct(den: nat, low: int, v: nat, p: nat, sc: nat, t: nat)
    requires den * low <= v * 1 * sc && low >= 1 && v < p && 0 < sc <= t
    ensures den < p * t
  {
    MulLe(1, low, den);
    MulLt(v, p, sc);
    MulLe(sc, t, p);
  }

  lemma AboveLowerEnd(d: Double)
    requires Representable(d) && d.m > 0
    ensures Quad(d) - GapDown(d) >= 1
  {
    QuadFactors(d);
    UlpPositive(d);
    MulLe(1, d.m, Ulp(d));
  }

  /** Printed digits are short enough to be read, in range of what a pass of the correction loop takes. */
  lemma PrintedSize(d: Double, s: seq<Digit>, decpt: int)
    requires Representable(d) && d.m > 0 && d.e <= 971 && Prints(d, s, decpt)
    ensures 0 < |s| <= 1776 && -2135 <= decpt - |s| <= 342 && DigitsValue(s) > 0
  {
    hide Representable, ReadsBack, NoneShorter, NoneCloser, TiesToEven, Pow, PowFrom;
    FirstDigitCounts(s);
    DigitsBelow(s);
    FewDigits(d, |s|);
    ExponentBelow(d, DigitsValue(s), decpt - |s|);
    ExponentAbove(d, DigitsValue(s), |s|, decpt - |s|);
  }

  /**
   * Print a double, write its digits with or without a point, and read them on a candidate: the double itself is
   * settled on, and whatever is settled on is the double.
   */
  method PrintThenRead(st: Store, table: Pow5Table, w0: Word, w1: Word, kEst: int, point: nat, c0: Word, c1: Word) returns (r: Reading)
    requires st.Valid() && table.Valid(st) && FinitePositive(w0, w1) && FinitePositive(c0, c1)
    requires Representable(FromWords(w0, w1)) && Estimate(FromWords(w0, w1), kEst)
    requires Representable(FromWords(c0, c1)) && !(MantissaZero(c0, c1) && ExponentField(c0) <= 107)
    modifies st, st.free, table
    ensures st.Valid()
    ensures r.Settled? ==> r.d == FromWords(w0, w1)
    ensures FromWords(c0, c1) == FromWords(w0, w1) ==> r.Settled?
  {
    hide Numeral, Val, Pow, PowFrom, Representable, FromWords, FinitePositive, Read, Prints, AsText, WithoutPoint, AsDigits, IsNumeral, Estimate;
    ghost var d := FromWords(w0, w1);
    FromWordsRepresentable(w0, w1);
    var ds, decpt := PrintFinite(st, table, w0, w1, kEst);
    PrintedSize(d, ds, decpt);
    var nd := |ds|;
    var nd0 := if point < nd then point else nd;
    var s := AsText(ds, nd0);
    TextIsNumeral(ds, nd0);
    NumeralIsDigits(s, nd0, nd);
    var y9 := FirstNine(s, nd0, nd);
    r := ReadNumeral(st, table, s, nd0, nd, y9, decpt - nd, c0, c1);
    PrintedThenRead(d, ds, decpt, c0, c1);
  }

  /** The value of the first nine digits, as strtod collects it on its way through the text. */
  method FirstNine(s: string, nd0: nat, nd: nat) returns (y: Word)
    requires IsNumeral(s, nd0, nd)
    ensures y == Numeral(s, nd0, nd, if nd < 9 then nd else 9)
  {
    y := 0;
    var i := 0;
    while i < nd && i < 9
      invariant 0 <= i <= nd && i <= 9 && y == Numeral(s, nd0, nd, i)
    {
      NumeralBelow(s, nd0, nd, i + 1);
      PowMonotone(10, i + 1, 9);
      NineTens();
      y := 10 * y + Worth(s[At(nd0, i)]);
      i := i + 1;
    }
  }

  lemma NineTens()
    ensures Pow(10, 9) == 1_000_000_000
  {
    PowStep(10, 0);
    PowAdd(10, 1, 1);
    PowAdd(10, 2, 2);
    PowAdd(10, 4, 4);
    PowAdd(10, 8, 1);
  }
}
