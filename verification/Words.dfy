/** Little-endian word sequences and the number they stand for (dtoa.cpp, Pack_32). */
module Words {
  import opened Powers

  const BASE: nat := 0x1_0000_0000

  /** An unsigned 32-bit word (ULong). */
  type Word = w: int | 0 <= w < 0x1_0000_0000

  /** The number a word sequence denotes, least significant word first. */
  function Val(s: seq<Word>): nat {
    if |s| == 0 then 0 else Val(s[..|s| - 1]) + s[|s| - 1] * Pow(BASE, |s| - 1)
  }

  lemma ValSnoc(s: seq<Word>, w: Word)
    ensures Val(s + [w]) == Val(s) + w * Pow(BASE, |s|)
  {
    assert (s + [w])[..|s|] == s;
  }

  /** One more word of a prefix. */
  lemma ValPrefix(s: seq<Word>, i: nat)
    requires i < |s|
    ensures Val(s[..i + 1]) == Val(s[..i]) + s[i] * Pow(BASE, i)
  {
    assert s[..i + 1] == s[..i] + [s[i]];
    ValSnoc(s[..i], s[i]);
  }

  lemma {:induction false} ValBound(s: seq<Word>)
    ensures Val(s) < Pow(BASE, |s|)
  {
    if |s| > 0 {
      var p := Pow(BASE, |s| - 1);
      ValBound(s[..|s| - 1]);
      PowPositive(BASE, |s| - 1);
      PowStep(BASE, |s| - 1);
      MulLe(s[|s| - 1], BASE - 1, p);
      assert (BASE - 1) * p + p == BASE * p;
    }
  }

  /** A nonzero top word pins the size of the number. */
  lemma ValTop(s: seq<Word>)
    requires |s| > 0
    ensures s[|s| - 1] * Pow(BASE, |s| - 1) <= Val(s) < (s[|s| - 1] + 1) * Pow(BASE, |s| - 1)
    ensures s[|s| - 1] != 0 ==> Pow(BASE, |s| - 1) <= Val(s)
  {
    var n, p := |s| - 1, Pow(BASE, |s| - 1);
    var top: int := s[n];
    ValBound(s[..n]);
    assert (top + 1) * p == top * p + p;
    if top != 0 {
      MulLe(1, top, p);
    }
  }

  lemma {:induction false} ValConcat(s: seq<Word>, t: seq<Word>)
    ensures Val(s + t) == Val(s) + Pow(BASE, |s|) * Val(t)
  {
    if |t| == 0 {
      assert s + t == s;
    } else {
      var n := |t| - 1;
      ValConcat(s, t[..n]);
      assert s + t == (s + t[..n]) + [t[n]];
      ValSnoc(s + t[..n], t[n]);
      PowAdd(BASE, |s|, n);
      var p, q := Pow(BASE, |s|), Pow(BASE, n);
      assert t[n] * (p * q) == p * (t[n] * q) by { MulRotate(t[n], p, q); }
      MulDistribute(p, Val(t[..n]), t[n] * q);
    }
  }

  lemma MulRotate(a: int, b: int, c: int)
    ensures a * (b * c) == b * (a * c)
  {}

  lemma MulDistribute(a: int, b: int, c: int)
    ensures a * (b + c) == a * b + a * c
  {}

  /** High zero words do not count. */
  lemma {:induction false} ValZeros(s: seq<Word>)
    requires forall i :: 0 <= i < |s| ==> s[i] == 0
    ensures Val(s) == 0
  {
    if |s| > 0 {
      ValZeros(s[..|s| - 1]);
    }
  }

  lemma ValTrim(s: seq<Word>, n: nat)
    requires n <= |s| && forall i :: n <= i < |s| ==> s[i] == 0
    ensures Val(s[..n]) == Val(s)
  {
    assert s == s[..n] + s[n..];
    ValConcat(s[..n], s[n..]);
    ValZeros(s[n..]);
  }

  /** Sequences that agree below i denote the same prefix number. */
  lemma PrefixOfUpdate(s: seq<Word>, i: nat, w: Word)
    requires i < |s|
    ensures s[i := w][..i] == s[..i]
    ensures forall j :: i < j <= |s| ==> s[i := w][j..] == s[j..]
  {}
}
