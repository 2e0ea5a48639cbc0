/** Multiply-add, multiply, shift and difference: in-place word loops that refine integer arithmetic. */
module BigintOps {
  import opened Powers
  import opened Words
  import opened Bigints

  const TWO31: nat := 0x8000_0000
  const TWO64: nat := 0x1_0000_0000_0000_0000

  /** The word loop of MultAdd: everything but the final carry. */
  method MultAddWords(b: Bigint, m: nat, a: nat) returns (carry: nat)
    requires b.Valid() && b.wds >= 1 && m < TWO31 && a < TWO31
    modifies b
    ensures b.Valid() && b.wds == old(b.wds) && b.sign == old(b.sign) && carry < TWO31
    ensures b.Value() + carry * Pow(BASE, b.wds) == old(b.Value()) * m + a
    ensures old(b.Normal()) && m > 0 && carry == 0 ==> b.Normal()
  {
    ghost var x0 := b.x;
    PowStep(BASE, 0);
    assert Val(x0[..0]) == 0;
    hide Val, Pow, PowFrom;
    carry := a;
    var i := 0;
    while i < b.wds
      invariant 0 <= i <= b.wds == old(b.wds) <= |b.x| == |x0| && b.sign == old(b.sign)
      invariant carry < TWO31
      invariant forall t :: i <= t < |x0| ==> b.x[t] == x0[t]
      invariant Val(b.x[..i]) + carry * Pow(BASE, i) == Val(x0[..i]) * m + a
      invariant i > 0 && x0[i - 1] != 0 && m > 0 && carry == 0 ==> b.x[i - 1] != 0
    {
      var y, next := TimesPlus(b.x[i], m, carry);
      MultAddWord(x0, b.x, i, m, a, carry, y, next);
      carry := next;
      b.x := b.x[i := y];
      i := i + 1;
    }
  }

  /** A word times m plus a carry, as a word and the next carry; the product does not overflow. */
  method TimesPlus(x: Word, m: nat, carry: nat) returns (y: Word, next: nat)
    requires m < TWO31 && carry < TWO31
    ensures y + next * BASE == x * m + carry < TWO64 && next < TWO31 && (x != 0 && m > 0 && next == 0 ==> y != 0)
  {
    WordProductFits(x, m, carry);
    ProductPositive(x, m);
    var z := x * m + carry;
    y, next := z % BASE, z / BASE;
  }

  /** One word of the loop: the words done and the new carry are what they should be. */
  lemma MultAddWord(x0: seq<Word>, x: seq<Word>, i: nat, m: nat, a: nat, carry: nat, y: Word, next: nat)
    requires i < |x| == |x0| && x[i] == x0[i] && y + next * BASE == x[i] * m + carry
    requires Val(x[..i]) + carry * Pow(BASE, i) == Val(x0[..i]) * m + a
    ensures Val(x[i := y][..i + 1]) + next * Pow(BASE, i + 1) == Val(x0[..i + 1]) * m + a
  {
    hide Val, Pow, PowFrom;
    PowStep(BASE, i);
    MultAddStep(Val(x[..i]), y, Pow(BASE, i), Pow(BASE, i + 1), next, x0[i], m, carry, Val(x0[..i]), a);
    ValPrefix(x0, i);
    PrefixOfUpdate(x, i, y);
    ValPrefix(x[i := y], i);
  }

  /** Multiply by m and add a, in place; a carry out of a full block moves the number to a larger one. */
  method MultAdd(st: Store, b: Bigint, m: nat, a: nat) returns (r: Bigint)
    requires st.Valid() && b !in st.free && b.Valid() && b.wds >= 1 && m < TWO31 && a < TWO31
    requires b.k < KMAX || b.Value() * m + a < Pow(BASE, Pow(2, b.k))
    modifies st, st.free, b
    ensures st.Valid() && r !in st.free && r.Valid() && r.wds >= 1
    ensures r.Value() == old(b.Value()) * m + a
    ensures old(b.Normal()) && m > 0 ==> r.Normal()
    ensures r.sign == old(b.sign)
    ensures r.k == b.k || (r.k == b.k + 1 && old(b.wds) == Pow(2, b.k) && r.Value() >= Pow(BASE, Pow(2, b.k)))
    ensures fresh(st.free + {r} - old(st.free) - {b})
  {
    var wds := b.wds;
    var carry := MultAddWords(b, m, a);
    r := b;
    if carry != 0 {
      MulLe(1, carry, Pow(BASE, wds));
      if wds >= |b.x| {
        PowStep(2, b.k);
        PowPositive(2, b.k);
        r := st.Balloc(b.k + 1);
        CopyInto(r, b);
        st.Bfree(b);
      }
      SetTop(r, carry);
    }
  }

  /** Sign, size and words in use (Bcopy). */
  method CopyInto(c: Bigint, b: Bigint)
    requires c != b && b.Valid() && c.Valid() && c.k >= b.k
    modifies c
    ensures c.Valid() && c.sign == b.sign && c.wds == b.wds && c.x[..c.wds] == b.x[..b.wds]
  {
    PowMonotone(2, b.k, c.k);
    c.sign := b.sign;
    c.x := b.x[..b.wds] + c.x[b.wds..];
    c.wds := b.wds;
  }

  /** Appends a nonzero word on top. */
  method SetTop(b: Bigint, w: Word)
    requires b.Valid() && b.wds < |b.x| && w != 0
    modifies b
    ensures b.Valid() && b.Normal() && b.wds == old(b.wds) + 1 && b.sign == old(b.sign)
    ensures b.Value() == old(b.Value()) + w * Pow(BASE, old(b.wds))
  {
    PrefixOfUpdate(b.x, b.wds, w);
    ValPrefix(b.x[b.wds := w], b.wds);
    b.x := b.x[b.wds := w];
    b.wds := b.wds + 1;
  }

  lemma ProductPositive(x: Word, m: nat)
    ensures x != 0 && m > 0 ==> x * m > 0
  {}

  lemma WordProductFits(x: Word, m: nat, carry: nat)
    requires m < TWO31 && carry < TWO31
    ensures x * m + carry < TWO64 && (x * m + carry) / BASE < TWO31
  {
    MulLe(x, BASE - 1, m);
    assert (BASE - 1) * m + carry < BASE * TWO31;
  }

  /** A fresh one-word number. */
  method I2b(st: Store, i: nat) returns (b: Bigint)
    requires st.Valid() && i < TWO31
    modifies st, st.free
    ensures st.Valid() && st.free == old(st.free) - {b} && b !in st.free
    ensures b.Valid() && b.k == 1 && b.wds == 1 && b.Value() == i && !b.sign
    ensures fresh(b) || b in old(st.free)
  {
    b := st.Balloc(1);
    b.x := b.x[0 := i];
    b.wds := 1;
    OneWord(b);
  }

  /** What one column leaves behind: the new word and carry account for the product and the old word. */
  ghost predicate Column(x: Word, y: Word, before: Word, carry: nat, after: Word, out: nat) {
    after + out * BASE == x * y + before + carry
  }

  /** Columns add up: new words and last carry are the old words plus a * y * BASE^j. */
  lemma {:induction false} ColumnsAddUp(c: seq<Word>, c0: seq<Word>, a: seq<Word>, y: Word, j: nat, carries: seq<nat>, n: nat)
    requires j + n <= |c| == |c0| && n <= |a| && |carries| > n && carries[0] == 0
    requires c[..j] == c0[..j]
    requires forall t :: 0 <= t < n ==> Column(a[t], y, c0[j + t], carries[t], c[j + t], carries[t + 1])
    ensures Val(c[..j + n]) + carries[n] * (Pow(BASE, n) * Pow(BASE, j)) == Val(c0[..j + n]) + Val(a[..n]) * y * Pow(BASE, j)
  {
    if n > 0 {
      var i := n - 1;
      ColumnsAddUp(c, c0, a, y, j, carries, i);
      PowAdd(BASE, i, j);
      assert Column(a[i], y, c0[j + i], carries[i], c[j + i], carries[i + 1]);
      PowStep(BASE, i);
      ColumnStep(Val(c[..j + i]), c[j + i], Pow(BASE, j), Pow(BASE, i), Pow(BASE, n), carries[n], a[i], y, c0[j + i], carries[i],
        Val(c0[..j + i]), Val(a[..i]));
      ValPrefix(c, j + i);
      ValPrefix(c0, j + i);
      ValPrefix(a, i);
    }
  }

  /** The column loop of one row: multiplies a by y into c from word j on. */
  method MultColumns(c: Bigint, a: Bigint, y: Word, j: nat) returns (carry: nat, ghost carries: seq<nat>)
    requires c != a && c.Valid() && a.Valid() && a.wds + j < |c.x|
    modifies c
    ensures |c.x| == old(|c.x|) && c.wds == old(c.wds) && c.sign == old(c.sign) && carry < BASE
    ensures |carries| == a.wds + 1 && carries[0] == 0 && carries[a.wds] == carry
    ensures forall t :: 0 <= t < j || j + a.wds <= t < |c.x| ==> c.x[t] == old(c.x)[t]
    ensures forall t :: 0 <= t < a.wds ==> Column(a.x[t], y, old(c.x)[j + t], carries[t], c.x[j + t], carries[t + 1])
  {
    ghost var c0 := c.x;
    carry, carries := 0, [0];
    var i := 0;
    while i < a.wds
      invariant 0 <= i <= a.wds && |c.x| == |c0| && c.wds == old(c.wds) && c.sign == old(c.sign)
      invariant carry < BASE && |carries| == i + 1 && carries[i] == carry && carries[0] == 0
      invariant forall t :: 0 <= t < j || j + i <= t < |c0| ==> c.x[t] == c0[t]
      invariant forall t :: 0 <= t < i ==> Column(a.x[t], y, c0[j + t], carries[t], c.x[j + t], carries[t + 1])
    {
      var z := a.x[i] * y + c.x[j + i] + carry;
      assert z < TWO64 && z / BASE < BASE by { ColumnFits(a.x[i], y, c.x[j + i], carry); }
      ghost var before := carry;
      carry := z / BASE;
      assert Column(a.x[i], y, c0[j + i], before, z % BASE, carry);
      c.x := c.x[j + i := z % BASE];
      carries := carries + [carry];
      i := i + 1;
    }
  }

  /** One row of the product: adds a * y * BASE^j into c, whose words from a's reach on are still zero. */
  method MultRow(c: Bigint, a: Bigint, y: Word, j: nat, wc: nat)
    requires c != a && c.Valid() && a.Valid() && a.wds + j < wc <= |c.x|
    requires forall i :: a.wds + j <= i < wc ==> c.x[i] == 0
    modifies c
    ensures c.Valid() && c.wds == old(c.wds) && c.sign == old(c.sign)
    ensures Val(c.x[..a.wds + j + 1]) == old(Val(c.x[..a.wds + j])) + a.Value() * y * Pow(BASE, j)
    ensures forall i :: a.wds + j < i < wc ==> c.x[i] == 0
  {
    hide Pow, PowFrom, Val;
    ghost var c0, n := c.x, a.wds;
    if y != 0 {
      var carry, carries := MultColumns(c, a, y, j);
      assert c.x[..j] == c0[..j];
      ColumnsAddUp(c.x, c0, a.x, y, j, carries, n);
      PowAdd(BASE, n, j);
      PrefixOfUpdate(c.x, a.wds + j, carry);
      c.x := c.x[a.wds + j := carry];
    }
    ValPrefix(c.x, n + j);
  }

  lemma ColumnFits(x: Word, y: Word, z: Word, carry: nat)
    requires carry < BASE
    ensures x * y + z + carry < TWO64 && (x * y + z + carry) / BASE < BASE
  {
    var xi: int, yi: int := x, y;
    MulLe(xi, BASE - 1, yi);
    MulLe(yi, BASE - 1, BASE - 1);
    assert xi * yi <= (BASE - 1) * (BASE - 1);
    assert (BASE - 1) * (BASE - 1) + 2 * (BASE - 1) < TWO64;
  }

  method ClearWords(c: Bigint, n: nat)
    requires c.Valid() && n <= |c.x|
    modifies c
    ensures c.Valid() && c.wds == old(c.wds) && c.sign == old(c.sign)
    ensures forall i :: 0 <= i < n ==> c.x[i] == 0
  {
    c.x := seq(n, _ => 0) + c.x[n..];
  }

  /** All rows: schoolbook multiplication into cleared words. */
  method MultWords(c: Bigint, a: Bigint, b: Bigint)
    requires c != a && c != b && c.Valid() && a.Valid() && b.Valid() && a.wds + b.wds <= |c.x|
    modifies c
    ensures c.Valid() && c.wds == old(c.wds) && c.sign == old(c.sign)
    ensures Val(c.x[..a.wds + b.wds]) == a.Value() * b.Value()
  {
    hide Val, Pow, PowFrom;
    var wc := a.wds + b.wds;
    ClearWords(c, wc);
    ValZeros(c.x[..a.wds]);
    ValZeros(b.x[..0]);
    var j := 0;
    while j < b.wds
      invariant 0 <= j <= b.wds && c.Valid() && c.wds == old(c.wds) && c.sign == old(c.sign)
      invariant forall i :: a.wds + j <= i < wc ==> c.x[i] == 0
      invariant Val(c.x[..a.wds + j]) == a.Value() * Val(b.x[..j])
    {
      ValPrefix(b.x, j);
      RowSum(a.Value(), Val(b.x[..j]), b.x[j], Pow(BASE, j));
      MultRow(c, a, b.x[j], j, wc);
      j := j + 1;
    }
  }

  /** Product of two numbers in a block big enough for both. */
  method Mult(st: Store, a0: Bigint, b0: Bigint) returns (c: Bigint)
    requires st.Valid() && a0 !in st.free && b0 !in st.free && a0.Valid() && b0.Valid()
    requires a0.wds + b0.wds <= Pow(2, KMAX)
    modifies st, st.free
    ensures st.Valid() && st.free == old(st.free) - {c} && (fresh(c) || c in old(st.free))
    ensures c !in st.free && c.Valid() && !c.sign
    ensures c.Value() == a0.Value() * b0.Value()
    ensures c.wds == 0 || c.x[c.wds - 1] != 0
    ensures c.k <= a0.k + 1 || c.k <= b0.k + 1
    ensures c.k <= a0.k || c.k <= b0.k || (c.k > 0 && Pow(2, c.k - 1) < a0.wds + b0.wds)
  {
    var a, b := a0, b0;
    if a.wds < b.wds {
      a, b := b, a;
    }
    var k := a.k;
    if a.wds + b.wds > |a.x| {
      PowStep(2, k);
      k := k + 1;
    }
    c := st.Balloc(k);
    MultInto(c, a, b);
  }

  /** The product's words and size. */
  method MultInto(c: Bigint, a: Bigint, b: Bigint)
    requires c != a && c != b && c.Valid() && a.Valid() && b.Valid() && a.wds + b.wds <= |c.x|
    modifies c
    ensures c.Valid() && c.sign == old(c.sign)
    ensures c.Value() == a.Value() * b.Value()
    ensures c.wds == 0 || c.x[c.wds - 1] != 0
  {
    MultWords(c, a, b);
    Trim(c, a.wds + b.wds);
  }

  lemma RowSum(u: int, v: int, y: int, p: int)
    ensures u * (v + y * p) == u * v + u * y * p
  {}

  /** Sets the size to n less the leading zero words below it. */
  method Trim(c: Bigint, n: nat)
    requires c.Valid() && n <= |c.x|
    modifies c
    ensures c.Valid() && c.x == old(c.x) && c.sign == old(c.sign)
    ensures c.wds <= n && (c.wds == 0 || c.x[c.wds - 1] != 0)
    ensures c.Value() == Val(c.x[..n])
  {
    var wc := n;
    while wc > 0 && c.x[wc - 1] == 0
      invariant 0 <= wc <= n && forall i :: wc <= i < n ==> c.x[i] == 0
    {
      wc := wc - 1;
    }
    assert c.x[..n][..wc] == c.x[..wc];
    ValTrim(c.x[..n], wc);
    c.wds := wc;
  }

  /** The word loop of a left shift: c's words from n on become b's, times t, low part first (t * u is 2^32). */
  method ShiftColumns(c: Bigint, b: Bigint, n: nat, t: Word, u: nat) returns (z: Word, ghost carries: seq<nat>)
    requires c != b && b.wds <= |b.x| && n + b.wds <= |c.x| && t > 0 && u > 0 && t * u == BASE
    modifies c
    ensures |c.x| == old(|c.x|) && c.wds == old(c.wds) && c.sign == old(c.sign) && c.x[..n] == old(c.x[..n])
    ensures |carries| == b.wds + 1 && carries[0] == 0 && carries[b.wds] == z
    ensures forall j :: 0 <= j < b.wds ==> Column(b.x[j], t, 0, carries[j], c.x[n + j], carries[j + 1])
  {
    z, carries := 0, [0];
    var i := 0;
    while i < b.wds
      invariant 0 <= i <= b.wds && |c.x| == old(|c.x|) && c.wds == old(c.wds) && c.sign == old(c.sign)
      invariant z < t && |carries| == i + 1 && carries[i] == z && carries[0] == 0
      invariant c.x[..n] == old(c.x[..n])
      invariant forall j :: 0 <= j < i ==> Column(b.x[j], t, 0, carries[j], c.x[n + j], carries[j + 1])
    {
      ShiftedWord(b.x[i], t, u, z);
      var w: Word := (b.x[i] * t) % BASE + z;
      ghost var before := z;
      z := b.x[i] / u;
      assert Column(b.x[i], t, 0, before, w, z);
      c.x := c.x[n + i := w];
      carries := carries + [z];
      i := i + 1;
    }
  }

  /** Shifts by n whole words and fewer than 32 bits more into a block with room for the result. */
  method ShiftWords(c: Bigint, b: Bigint, n: nat, bits: nat) returns (z: Word)
    requires c != b && c.Valid() && b.Valid() && n + b.wds < |c.x| && bits < 32
    modifies c
    ensures c.Valid() && c.wds == old(c.wds) && c.sign == old(c.sign)
    ensures Val(c.x[..n + b.wds]) + z * (Pow(BASE, b.wds) * Pow(BASE, n)) == b.Value() * Pow(2, bits) * Pow(BASE, n)
  {
    SplitBase(bits);
    c.x := seq(n, _ => 0) + c.x[n..];
    ghost var carries;
    ghost var zeros: seq<Word> := seq(|c.x|, _ => 0);
    z, carries := ShiftColumns(c, b, n, Pow(2, bits), Pow(2, 32 - bits));
    ColumnsAddUp(c.x, zeros, b.x, Pow(2, bits), n, carries, b.wds);
    ValZeros(zeros[..n + b.wds]);
  }

  lemma SplitBase(bits: nat)
    requires bits < 32
    ensures Pow(2, bits) * Pow(2, 32 - bits) == BASE
    ensures 0 < Pow(2, bits) < BASE && Pow(2, 32 - bits) > 0
  {
    PowersOfTwo();
    PowAdd(2, bits, 32 - bits);
    PowPositive(2, bits);
    PowPositive(2, 31 - bits);
    PowStep(2, 31 - bits);
    HalfAtMost(Pow(2, bits), Pow(2, 31 - bits));
  }

  lemma HalfAtMost(t: nat, v: nat)
    requires v > 0
    ensures 2 * t <= t * (2 * v)
  {
    MulLe(1, v, t);
    assert t * (2 * v) == 2 * (t * v);
  }

  lemma SplitProduct(q: int, r: int, u: int, t: int)
    ensures (q * u + r) * t == q * (t * u) + r * t
  {}

  /** x << bits, cut to a word, has room below for the bits carried in from the previous word. */
  lemma ShiftedWord(x: Word, t: nat, u: nat, z: nat)
    requires t > 0 && u > 0 && t * u == BASE && z < t
    ensures (x * t) % BASE + z < BASE && x / u < t
    ensures (x * t) % BASE + z + (x / u) * BASE == x * t + z
  {
    var xi: int := x;
    var q, r := xi / u, xi % u;
    SplitProduct(q, r, u, t);
    MulLe(r, u - 1, t);
    SplitProduct(1, -1, u, t);
    DivUnique(xi * t, BASE, q, r * t);
    if q >= t {
      MulLe(t, q, u);
    }
  }

  /** The smallest class from k up whose blocks hold n words. */
  method FittingClass(k: nat, n: nat) returns (k1: nat)
    ensures k <= k1 && n <= Pow(2, k1) && (k1 == k || Pow(2, k1 - 1) < n)
  {
    k1 := k;
    var i := Pow(2, k);
    PowPositive(2, k);
    while n > i
      invariant k <= k1 && i == Pow(2, k1) && i > 0
      invariant k1 == k || Pow(2, k1 - 1) < n
      decreases n - i
    {
      PowStep(2, k1);
      k1 := k1 + 1;
      i := 2 * i;
    }
  }

  /** Shift left by k bits. */
  method Lshift(st: Store, b: Bigint, k: nat) returns (b1: Bigint)
    requires st.Valid() && b !in st.free && b.Valid() && b.Normal() && b.wds >= 1
    requires k / 32 + b.wds + 1 <= Pow(2, KMAX)
    modifies st, st.free
    ensures st.Valid() && b1 !in st.free && b1 != b && b1.Valid() && !b1.sign && b1.wds >= 1
    ensures b1.Value() == old(b.Value()) * Pow(2, k) && (old(b.Value()) > 0 ==> b1.Normal())
    ensures b in st.free && fresh(st.free + {b1} - old(st.free) - {b})
    ensures b1.k == b.k || (b1.k > 0 && Pow(2, b1.k - 1) <= k / 32 + old(b.wds))
  {
    var n := k / 32;
    var k1 := FittingClass(b.k, n + b.wds + 1);
    if k1 > KMAX {
      PowMonotone(2, KMAX, k1 - 1);
    }
    b1 := st.Balloc(k1);
    ShiftInto(b1, b, k);
    st.Bfree(b);
  }

  /** The shifted number's words and size. */
  method ShiftInto(c: Bigint, b: Bigint, k: nat)
    requires c != b && c.Valid() && b.Valid() && b.Normal() && b.wds >= 1
    requires k / 32 + b.wds < |c.x|
    modifies c
    ensures c.Valid() && c.wds >= 1 && c.sign == old(c.sign)
    ensures c.Value() == b.Value() * Pow(2, k) && (b.Value() > 0 ==> c.Normal())
  {
    var n := k / 32;
    var z := ShiftWords(c, b, n, k % 32);
    ShiftValue(b, c.x, n, k, z);
    c.wds := n + b.wds;
    if z != 0 {
      SetTop(c, z);
    }
  }

  /** Whole words and odd bits together make the shift. */
  lemma ShiftFactor(v: nat, k: nat, n: nat)
    requires n == k / 32
    ensures v * Pow(2, k % 32) * Pow(BASE, n) == v * Pow(2, k)
  {
    assert Pow(2, 32) == BASE by { PowersOfTwo(); }
    PowPow(2, 32, n);
    PowAdd(2, k % 32, 32 * n);
    MulAssoc(v, Pow(2, k % 32), Pow(BASE, n));
  }

  /** A number at least as large as the shifted lowest top word needs all its words. */
  lemma ShiftedTop(w: seq<Word>, m: nat, v: nat, n: nat, t: nat)
    requires |w| == m + n && m > 0 && Pow(BASE, m - 1) <= v && t > 0 && Val(w) == v * t * Pow(BASE, n)
    ensures w[|w| - 1] != 0
  {
    if w[|w| - 1] == 0 {
      ValPrefix(w, |w| - 1);
      assert w[..|w|] == w;
      ValBound(w[..|w| - 1]);
      PowAdd(BASE, m - 1, n);
      MulAtLeast(v, t);
      MulLe(Pow(BASE, m - 1), v * t, Pow(BASE, n));
    }
  }

  /** The words and top carry left by ShiftWords are the shifted number, with a nonzero top. */
  lemma ShiftValue(b: Bigint, c: seq<Word>, n: nat, k: nat, z: Word)
    requires b.Valid() && b.Normal() && n == k / 32 && n + b.wds < |c|
    requires Val(c[..n + b.wds]) + z * (Pow(BASE, b.wds) * Pow(BASE, n)) == b.Value() * Pow(2, k % 32) * Pow(BASE, n)
    ensures Val(c[..n + b.wds]) + z * Pow(BASE, n + b.wds) == b.Value() * Pow(2, k)
    ensures b.Value() > 0 ==> b.wds > 0 && (z == 0 ==> c[n + b.wds - 1] != 0)
  {
    ShiftFactor(b.Value(), k, n);
    PowAdd(BASE, b.wds, n);
    if b.wds == 0 {
      NoWords(b);
    } else if z == 0 && b.Value() > 0 {
      NormalBounds(b);
      PowPositive(2, k % 32);
      ShiftedTop(c[..n + b.wds], b.wds, b.Value(), n, Pow(2, k % 32));
    }
  }

  /** What one word of a subtraction of q * s leaves behind: the new word and the borrow owed by the next. */
  ghost predicate Owed(x: Word, s: Word, q: nat, before: nat, after: Word, out: nat) {
    after + s * q + before == x + out * BASE
  }

  lemma {:induction false} BorrowsAddUp(d: seq<Word>, x: seq<Word>, s: seq<Word>, q: nat, owed: seq<nat>, n: nat)
    requires n <= |d| && n <= |x| && n <= |s| && n < |owed| && owed[0] == 0
    requires forall t :: 0 <= t < n ==> Owed(x[t], s[t], q, owed[t], d[t], owed[t + 1])
    ensures Val(d[..n]) + q * Val(s[..n]) == Val(x[..n]) + owed[n] * Pow(BASE, n)
  {
    if n > 0 {
      var i := n - 1;
      BorrowsAddUp(d, x, s, q, owed, i);
      assert Owed(x[i], s[i], q, owed[i], d[i], owed[n]);
      PowStep(BASE, i);
      BorrowStep(Val(d[..i]), d[i], Pow(BASE, i), Pow(BASE, n), owed[n], s[i], q, owed[i], x[i], Val(x[..i]), Val(s[..i]));
      ValPrefix(d, i);
      ValPrefix(x, i);
      ValPrefix(s, i);
    }
  }

  /** Unsigned 64-bit subtraction of at most BASE from a word: bit 32 tells whether it wrapped. */
  lemma WrappedDifference(x: Word, s: int, y: int)
    requires 0 <= s <= BASE && y == (x - s) % TWO64
    ensures y % BASE == if x < s then x - s + BASE else x - s
    ensures (y / BASE) % 2 == if x < s then 1 else 0
  {
    if x < s {
      DivUnique(x - s, TWO64, -1, TWO64 + x - s);
      DivUnique(y, BASE, BASE - 1, x - s + BASE);
    } else {
      DivUnique(x - s, TWO64, 0, x - s);
      DivUnique(y, BASE, 0, x - s);
    }
  }

  /** The word loop of a subtraction; s is b's words continued by zeros. */
  method DiffColumns(c: Bigint, a: Bigint, b: Bigint, ghost s: seq<Word>) returns (ghost owed: seq<nat>)
    requires c != a && c != b && b.wds <= a.wds <= |c.x| && a.wds <= |a.x| && b.wds <= |b.x|
    requires |s| == a.wds && forall t :: 0 <= t < a.wds ==> s[t] == if t < b.wds then b.x[t] else 0
    modifies c
    ensures |c.x| == old(|c.x|) && c.wds == old(c.wds) && c.sign == old(c.sign)
    ensures |owed| == a.wds + 1 && owed[0] == 0
    ensures forall t :: 0 <= t < a.wds ==> Owed(a.x[t], s[t], 1, owed[t], c.x[t], owed[t + 1])
  {
    var borrow: nat := 0;
    owed := [0];
    var i := 0;
    while i < a.wds
      invariant 0 <= i <= a.wds && |c.x| == old(|c.x|) && c.wds == old(c.wds) && c.sign == old(c.sign)
      invariant borrow <= 1 && |owed| == i + 1 && owed[i] == borrow && owed[0] == 0
      invariant forall t :: 0 <= t < i ==> Owed(a.x[t], s[t], 1, owed[t], c.x[t], owed[t + 1])
    {
      ghost var before := borrow;
      var y := (a.x[i] - (if i < b.wds then b.x[i] else 0) - borrow) % TWO64;
      WrappedDifference(a.x[i], s[i] + borrow, y);
      borrow := (y / BASE) % 2;
      assert Owed(a.x[i], s[i], 1, before, y % BASE, borrow);
      c.x := c.x[i := y % BASE];
      owed := owed + [borrow];
      i := i + 1;
    }
  }

  /** a - b for a >= b. */
  method DiffWords(c: Bigint, a: Bigint, b: Bigint)
    requires c != a && c != b && c.Valid() && a.Valid() && b.Valid()
    requires b.wds <= a.wds <= |c.x| && b.Value() <= a.Value()
    modifies c
    ensures c.Valid() && c.wds == old(c.wds) && c.sign == old(c.sign)
    ensures Val(c.x[..a.wds]) == a.Value() - b.Value()
  {
    ghost var s: seq<Word> := b.x[..b.wds] + seq(a.wds - b.wds, _ => 0);
    ghost var owed := DiffColumns(c, a, b, s);
    BorrowsAddUp(c.x, a.x, s, 1, owed, a.wds);
    assert s[..b.wds] == b.x[..b.wds] && s[..a.wds] == s;
    ValTrim(s, b.wds);
    ValBound(c.x[..a.wds]);
    NoBorrow(Val(c.x[..a.wds]), b.Value(), a.Value(), owed[a.wds], Pow(BASE, a.wds));
  }

  /** A nonnegative difference that fits leaves nothing owed. */
  lemma NoBorrow(d: nat, taken: nat, from: nat, owed: nat, p: nat)
    requires d + taken == from + owed * p && taken <= from && d < p
    ensures d == from - taken
  {
    if owed > 0 {
      MulLe(1, owed, p);
    }
  }

  /** |a - b|, with the sign flag set when a is the smaller. */
  method Diff(st: Store, a0: Bigint, b0: Bigint) returns (c: Bigint)
    requires st.Valid() && a0 !in st.free && b0 !in st.free
    requires a0.Valid() && b0.Valid() && a0.Normal() && b0.Normal() && a0.wds > 0 && b0.wds > 0
    modifies st, st.free
    ensures st.Valid() && st.free == old(st.free) - {c} && (fresh(c) || c in old(st.free)) && c !in st.free
    ensures c.Valid() && c.Normal() && c.wds >= 1
    ensures c.sign <==> a0.Value() < b0.Value()
    ensures c.Value() == if c.sign then b0.Value() - a0.Value() else a0.Value() - b0.Value()
  {
    hide Pow, PowFrom, Val;
    NormalBounds(a0);
    NormalBounds(b0);
    var i := Cmp(a0, b0);
    if i == 0 {
      c := st.Balloc(0);
      PowPositive(2, 0);
      c.wds := 1;
      c.x := c.x[0 := 0];
      OneWord(c);
      return;
    }
    var a, b, sign := a0, b0, false;
    if i < 0 {
      a, b, sign := b0, a0, true;
    }
    FewerWords(b, a);
    c := st.Balloc(a.k);
    DiffInto(c, a, b, sign);
  }

  /** The difference's words, size and sign. */
  method DiffInto(c: Bigint, a: Bigint, b: Bigint, sign: bool)
    requires c != a && c != b && c.Valid() && a.Valid() && b.Valid()
    requires b.wds <= a.wds <= |c.x| && b.Value() < a.Value()
    modifies c
    ensures c.Valid() && c.Normal() && c.wds >= 1 && c.sign == sign
    ensures c.Value() == a.Value() - b.Value()
  {
    c.sign := sign;
    DiffWords(c, a, b);
    Trim(c, a.wds);
  }
}
