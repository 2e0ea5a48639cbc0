/** The spellings of a string literal (lexer.cpp), apart from how the lexer finds its way through them. */
module Spelling {
  import opened Lexer

  /** What a literal is written with, piece by piece. */
  datatype Piece =
    | Raw(c: Unit)
    | Named(c: Unit)
    | Itself(c: Unit)
    | Octal(ds: Text)
    | Hex(ds: Text)
    | Unicode(ds: Text)
    | LooseHex(c: Unit)
    | Continuation(t: Text)

  /** The closing quote, or an escape that it cuts short. */
  datatype Ending = Quote | QuoteAfterX | QuoteAfterU

  /** Carriage return, line feed, line and paragraph separator. */
  predicate EndsLine(c: int) {
    c == 13 || c == 10 || c == 8232 || c == 8233
  }

  predicate Octals(ds: Text) {
    forall k :: 0 <= k < |ds| ==> '0' as int <= ds[k] <= '7' as int
  }

  predicate Hexes(ds: Text) {
    forall k :: 0 <= k < |ds| ==> IsHexDigit(ds[k])
  }

  function Written(p: Piece): Text {
    match p
    case Raw(c) => [c]
    case Named(c) => ['\\' as int, c]
    case Itself(c) => ['\\' as int, c]
    case Octal(ds) => ['\\' as int] + ds
    case Hex(ds) => ['\\' as int, 'x' as int] + ds
    case Unicode(ds) => ['\\' as int, 'u' as int] + ds
    case LooseHex(c) => ['\\' as int, 'x' as int, c]
    case Continuation(t) => ['\\' as int] + t
  }

  /** The characters with an escape of their own, and what it stands for. */
  function Code(c: Unit): int {
    if c == 'b' as int then 8
    else if c == 't' as int then 9
    else if c == 'n' as int then 10
    else if c == 'v' as int then 11
    else if c == 'f' as int then 12
    else if c == 'r' as int then 13
    else if c == '\"' as int then 34
    else if c == '\'' as int then 39
    else if c == '\\' as int then 92
    else -1
  }

  /** A piece of a literal in quotes q, with next the character after it. */
  predicate Legal(p: Piece, q: int, next: int) {
    match p
    case Raw(c) => c != q && c != '\\' as int && !EndsLine(c)
    case Named(c) => Code(c) >= 0
    case Itself(c) =>
      Code(c) < 0 && !EndsLine(c) && c != 'x' as int && c != 'u' as int && !('0' as int <= c <= '7' as int)
    case Octal(ds) =>
      && 1 <= |ds| <= 3 && Octals(ds) && (|ds| == 3 ==> ds[0] <= '3' as int)
      && (|ds| == 1 || (|ds| == 2 && ds[0] <= '3' as int) ==> !('0' as int <= next <= '7' as int))
    case Hex(ds) => |ds| == 2 && Hexes(ds)
    case Unicode(ds) => |ds| == 4 && Hexes(ds)
    case LooseHex(c) => c != q && !(IsHexDigit(c) && IsHexDigit(next))
    case Continuation(t) =>
      || t == [13, 10] || t == [10, 13]
      || (|t| == 1 && EndsLine(t[0]) && !(t[0] == 13 && next == 10) && !(t[0] == 10 && next == 13))
  }

  /** The units a piece spells: digits by weight, line continuations none. */
  function Spelled(p: Piece, q: int, next: int): (s: Text)
    requires Legal(p, q, next)
  {
    match p
    case Raw(c) => [c]
    case Named(c) => [Code(c)]
    case Itself(c) => [c]
    case Octal(ds) =>
      var z := '0' as int;
      if |ds| == 1 then [ds[0] - z]
      else if |ds| == 2 then [8 * (ds[0] - z) + (ds[1] - z)]
      else [64 * (ds[0] - z) + 8 * (ds[1] - z) + (ds[2] - z)]
    case Hex(ds) => [16 * ConvertHex(ds[0]) + ConvertHex(ds[1])]
    case Unicode(ds) =>
      [4096 * ConvertHex(ds[0]) + 256 * ConvertHex(ds[1]) + 16 * ConvertHex(ds[2]) + ConvertHex(ds[3])]
    case LooseHex(c) => ['x' as int, c]
    case Continuation(t) => []
  }

  function WrittenEnd(e: Ending, q: Unit): Text {
    match e
    case Quote => [q]
    case QuoteAfterX => ['\\' as int, 'x' as int, q]
    case QuoteAfterU => ['\\' as int, 'u' as int, q]
  }

  function SpelledEnd(e: Ending): Text {
    match e
    case Quote => []
    case QuoteAfterX => ['x' as int]
    case QuoteAfterU => ['u' as int]
  }

  /** The text t stands in the code at position i. */
  ghost predicate StandsAt(code: Text, i: nat, t: Text) {
    i + |t| <= |code| && code[i..i + |t|] == t
  }

  /** From position i up to end the code is written in these pieces, which spell s. */
  ghost predicate Spells(code: Text, i: nat, q: Unit, ps: seq<Piece>, s: Text, end: nat)
    decreases |ps|
  {
    if ps == [] then s == [] && end == i
    else
      var w := Written(ps[0]);
      && StandsAt(code, i, w) && Legal(ps[0], q, At(code, i + |w|))
      && (var u := Spelled(ps[0], q, At(code, i + |w|));
        |u| <= |s| && s[..|u|] == u && Spells(code, i + |w|, q, ps[1..], s[|u|..], end))
  }

  /** The literal in quotes q that starts at position i, its opening quote behind it, spells s and ends before end. */
  ghost predicate IsLiteral(code: Text, i: nat, q: Unit, ps: seq<Piece>, e: Ending, s: Text, end: nat) {
    exists m: nat, s0: Text ::
      && Spells(code, i, q, ps, s0, m) && StandsAt(code, m, WrittenEnd(e, q))
      && s == s0 + SpelledEnd(e) && end == m + |WrittenEnd(e, q)|
  }

  predicate IsQuote(q: int) {
    q == '\"' as int || q == '\'' as int
  }

  /** The hexadecimal digits, by name and value. */
  lemma HexDigitsByName(c: int)
    ensures IsHexDigit(c) <==> exists v :: 0 <= v < 16 && (c == "0123456789abcdef"[v] as int || c == "0123456789ABCDEF"[v] as int)
    ensures forall v :: 0 <= v < 16 && (c == "0123456789abcdef"[v] as int || c == "0123456789ABCDEF"[v] as int) ==> ConvertHex(c) == v
  {
    forall v | 0 <= v < 16
      ensures "0123456789abcdef"[v] as int == if v < 10 then '0' as int + v else 'a' as int + v - 10
      ensures "0123456789ABCDEF"[v] as int == if v < 10 then '0' as int + v else 'A' as int + v - 10
    {
      HexDigitsInOrder(v);
    }
    if IsHexDigit(c) {
      var v := ConvertHex(c);
      assert c == "0123456789abcdef"[v] as int || c == "0123456789ABCDEF"[v] as int;
    }
  }

  lemma HexDigitsInOrder(v: int)
    requires 0 <= v < 16
    ensures "0123456789abcdef"[v] as int == if v < 10 then '0' as int + v else 'a' as int + v - 10
    ensures "0123456789ABCDEF"[v] as int == if v < 10 then '0' as int + v else 'A' as int + v - 10
  {}

  lemma CharactersAt(code: Text, i: nat, t: Text)
    requires StandsAt(code, i, t)
    ensures forall k: nat :: k < |t| ==> At(code, i + k) == t[k]
  {
    forall k: nat | k < |t|
      ensures code[i + k] == t[k]
    {
      assert code[i..i + |t|][k] == code[i + k];
    }
  }

  lemma StandsThere(code: Text, i: nat, t: Text)
    requires i + |t| <= |code| && forall k: nat :: k < |t| ==> code[i + k] == t[k]
    ensures StandsAt(code, i, t)
  {
    assert code[i..i + |t|] == t;
  }

  lemma Joined(u: Text, v: Text, r: Scanned)
    ensures After(u, After(v, r)) == After(u + v, r)
  {
    assert r.Literal? ==> u + (v + r.s) == u + v + r.s;
  }

  // Every spelling is scanned.

  lemma OctalScans(code: Text, i: nat, q: Unit, p: Piece)
    requires IsQuote(q) && p.Octal? && StandsAt(code, i, Written(p)) && Legal(p, q, At(code, i + |Written(p)|))
    ensures var n := i + |Written(p)|; Scan(code, i, q) == After(Spelled(p, q, At(code, n)), Scan(code, n, q))
  {
    CharactersAt(code, i, Written(p));
    var n := i + |Written(p)|;
    assert At(code, i) == Written(p)[0] && At(code, i + 1) == Written(p)[1];
    assert Scan(code, i, q) == ScanEscape(code, i + 1, q);
    assert |p.ds| > 1 ==> At(code, i + 2) == Written(p)[2];
    assert |p.ds| > 2 ==> At(code, i + 3) == Written(p)[3];
  }

  lemma DigitsScan(code: Text, i: nat, q: Unit, p: Piece)
    requires IsQuote(q) && (p.Hex? || p.Unicode?) && StandsAt(code, i, Written(p)) && Legal(p, q, At(code, i + |Written(p)|))
    ensures var n := i + |Written(p)|; Scan(code, i, q) == After(Spelled(p, q, At(code, n)), Scan(code, n, q))
  {
    CharactersAt(code, i, Written(p));
    assert At(code, i) == Written(p)[0] && At(code, i + 1) == Written(p)[1] && At(code, i + 2) == Written(p)[2] && At(code, i + 3) == Written(p)[3];
    assert Scan(code, i, q) == ScanEscape(code, i + 1, q);
    if p.Unicode? {
      assert At(code, i + 4) == Written(p)[4] && At(code, i + 5) == Written(p)[5];
      assert ScanEscape(code, i + 1, q) == ScanUnicode(code, i + 2, q);
    } else {
      assert ScanEscape(code, i + 1, q) == ScanHex(code, i + 2, q);
    }
  }

  lemma RawScans(code: Text, i: nat, q: Unit, p: Piece)
    requires IsQuote(q) && p.Raw? && StandsAt(code, i, Written(p)) && Legal(p, q, At(code, i + |Written(p)|))
    ensures var n := i + |Written(p)|; Scan(code, i, q) == After(Spelled(p, q, At(code, n)), Scan(code, n, q))
  {
    CharactersAt(code, i, Written(p));
    assert At(code, i) == Written(p)[0];
  }

  lemma NamesHaveCodes(c: Unit)
    ensures SingleEscape(c) == if Code(c) >= 0 then Code(c) else c
    ensures Code(c) >= 0 ==> !IsOctalDigit(c) && c != 'x' as int && c != 'u' as int && !IsTerminator(c)
  {}

  lemma NameScans(code: Text, i: nat, q: Unit, p: Piece)
    requires IsQuote(q) && (p.Named? || p.Itself?) && StandsAt(code, i, Written(p)) && Legal(p, q, At(code, i + |Written(p)|))
    ensures var n := i + |Written(p)|; Scan(code, i, q) == After(Spelled(p, q, At(code, n)), Scan(code, n, q))
  {
    NamesHaveCodes(p.c);
    hide Code, SingleEscape;
    CharactersAt(code, i, Written(p));
    assert At(code, i) == Written(p)[0] && At(code, i + 1) == Written(p)[1];
    assert Scan(code, i, q) == ScanEscape(code, i + 1, q);
  }

  lemma LooseHexScans(code: Text, i: nat, q: Unit, p: Piece)
    requires IsQuote(q) && p.LooseHex? && StandsAt(code, i, Written(p)) && Legal(p, q, At(code, i + |Written(p)|))
    ensures var n := i + |Written(p)|; Scan(code, i, q) == After(Spelled(p, q, At(code, n)), Scan(code, n, q))
  {
    CharactersAt(code, i, Written(p));
    assert At(code, i) == Written(p)[0] && At(code, i + 1) == Written(p)[1] && At(code, i + 2) == Written(p)[2];
    assert Scan(code, i, q) == ScanEscape(code, i + 1, q);
    assert ScanEscape(code, i + 1, q) == ScanHex(code, i + 2, q);
  }

  lemma ContinuationScans(code: Text, i: nat, q: Unit, p: Piece)
    requires IsQuote(q) && p.Continuation? && StandsAt(code, i, Written(p)) && Legal(p, q, At(code, i + |Written(p)|))
    ensures var n := i + |Written(p)|; Scan(code, i, q) == After(Spelled(p, q, At(code, n)), Scan(code, n, q))
  {
    CharactersAt(code, i, Written(p));
    assert At(code, i) == Written(p)[0] && At(code, i + 1) == Written(p)[1];
    assert |p.t| == 2 ==> At(code, i + 2) == Written(p)[2];
    assert Scan(code, i, q) == ScanEscape(code, i + 1, q);
  }

  /** A piece is scanned as what it spells. */
  lemma PieceScans(code: Text, i: nat, q: Unit, p: Piece)
    requires IsQuote(q) && StandsAt(code, i, Written(p)) && Legal(p, q, At(code, i + |Written(p)|))
    ensures var n := i + |Written(p)|; Scan(code, i, q) == After(Spelled(p, q, At(code, n)), Scan(code, n, q))
  {
    hide Scan, Written, Legal, Spelled;
    match p {
      case Raw(_) => RawScans(code, i, q, p);
      case Named(_) => NameScans(code, i, q, p);
      case Itself(_) => NameScans(code, i, q, p);
      case Octal(_) => OctalScans(code, i, q, p);
      case Hex(_) => DigitsScan(code, i, q, p);
      case Unicode(_) => DigitsScan(code, i, q, p);
      case LooseHex(_) => LooseHexScans(code, i, q, p);
      case Continuation(_) => ContinuationScans(code, i, q, p);
    }
  }

  lemma EndScans(code: Text, i: nat, q: Unit, e: Ending)
    requires IsQuote(q) && StandsAt(code, i, WrittenEnd(e, q))
    ensures Scan(code, i, q) == Literal(SpelledEnd(e), i + |WrittenEnd(e, q)|)
  {
    CharactersAt(code, i, WrittenEnd(e, q));
    assert At(code, i) == WrittenEnd(e, q)[0];
    if !e.Quote? {
      assert At(code, i + 1) == WrittenEnd(e, q)[1] && At(code, i + 2) == WrittenEnd(e, q)[2];
      assert Scan(code, i, q) == ScanEscape(code, i + 1, q);
      assert ScanEscape(code, i + 1, q) == if e.QuoteAfterX? then ScanHex(code, i + 2, q) else ScanUnicode(code, i + 2, q);
    }
  }

  /** Pieces are scanned one after the other. */
  lemma {:induction false} PiecesScan(code: Text, i: nat, q: Unit, ps: seq<Piece>, s: Text, end: nat)
    requires IsQuote(q) && Spells(code, i, q, ps, s, end)
    ensures Scan(code, i, q) == After(s, Scan(code, end, q))
    decreases |ps|
  {
    hide Scan, Legal, Spelled, Written;
    if ps == [] {
      assert After(s, Scan(code, end, q)) == Scan(code, end, q);
    } else {
      var n := i + |Written(ps[0])|;
      var u := Spelled(ps[0], q, At(code, n));
      PieceScans(code, i, q, ps[0]);
      PiecesScan(code, n, q, ps[1..], s[|u|..], end);
      Joined(u, s[|u|..], Scan(code, end, q));
      assert u + s[|u|..] == s;
    }
  }

  // Whatever is scanned has a spelling.

  /** What starts at a position of a literal. */
  datatype Start = Closing(e: Ending) | Starting(p: Piece)

  predicate StartsWith(code: Text, i: nat, q: Unit, f: Start) {
    match f
    case Closing(e) => i + |WrittenEnd(e, q)| <= |code| && code[i..i + |WrittenEnd(e, q)|] == WrittenEnd(e, q)
    case Starting(p) =>
      var n := i + |Written(p)|;
      n <= |code| && code[i..n] == Written(p) && Legal(p, q, At(code, n))
  }

  /** An escape of digits, as many as count. */
  function OctalEscape(code: Text, i: nat): (p: Piece)
    requires i < |code| && IsOctalDigit(code[i])
    ensures p.Octal? && 1 <= |p.ds| <= 3 && i + |p.ds| <= |code| && p.ds == code[i..i + |p.ds|]
  {
    if code[i] <= '3' as int && IsOctalDigit(At(code, i + 1)) && IsOctalDigit(At(code, i + 2)) then Octal(code[i..i + 3])
    else if IsOctalDigit(At(code, i + 1)) then Octal(code[i..i + 2])
    else Octal(code[i..i + 1])
  }

  lemma OctalStarts(code: Text, i: nat, q: Unit)
    requires i + 1 < |code| && code[i] == '\\' as int && IsOctalDigit(code[i + 1])
    ensures StartsWith(code, i, q, Starting(OctalEscape(code, i + 1)))
  {
    var p := OctalEscape(code, i + 1);
    assert code[i..i + 1 + |p.ds|] == [code[i]] + p.ds;
  }

  lemma EscapeStarts(code: Text, i: nat, q: Unit) returns (f: Start)
    requires IsQuote(q) && i < |code| && code[i] == '\\' as int && ScanEscape(code, i + 1, q).Literal?
    ensures StartsWith(code, i, q, f)
  {
    EndOfText(code, i + 1, q);
    var c := code[i + 1];
    assert code[i..i + 2] == [code[i], c];
    if IsOctalDigit(c) {
      OctalStarts(code, i, q);
      f := Starting(OctalEscape(code, i + 1));
    } else if c == 'x' as int {
      f := XStarts(code, i, q);
    } else if c == 'u' as int {
      f := UStarts(code, i, q);
    } else if EndsLine(c) {
      if LineEnd(code, i + 1) == i + 3 {
        assert code[i..i + 3] == [code[i], c, code[i + 2]];
        f := Starting(Continuation([c, code[i + 2]]));
      } else {
        assert code[i..i + 2] == [code[i]] + [c];
        f := Starting(Continuation([c]));
      }
    } else if Code(c) >= 0 {
      f := Starting(Named(c));
    } else {
      f := Starting(Itself(c));
    }
  }

  /** No literal goes on at the end of the text. */
  lemma EndOfText(code: Text, i: nat, q: Unit)
    requires IsQuote(q)
    ensures ScanEscape(code, i, q).Literal? || ScanHex(code, i, q).Literal? ==> i < |code|
  {
    if i >= |code| {
      assert Scan(code, i + 1, q) == Malformed;
    }
  }

  lemma XStarts(code: Text, i: nat, q: Unit) returns (f: Start)
    requires IsQuote(q) && i + 1 < |code| && code[i] == '\\' as int && code[i + 1] == 'x' as int && ScanHex(code, i + 2, q).Literal?
    ensures StartsWith(code, i, q, f)
  {
    EndOfText(code, i + 2, q);
    var c := code[i + 2];
    assert code[i..i + 3] == [code[i], code[i + 1], c];
    if IsHexDigit(c) && IsHexDigit(At(code, i + 3)) {
      assert code[i..i + 4] == [code[i], code[i + 1]] + [c, code[i + 3]];
      f := Starting(Hex([c, code[i + 3]]));
    } else if c == q {
      f := Closing(QuoteAfterX);
    } else {
      f := Starting(LooseHex(c));
    }
  }

  lemma UStarts(code: Text, i: nat, q: Unit) returns (f: Start)
    requires IsQuote(q) && i + 1 < |code| && code[i] == '\\' as int && code[i + 1] == 'u' as int && ScanUnicode(code, i + 2, q).Literal?
    ensures StartsWith(code, i, q, f)
  {
    if At(code, i + 2) == q {
      assert code[i..i + 3] == [code[i], code[i + 1], code[i + 2]];
      f := Closing(QuoteAfterU);
    } else {
      assert code[i..i + 6] == [code[i], code[i + 1]] + code[i + 2..i + 6];
      f := Starting(Unicode(code[i + 2..i + 6]));
    }
  }

  lemma SomethingStarts(code: Text, i: nat, q: Unit) returns (f: Start)
    requires IsQuote(q) && Scan(code, i, q).Literal?
    ensures StartsWith(code, i, q, f)
  {
    assert i < |code|;
    assert code[i..i + 1] == [code[i]];
    if code[i] == q {
      f := Closing(Quote);
    } else if code[i] == '\\' as int {
      f := EscapeStarts(code, i, q);
    } else {
      f := Starting(Raw(code[i]));
    }
  }

  /** A scanned literal comes apart into pieces and an ending. */
  lemma {:induction false} LiteralIsSpelled(code: Text, i: nat, q: Unit) returns (ps: seq<Piece>, e: Ending)
    requires IsQuote(q) && Scan(code, i, q).Literal?
    ensures IsLiteral(code, i, q, ps, e, Scan(code, i, q).s, Scan(code, i, q).end)
    decreases |code| - i
  {
    hide Scan, Legal, Spelled, Spells, WrittenEnd, SpelledEnd;
    ScanInside(code, i, q);
    var f := SomethingStarts(code, i, q);
    match f {
      case Closing(e0) =>
        EndScans(code, i, q, e0);
        ps, e := [], e0;
        NothingSpelled(code, i, q);
        assert [] + SpelledEnd(e) == SpelledEnd(e);
      case Starting(p) =>
        var n := i + |Written(p)|;
        PieceScans(code, i, q, p);
        var rest;
        rest, e := LiteralIsSpelled(code, n, q);
        ps := [p] + rest;
        var m: nat, s0: Text :| Spells(code, n, q, rest, s0, m) && StandsAt(code, m, WrittenEnd(e, q))
          && Scan(code, n, q).s == s0 + SpelledEnd(e) && Scan(code, n, q).end == m + |WrittenEnd(e, q)|;
        var u := Spelled(p, q, At(code, n));
        OneMorePiece(code, i, q, p, rest, s0, m);
        assert u + (s0 + SpelledEnd(e)) == (u + s0) + SpelledEnd(e);
    }
  }

  lemma ScanInside(code: Text, i: nat, q: Unit)
    requires Scan(code, i, q).Literal? && IsQuote(q)
    ensures i < |code|
  {}

  lemma NothingSpelled(code: Text, i: nat, q: Unit)
    ensures Spells(code, i, q, [], [], i)
  {}

  lemma OneMorePiece(code: Text, i: nat, q: Unit, p: Piece, ps: seq<Piece>, s: Text, end: nat)
    requires var n := i + |Written(p)|;
      StandsAt(code, i, Written(p)) && Legal(p, q, At(code, n)) && Spells(code, n, q, ps, s, end)
    ensures var n := i + |Written(p)|; Spells(code, i, q, [p] + ps, Spelled(p, q, At(code, n)) + s, end)
  {
    hide Legal, Spelled, Written;
    var qs, u := [p] + ps, Spelled(p, q, At(code, i + |Written(p)|));
    assert qs[0] == p && qs[1..] == ps && (u + s)[..|u|] == u && (u + s)[|u|..] == s;
  }

  /** The lexer's literals are exactly those that have a spelling, and what it reads is what they spell. */
  lemma LiteralIffSpelled(code: Text, i: nat, q: Unit, s: Text, end: nat)
    requires IsQuote(q)
    ensures Scan(code, i, q) == Literal(s, end) <==> exists ps, e :: IsLiteral(code, i, q, ps, e, s, end)
  {
    hide Scan, Spells, WrittenEnd, SpelledEnd;
    if Scan(code, i, q) == Literal(s, end) {
      var ps, e := LiteralIsSpelled(code, i, q);
    }
    if ps, e :| IsLiteral(code, i, q, ps, e, s, end) {
      var m: nat, s0: Text :| Spells(code, i, q, ps, s0, m) && StandsAt(code, m, WrittenEnd(e, q))
        && s == s0 + SpelledEnd(e) && end == m + |WrittenEnd(e, q)|;
      PiecesScan(code, i, q, ps, s0, m);
      EndScans(code, m, q, e);
    }
  }

  /** A line terminator or the end of the text before the closing quote is an error. */
  lemma UnclosedIsMalformed(code: Text, i: nat, q: Unit, ps: seq<Piece>, s: Text, m: nat)
    requires IsQuote(q) && Spells(code, i, q, ps, s, m) && (m >= |code| || EndsLine(code[m]))
    ensures Scan(code, i, q) == Malformed
  {
    hide Spells;
    PiecesScan(code, i, q, ps, s, m);
  }

  /** The token of a text in quotes is what the text spells. */
  method LexSpelling(lexer: Lexer, t: Text, q: Unit, ghost ps: seq<Piece>, ghost s: Text) returns (token: Token)
    requires lexer.Valid() && IsQuote(q) && Spells([q] + t + [q], 1, q, ps, s, |t| + 1)
    modifies lexer, lexer.buffer16
    ensures token == STRING(s) && !lexer.error && lexer.pos == |t| + 2
  {
    hide Spells;
    var code := [q] + t + [q];
    PiecesScan(code, 1, q, ps, s, |t| + 1);
    assert Scan(code, |t| + 1, q) == Literal([], |t| + 2);
    assert s + [] == s;
    lexer.SetCode(0, code);
    token := lexer.Lex();
  }
}
