/** The pretty printer's string escapes, and the global functions escape and unescape (function.cpp). */
module Escaping {
  import opened Lexer
  import opened Spelling

  /** Hexadecimal digits as sprintf writes them. */
  function LowerDigit(v: int): Unit
    requires 0 <= v < 16
  {
    if v < 10 then '0' as int + v else 'a' as int + v - 10
  }

  function UpperDigit(v: int): Unit
    requires 0 <= v < 16
  {
    if v < 10 then '0' as int + v else 'A' as int + v - 10
  }

  function FourLower(c: Unit): Text {
    [LowerDigit(c / 0x1000), LowerDigit((c / 0x100) % 0x10), LowerDigit((c / 0x10) % 0x10), LowerDigit(c % 0x10)]
  }

  function FourUpper(c: Unit): Text {
    [UpperDigit(c / 0x1000), UpperDigit((c / 0x100) % 0x10), UpperDigit((c / 0x10) % 0x10), UpperDigit(c % 0x10)]
  }

  lemma DigitsConvertBack(v: int)
    requires 0 <= v < 16
    ensures IsHexDigit(LowerDigit(v)) && ConvertHex(LowerDigit(v)) == v
    ensures IsHexDigit(UpperDigit(v)) && ConvertHex(UpperDigit(v)) == v
  {}

  lemma FourDigits(c: Unit)
    ensures c == ((c / 0x1000) * 0x10 + (c / 0x100) % 0x10) * 0x100 + (c / 0x10) % 0x10 * 0x10 + c % 0x10
    ensures 0 <= c / 0x1000 < 0x10
  {}

  /** Both forms of four digits are read back as the unit they were written for. */
  lemma FourDigitsConvertBack(c: Unit)
    ensures var t := FourLower(c); IsHexDigit(t[0]) && IsHexDigit(t[1]) && IsHexDigit(t[2]) && IsHexDigit(t[3])
    ensures var t := FourLower(c); ConvertUnicode(t[0], t[1], t[2], t[3]) == c
    ensures var t := FourUpper(c); IsHexDigit(t[0]) && IsHexDigit(t[1]) && IsHexDigit(t[2]) && IsHexDigit(t[3])
    ensures var t := FourUpper(c); ConvertUnicode(t[0], t[1], t[2], t[3]) == c
  {
    hide LowerDigit, UpperDigit, ConvertHex;
    FourDigits(c);
    DigitsConvertBack(c / 0x1000);
    DigitsConvertBack((c / 0x100) % 0x10);
    DigitsConvertBack((c / 0x10) % 0x10);
    DigitsConvertBack(c % 0x10);
  }

  // Pretty printing.

  /** Printable ASCII. */
  predicate IsPrintable(c: Unit) {
    0x20 <= c < 0x7f
  }

  /** One character as the pretty printer writes it inside double quotes. */
  function EscapedUnit(c: Unit): Text {
    if c == QUOTE then [BACKSLASH, QUOTE]
    else if c == LF then [BACKSLASH, 'n' as int]
    else if c == CR then [BACKSLASH, 'r' as int]
    else if c == 0x09 then [BACKSLASH, 't' as int]
    else if c == BACKSLASH then [BACKSLASH, BACKSLASH]
    else if c < 128 && IsPrintable(c) then [c]
    else [BACKSLASH, 'u' as int] + FourLower(c)
  }

  function Escaped(s: Text): Text {
    if s == [] then [] else Escaped(s[..|s| - 1]) + EscapedUnit(s[|s| - 1])
  }

  method EscapeStringForPrettyPrinting(s: Text) returns (escaped: Text)
    ensures escaped == Escaped(s)
  {
    hide EscapedUnit;
    escaped := [];
    for i := 0 to |s|
      invariant escaped == Escaped(s[..i])
    {
      assert s[..i + 1][..i] == s[..i];
      escaped := escaped + EscapedUnit(s[i]);
    }
    assert s[..|s|] == s;
  }

  lemma {:induction false} EscapedConcat(s: Text, t: Text)
    ensures Escaped(s + t) == Escaped(s) + Escaped(t)
  {
    hide EscapedUnit;
    if t == [] {
      assert s + t == s;
    } else {
      var n := |t| - 1;
      EscapedConcat(s, t[..n]);
      assert (s + t)[..|s + t| - 1] == s + t[..n];
    }
  }

  /** The pretty printer's text for one unit: quotes and backslashes escaped, n, r and t, printable ASCII, lower-case hexadecimal. */
  lemma PrettyPrintedUnit(c: Unit)
    ensures Escaped([c]) ==
      if c == 34 || c == 92 then [92, c]
      else if c == 10 then [92, 'n' as int]
      else if c == 13 then [92, 'r' as int]
      else if c == 9 then [92, 't' as int]
      else if 32 <= c <= 126 then [c]
      else [92, 'u' as int, LowerNamed(c / 4096), LowerNamed(c / 256 % 16), LowerNamed(c / 16 % 16), LowerNamed(c % 16)]
  {
    hide LowerDigit, LowerNamed;
    DigitsByName(c / 4096);
    DigitsByName(c / 256 % 16);
    DigitsByName(c / 16 % 16);
    DigitsByName(c % 16);
    assert [c][..0] == [];
    assert Escaped([c]) == EscapedUnit(c);
  }

  function LowerNamed(v: int): Unit
    requires 0 <= v < 16
  {
    "0123456789abcdef"[v] as int
  }

  function UpperNamed(v: int): Unit
    requires 0 <= v < 16
  {
    "0123456789ABCDEF"[v] as int
  }

  lemma DigitsByName(v: int)
    requires 0 <= v < 16
    ensures LowerDigit(v) == LowerNamed(v) && UpperDigit(v) == UpperNamed(v)
  {}

  /** An escaped character is scanned as the character itself. */
  lemma EscapedUnitScans(code: Text, i: nat, c: Unit)
    requires StandsAt(code, i, EscapedUnit(c))
    ensures Scan(code, i, QUOTE) == Prepend(c, Scan(code, i + |EscapedUnit(c)|, QUOTE))
  {
    var t := EscapedUnit(c);
    CharactersAt(code, i, t);
    assert At(code, i + 0) == t[0];
    if |t| == 2 {
      assert At(code, i + 1) == t[1];
    } else if |t| == 6 {
      UnicodeEscapeScans(code, i, c);
    }
  }

  lemma UnicodeEscapeScans(code: Text, i: nat, c: Unit)
    requires StandsAt(code, i, [BACKSLASH, 'u' as int] + FourLower(c))
    ensures Scan(code, i, QUOTE) == Prepend(c, Scan(code, i + 6, QUOTE))
  {
    hide ConvertUnicode, LowerDigit;
    var t := [BACKSLASH, 'u' as int] + FourLower(c);
    CharactersAt(code, i, t);
    assert At(code, i + 0) == t[0] && At(code, i + 1) == t[1] && At(code, i + 2) == t[2];
    assert At(code, i + 3) == t[3] && At(code, i + 4) == t[4] && At(code, i + 5) == t[5];
    FourDigitsConvertBack(c);
    assert Scan(code, i, QUOTE) == ScanEscape(code, i + 1, QUOTE);
    assert ScanEscape(code, i + 1, QUOTE) == ScanUnicode(code, i + 2, QUOTE);
  }

  /** A whole escaped text, followed by whatever comes next. */
  lemma {:induction false} EscapedScans(code: Text, i: nat, s: Text)
    requires StandsAt(code, i, Escaped(s))
    ensures Scan(code, i, QUOTE) == After(s, Scan(code, i + |Escaped(s)|, QUOTE))
    decreases |s|
  {
    hide Scan, EscapedUnit, StandsAt, After, Prepend;
    if s == [] {
      NothingBefore(Scan(code, i, QUOTE));
    } else {
      var t, c := s[..|s| - 1], s[|s| - 1];
      var e := Escaped(t);
      StandInOrder(code, i, e, EscapedUnit(c));
      EscapedScans(code, i, t);
      EscapedUnitScans(code, i + |e|, c);
      AfterRecorded(t, c, Scan(code, i + |Escaped(s)|, QUOTE));
      assert t + [c] == s;
    }
  }

  lemma StandInOrder(code: Text, i: nat, t: Text, u: Text)
    requires StandsAt(code, i, t + u)
    ensures StandsAt(code, i, t) && StandsAt(code, i + |t|, u)
  {
    assert code[i..i + |t|] == (t + u)[..|t|] == t;
    assert code[i + |t|..i + |t| + |u|] == (t + u)[|t|..] == u;
  }

  lemma NothingBefore(r: Scanned)
    ensures After([], r) == r
  {
    if r.Literal? {
      assert [] + r.s == r.s;
    }
  }

  /** The lexer undoes the pretty printer: between double quotes an escaped text is a literal for the text. */
  lemma LexingUndoesEscaping(s: Text, before: Text, after: Text)
    ensures var code := before + [QUOTE] + Escaped(s) + [QUOTE] + after;
      Scan(code, |before| + 1, QUOTE) == Literal(s, |before| + |Escaped(s)| + 2)
  {
    hide Scan, Escaped;
    var code := before + [QUOTE] + Escaped(s) + [QUOTE] + after;
    var i := |before| + 1;
    assert code[i..i + |Escaped(s)|] == Escaped(s);
    EscapedScans(code, i, s);
    ClosingQuote(code, i + |Escaped(s)|);
    assert s + [] == s;
  }

  lemma ClosingQuote(code: Text, i: nat)
    requires i < |code| && code[i] == QUOTE
    ensures Scan(code, i, QUOTE) == Literal([], i + 1)
  {}

  /** The same through the code: escape, quote, lex. */
  method PrintThenLex(lexer: Lexer, s: Text) returns (token: Token)
    requires lexer.Valid()
    modifies lexer, lexer.buffer16
    ensures token == STRING(s) && !lexer.error && lexer.Valid()
  {
    hide Scan, Escaped;
    var escaped := EscapeStringForPrettyPrinting(s);
    var code := [QUOTE] + escaped + [QUOTE];
    LexingUndoesEscaping(s, [], []);
    assert [] + [QUOTE] + escaped + [QUOTE] + [] == code;
    lexer.SetCode(0, code);
    token := lexer.Lex();
  }

  // escape and unescape.

  /** do_not_escape: the ASCII letters and digits, and * + - . / @ _ */
  predicate Listed(u: Unit) {
    || 'A' as int <= u <= 'Z' as int || 'a' as int <= u <= 'z' as int || '0' as int <= u <= '9' as int
    || u == '*' as int || u == '+' as int || u == '-' as int || u == '.' as int || u == '/' as int || u == '@' as int || u == '_' as int
  }

  function EscapeUnit(u: Unit): Text {
    if u > 255 then ['%' as int, 'u' as int] + FourUpper(u)
    else if u != 0 && Listed(u) then [u]
    else ['%' as int, UpperDigit(u / 0x10), UpperDigit(u % 0x10)]
  }

  function EscapeText(s: Text): Text {
    if s == [] then [] else EscapeText(s[..|s| - 1]) + EscapeUnit(s[|s| - 1])
  }

  // Which characters escape leaves alone.

  const UPPER_CASE: string := "ABCDEFGHIJKLMNOPQRSTUVWXYZ"
  const LOWER_CASE: string := "abcdefghijklmnopqrstuvwxyz"
  const DIGITS: string := "0123456789"
  const MARKS: string := "*+-./@_"

  predicate Occurs(u: Unit, t: string) {
    exists k :: 0 <= k < |t| && t[k] as int == u
  }

  /** One of the 69 characters that need no escape. */
  predicate NeedsNoEscape(u: Unit) {
    Occurs(u, UPPER_CASE) || Occurs(u, LOWER_CASE) || Occurs(u, DIGITS) || Occurs(u, MARKS)
  }

  /** Characters in the order of their codes. */
  lemma Consecutive(t: string, first: int, u: Unit)
    requires forall k :: 0 <= k < |t| ==> t[k] as int == first + k
    ensures Occurs(u, t) <==> first <= u < first + |t|
  {
    if first <= u < first + |t| {
      assert t[u - first] as int == u;
    }
  }

  lemma ListedByName(u: Unit)
    ensures Listed(u) <==> NeedsNoEscape(u)
  {
    hide Occurs;
    Consecutive(UPPER_CASE, 'A' as int, u);
    Consecutive(LOWER_CASE, 'a' as int, u);
    Consecutive(DIGITS, '0' as int, u);
    MarksByName(u);
  }

  lemma MarksByName(u: Unit)
    ensures Occurs(u, MARKS) <==>
      || u == '*' as int || u == '+' as int || u == '-' as int || u == '.' as int || u == '/' as int || u == '@' as int || u == '_' as int
  {
    assert MARKS[0] == '*' && MARKS[1] == '+' && MARKS[2] == '-' && MARKS[3] == '.' && MARKS[4] == '/' && MARKS[5] == '@' && MARKS[6] == '_';
  }

  lemma {:induction false} EscapeTextConcat(s: Text, t: Text)
    ensures EscapeText(s + t) == EscapeText(s) + EscapeText(t)
  {
    hide EscapeUnit;
    if t == [] {
      assert s + t == s;
    } else {
      var n := |t| - 1;
      EscapeTextConcat(s, t[..n]);
      assert (s + t)[..|s + t| - 1] == s + t[..n];
    }
  }

  lemma OneUnit(u: Unit)
    ensures EscapeText([u]) == EscapeUnit(u)
  {
    hide EscapeUnit;
    assert [u][..0] == [] && EscapeText([]) == [];
    assert [] + EscapeUnit(u) == EscapeUnit(u);
  }

  lemma LongByName(u: Unit)
    ensures FourUpper(u) == [UpperNamed(u / 4096), UpperNamed(u / 256 % 16), UpperNamed(u / 16 % 16), UpperNamed(u % 16)]
  {
    hide UpperDigit, UpperNamed;
    DigitsByName(u / 4096);
    DigitsByName(u / 256 % 16);
    DigitsByName(u / 16 % 16);
    DigitsByName(u % 16);
  }

  /** What escape writes for one unit: itself, a percent sign and two upper-case hexadecimal digits, or %u and four. */
  lemma EscapeOfUnit(u: Unit)
    ensures EscapeText([u]) ==
      if NeedsNoEscape(u) then [u]
      else if u <= 255 then ['%' as int, UpperNamed(u / 16), UpperNamed(u % 16)]
      else ['%' as int, 'u' as int] + [UpperNamed(u / 4096), UpperNamed(u / 256 % 16), UpperNamed(u / 16 % 16), UpperNamed(u % 16)]
  {
    OneUnit(u);
    ListedByName(u);
    hide UpperDigit, UpperNamed, NeedsNoEscape, EscapeText, FourUpper;
    LongByName(u);
    if u <= 255 {
      DigitsByName(u / 16);
      DigitsByName(u % 16);
    }
  }

  function EscapedLength(s: Text): nat {
    if s == [] then 0
    else EscapedLength(s[..|s| - 1]) + (if NeedsNoEscape(s[|s| - 1]) then 1 else if s[|s| - 1] <= 255 then 3 else 6)
  }

  /** The result is as long as its units take, and consists of characters that need no escape and percent signs. */
  lemma {:induction false} EscapeShape(s: Text)
    ensures |EscapeText(s)| == EscapedLength(s) >= |s|
    ensures forall i :: 0 <= i < |EscapeText(s)| ==> NeedsNoEscape(EscapeText(s)[i]) || EscapeText(s)[i] == '%' as int
  {
    hide EscapeUnit, NeedsNoEscape, UpperNamed;
    if s != [] {
      var t, u := s[..|s| - 1], s[|s| - 1];
      EscapeShape(t);
      EscapeTextConcat(t, [u]);
      EscapeOfUnit(u);
      UnitShape(u);
      assert t + [u] == s;
    }
  }

  lemma UnitShape(u: Unit)
    ensures forall i :: 0 <= i < |EscapeText([u])| ==> NeedsNoEscape(EscapeText([u])[i]) || EscapeText([u])[i] == '%' as int
  {
    hide NeedsNoEscape, UpperNamed, EscapeText;
    EscapeOfUnit(u);
    ListedByName('u' as int);
    DigitNeedsNone(u / 4096);
    DigitNeedsNone(u / 256 % 16);
    DigitNeedsNone(u / 16 % 16);
    DigitNeedsNone(u % 16);
    if u <= 255 {
      DigitNeedsNone(u / 16);
    }
  }

  lemma DigitNeedsNone(v: int)
    requires 0 <= v < 16
    ensures NeedsNoEscape(UpperNamed(v))
  {
    hide UpperNamed, NeedsNoEscape;
    DigitsByName(v);
    ListedByName(UpperDigit(v));
  }

  lemma {:induction false} ShortMeansAlone(s: Text)
    requires EscapedLength(s) == |s|
    ensures forall i :: 0 <= i < |s| ==> NeedsNoEscape(s[i])
  {
    hide NeedsNoEscape;
    if s != [] {
      var t := s[..|s| - 1];
      EscapeShape(t);
      ShortMeansAlone(t);
      assert forall i :: 0 <= i < |t| ==> s[i] == t[i];
    }
  }

  lemma {:induction false} AloneMeansSame(s: Text)
    requires forall i :: 0 <= i < |s| ==> NeedsNoEscape(s[i])
    ensures EscapeText(s) == s
  {
    hide EscapeUnit, NeedsNoEscape;
    if s != [] {
      var t, u := s[..|s| - 1], s[|s| - 1];
      AloneMeansSame(t);
      EscapeTextConcat(t, [u]);
      EscapeOfUnit(u);
      assert t + [u] == s;
    }
  }

  /** escape leaves a text alone if and only if all its units need no escape. */
  lemma EscapeLeavesAlone(s: Text)
    ensures EscapeText(s) == s <==> forall i :: 0 <= i < |s| ==> NeedsNoEscape(s[i])
  {
    hide EscapeText, NeedsNoEscape, EscapedLength;
    EscapeShape(s);
    if EscapeText(s) == s {
      ShortMeansAlone(s);
    }
    if forall i :: 0 <= i < |s| ==> NeedsNoEscape(s[i]) {
      AloneMeansSame(s);
    }
  }

  method Escape(str: Text) returns (r: Text)
    ensures r == EscapeText(str)
  {
    hide EscapeUnit;
    r := [];
    for k := 0 to |str|
      invariant r == EscapeText(str[..k])
    {
      assert str[..k + 1][..k] == str[..k];
      r := r + EscapeUnit(str[k]);
    }
    assert str[..|str|] == str;
  }

  /** The unit at position k and how many characters stand for it. */
  function UnescapeUnit(str: Text, k: nat): (p: (Unit, nat))
    requires k < |str|
    ensures 0 < p.1 && k + p.1 <= |str|
  {
    if str[k] == '%' as int && k <= |str| - 6 && str[k + 1] == 'u' as int then
      if IsHexDigit(str[k + 2]) && IsHexDigit(str[k + 3]) && IsHexDigit(str[k + 4]) && IsHexDigit(str[k + 5]) then
        (ConvertUnicode(str[k + 2], str[k + 3], str[k + 4], str[k + 5]), 6)
      else (str[k], 1)
    else if str[k] == '%' as int && k <= |str| - 3 && IsHexDigit(str[k + 1]) && IsHexDigit(str[k + 2]) then
      (ConvertHexPair(str[k + 1], str[k + 2]), 3)
    else (str[k], 1)
  }

  function UnescapeFrom(str: Text, k: nat): Text
    requires k <= |str|
    decreases |str| - k
  {
    if k == |str| then [] else var (u, n) := UnescapeUnit(str, k); [u] + UnescapeFrom(str, k + n)
  }

  /** One turn of the loop: a unit, and where it goes on. */
  method UnescapeOne(str: Text, k0: nat) returns (c: Unit, k: nat)
    requires k0 < |str|
    ensures UnescapeUnit(str, k0) == (c, k - k0) && k0 < k <= |str|
  {
    hide ConvertUnicode, ConvertHexPair;
    var len := |str|;
    k := k0;
    c := str[k];
    if str[k] == '%' as int && k <= len - 6 && str[k + 1] == 'u' as int {
      if IsHexDigit(str[k + 2]) && IsHexDigit(str[k + 3]) && IsHexDigit(str[k + 4]) && IsHexDigit(str[k + 5]) {
        c := ConvertUnicode(str[k + 2], str[k + 3], str[k + 4], str[k + 5]);
        k := k + 5;
      }
    } else if str[k] == '%' as int && k <= len - 3 && IsHexDigit(str[k + 1]) && IsHexDigit(str[k + 2]) {
      c := ConvertHexPair(str[k + 1], str[k + 2]);
      k := k + 2;
    }
    k := k + 1;
  }

  method Unescape(str: Text) returns (s: Text)
    ensures s == UnescapeFrom(str, 0)
  {
    hide UnescapeUnit;
    s := [];
    var k := 0;
    while k < |str|
      invariant 0 <= k <= |str| && s + UnescapeFrom(str, k) == UnescapeFrom(str, 0)
      decreases |str| - k
    {
      var c, k1 := UnescapeOne(str, k);
      assert s + ([c] + UnescapeFrom(str, k1)) == (s + [c]) + UnescapeFrom(str, k1);
      s, k := s + [c], k1;
    }
  }

  /** A percent sign, u and four hexadecimal digits. */
  predicate LongEscape(str: Text, k: nat) {
    k + 6 <= |str| && str[k] == '%' as int && str[k + 1] == 'u' as int && Hexes(str[k + 2..k + 6])
  }

  /** A percent sign and two hexadecimal digits. */
  predicate ShortEscape(str: Text, k: nat) {
    k + 3 <= |str| && str[k] == '%' as int && Hexes(str[k + 1..k + 3])
  }

  lemma LongIsRead(str: Text, k: nat)
    requires LongEscape(str, k)
    ensures UnescapeUnit(str, k)
      == (4096 * ConvertHex(str[k + 2]) + 256 * ConvertHex(str[k + 3]) + 16 * ConvertHex(str[k + 4]) + ConvertHex(str[k + 5]), 6)
  {
    hide ConvertHex, IsHexDigit;
    var t := str[k + 2..k + 6];
    assert t[0] == str[k + 2] && t[1] == str[k + 3] && t[2] == str[k + 4] && t[3] == str[k + 5];
  }

  lemma ShortIsRead(str: Text, k: nat)
    requires ShortEscape(str, k)
    ensures !LongEscape(str, k) && UnescapeUnit(str, k) == (16 * ConvertHex(str[k + 1]) + ConvertHex(str[k + 2]), 3)
  {
    hide ConvertHex;
    var t := str[k + 1..k + 3];
    assert t[0] == str[k + 1] && t[1] == str[k + 2];
  }

  lemma OtherIsRead(str: Text, k: nat)
    requires k < |str| && !LongEscape(str, k) && !ShortEscape(str, k)
    ensures UnescapeUnit(str, k) == (str[k], 1)
  {
    hide ConvertHex, ConvertUnicode, ConvertHexPair, IsHexDigit;
  }

  /** unescape reads well-formed escapes by the weights of their digits, and every other character as it is. */
  lemma UnescapeReads(str: Text, k: nat)
    requires k < |str|
    ensures LongEscape(str, k) ==>
      UnescapeFrom(str, k)
        == [4096 * ConvertHex(str[k + 2]) + 256 * ConvertHex(str[k + 3]) + 16 * ConvertHex(str[k + 4]) + ConvertHex(str[k + 5])]
          + UnescapeFrom(str, k + 6)
    ensures ShortEscape(str, k) ==>
      UnescapeFrom(str, k) == [16 * ConvertHex(str[k + 1]) + ConvertHex(str[k + 2])] + UnescapeFrom(str, k + 3)
    ensures !LongEscape(str, k) && !ShortEscape(str, k) ==> UnescapeFrom(str, k) == [str[k]] + UnescapeFrom(str, k + 1)
  {
    hide UnescapeUnit, ConvertHex, IsHexDigit;
    if ShortEscape(str, k) {
      ShortIsRead(str, k);
    } else if LongEscape(str, k) {
      LongIsRead(str, k);
    } else {
      OtherIsRead(str, k);
    }
  }

  /** A text without well-formed escapes is left as it is. */
  lemma {:induction false} UnescapeLeavesAlone(str: Text, k: nat)
    requires k <= |str| && forall i: nat :: i < |str| ==> !LongEscape(str, i) && !ShortEscape(str, i)
    ensures UnescapeFrom(str, k) == str[k..]
    decreases |str| - k
  {
    hide LongEscape, ShortEscape;
    if k < |str| {
      UnescapeReads(str, k);
      UnescapeLeavesAlone(str, k + 1);
    }
  }

  /** What escape writes for a unit is read back as the unit. */
  lemma EscapedUnitIsUndone(str: Text, k: nat, u: Unit)
    requires StandsAt(str, k, EscapeUnit(u))
    ensures UnescapeUnit(str, k) == (u, |EscapeUnit(u)|)
  {
    hide ConvertUnicode, UpperDigit, ConvertHex;
    var t := EscapeUnit(u);
    CharactersAt(str, k, t);
    assert At(str, k + 0) == t[0];
    if u > 255 {
      FourDigitsConvertBack(u);
      assert At(str, k + 1) == t[1] && At(str, k + 2) == t[2] && At(str, k + 3) == t[3] && At(str, k + 4) == t[4] && At(str, k + 5) == t[5];
    } else if |t| == 3 {
      DigitsConvertBack(u / 0x10);
      DigitsConvertBack(u % 0x10);
      assert At(str, k + 1) == t[1] && At(str, k + 2) == t[2];
      assert t[1] != 'u' as int by { UpperIsNotU(u / 0x10); }
    }
  }

  lemma UpperIsNotU(v: int)
    requires 0 <= v < 16
    ensures UpperDigit(v) != 'u' as int
  {}

  lemma {:induction false} EscapedTextIsUndone(str: Text, k: nat, s: Text)
    requires StandsAt(str, k, EscapeText(s))
    ensures UnescapeFrom(str, k) == s + UnescapeFrom(str, k + |EscapeText(s)|)
    decreases |s|
  {
    hide UnescapeUnit, EscapeUnit, EscapeText, StandsAt, UnescapeFrom;
    StandsInside(str, k, EscapeText(s));
    if s == [] {
      NothingEscaped();
      Appended([], UnescapeFrom(str, k));
    } else {
      var t, c := s[..|s| - 1], s[|s| - 1];
      var n := k + |EscapeText(t)|;
      LastEscaped(s);
      StandInOrder(str, k, EscapeText(t), EscapeUnit(c));
      StandsInside(str, n, EscapeUnit(c));
      EscapedTextIsUndone(str, k, t);
      UnitIsUndone(str, n, c);
      Regrouped(t, c, UnescapeFrom(str, n + |EscapeUnit(c)|), s);
    }
  }

  lemma NothingEscaped()
    ensures EscapeText([]) == []
  {}

  lemma LastEscaped(s: Text)
    requires s != []
    ensures EscapeText(s) == EscapeText(s[..|s| - 1]) + EscapeUnit(s[|s| - 1])
  {}

  lemma Appended(t: Text, x: Text)
    requires t == []
    ensures t + x == x
  {}

  lemma Regrouped(t: Text, c: Unit, x: Text, s: Text)
    requires s != [] && t == s[..|s| - 1] && c == s[|s| - 1]
    ensures t + ([c] + x) == s + x
  {
    assert t + [c] == s;
  }

  lemma StandsInside(str: Text, k: nat, t: Text)
    requires StandsAt(str, k, t)
    ensures k + |t| <= |str|
  {}

  lemma UnitIsUndone(str: Text, k: nat, u: Unit)
    requires StandsAt(str, k, EscapeUnit(u))
    ensures UnescapeFrom(str, k) == [u] + UnescapeFrom(str, k + |EscapeUnit(u)|)
  {
    hide UnescapeUnit, EscapeUnit;
    EscapedUnitIsUndone(str, k, u);
  }

  /** unescape undoes escape. */
  lemma UnescapeUndoesEscape(s: Text)
    ensures UnescapeFrom(EscapeText(s), 0) == s
  {
    hide EscapeText;
    var str := EscapeText(s);
    assert str[0..|str|] == str;
    EscapedTextIsUndone(str, 0, s);
    assert s + [] == s;
  }
}
