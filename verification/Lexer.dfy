/** String literals in the lexer (lexer.cpp): four characters of look-ahead, escape states, a growing buffer. */
module Lexer {
  /** A UTF-16 code unit. */
  type Unit = u: int | 0 <= u < 0x1_0000

  type Text = seq<Unit>

  const QUOTE: int := 0x22
  const BACKSLASH: int := 0x5c
  const CR: int := 0x0d
  const LF: int := 0x0a

  /** The character at a position, or -1 past the end. */
  function At(code: Text, i: nat): int {
    if i < |code| then code[i] else -1
  }

  predicate IsOctalDigit(c: int) {
    '0' as int <= c <= '7' as int
  }

  predicate IsHexDigit(c: int) {
    '0' as int <= c <= '9' as int || 'a' as int <= c <= 'f' as int || 'A' as int <= c <= 'F' as int
  }

  predicate IsTerminator(c: int) {
    c == CR || c == LF || c == 0x2028 || c == 0x2029
  }

  function ConvertHex(c: int): (v: int)
    requires IsHexDigit(c)
    ensures 0 <= v < 16
  {
    if c <= '9' as int then c - '0' as int
    else if c >= 'a' as int then c - 'a' as int + 10
    else c - 'A' as int + 10
  }

  function ConvertOctal(c1: int, c2: int, c3: int): Unit
    requires IsOctalDigit(c1) && IsOctalDigit(c2) && IsOctalDigit(c3)
  {
    (c1 - '0' as int) * 64 + (c2 - '0' as int) * 8 + (c3 - '0' as int)
  }

  function ConvertHexPair(c1: int, c2: int): Unit
    requires IsHexDigit(c1) && IsHexDigit(c2)
  {
    ConvertHex(c1) * 16 + ConvertHex(c2)
  }

  function ConvertUnicode(c1: int, c2: int, c3: int, c4: int): Unit
    requires IsHexDigit(c1) && IsHexDigit(c2) && IsHexDigit(c3) && IsHexDigit(c4)
  {
    ConvertHexPair(c1, c2) * 0x100 + ConvertHexPair(c3, c4)
  }

  /** The narrowing of an int to a code unit; the end marker -1 becomes 0xffff. */
  function Narrow(c: int): Unit {
    c % 0x1_0000
  }

  function SingleEscape(c: Unit): Unit {
    if c == 'b' as int then 0x08
    else if c == 't' as int then 0x09
    else if c == 'n' as int then 0x0a
    else if c == 'v' as int then 0x0b
    else if c == 'f' as int then 0x0c
    else if c == 'r' as int then 0x0d
    else c
  }

  // What a string literal denotes, by position.

  /** A literal's characters and the position after its closing quote, or no literal. */
  datatype Scanned = Literal(s: Text, end: nat) | Malformed

  function Prepend(c: Unit, r: Scanned): Scanned {
    if r.Literal? then Literal([c] + r.s, r.end) else r
  }

  /** A backslash before CR LF or LF CR continues the line past both. */
  function LineEnd(code: Text, i: nat): nat {
    if (At(code, i) == CR && At(code, i + 1) == LF) || (At(code, i) == LF && At(code, i + 1) == CR) then i + 2 else i + 1
  }

  function Left(code: Text, i: nat): nat {
    if i < |code| then |code| - i else 0
  }

  /** The characters from position i on, inside quotes q. */
  function Scan(code: Text, i: nat, q: int): Scanned
    decreases Left(code, i), 1
  {
    var c := At(code, i);
    if c == q then Literal([], i + 1)
    else if c == -1 || IsTerminator(c) then Malformed
    else if c == BACKSLASH then ScanEscape(code, i + 1, q)
    else Prepend(c, Scan(code, i + 1, q))
  }

  /** The same, after a backslash. */
  function ScanEscape(code: Text, i: nat, q: int): Scanned
    decreases Left(code, i), 2
  {
    var c, c1, c2 := At(code, i), At(code, i + 1), At(code, i + 2);
    if IsOctalDigit(c) then
      if c <= '3' as int && IsOctalDigit(c1) && IsOctalDigit(c2) then Prepend(ConvertOctal(c, c1, c2), Scan(code, i + 3, q))
      else if IsOctalDigit(c1) then Prepend(ConvertOctal('0' as int, c, c1), Scan(code, i + 2, q))
      else Prepend(ConvertOctal('0' as int, '0' as int, c), Scan(code, i + 1, q))
    else if c == 'x' as int then ScanHex(code, i + 1, q)
    else if c == 'u' as int then ScanUnicode(code, i + 1, q)
    else if IsTerminator(c) then Scan(code, LineEnd(code, i), q)
    else Prepend(SingleEscape(Narrow(c)), Scan(code, i + 1, q))
  }

  /** The same, after a backslash and an x. */
  function ScanHex(code: Text, i: nat, q: int): Scanned
    decreases Left(code, i), 2
  {
    var c, c1 := At(code, i), At(code, i + 1);
    if IsHexDigit(c) && IsHexDigit(c1) then Prepend(ConvertHexPair(c, c1), Scan(code, i + 2, q))
    else if c == q then Literal(['x' as int], i + 1)
    else Prepend('x' as int, Prepend(Narrow(c), Scan(code, i + 1, q)))
  }

  /** The same, after a backslash and a u. */
  function ScanUnicode(code: Text, i: nat, q: int): Scanned
    decreases Left(code, i), 2
  {
    var c, c1, c2, c3 := At(code, i), At(code, i + 1), At(code, i + 2), At(code, i + 3);
    if IsHexDigit(c) && IsHexDigit(c1) && IsHexDigit(c2) && IsHexDigit(c3) then
      Prepend(ConvertUnicode(c, c1, c2, c3), Scan(code, i + 4, q))
    else if c == q then Literal(['u' as int], i + 1)
    else Malformed
  }

  // The lexer itself.

  /** The states that string literals go through. */
  datatype State = Start | InString | InEscapeSequence | InHexEscape | InUnicodeEscape | String | Bad

  /** Characters already recorded in front of what is still to come. */
  function After(t: Text, r: Scanned): Scanned {
    if r.Literal? then Literal(t + r.s, r.end) else r
  }

  /** What a state has still to scan from position i. */
  function Rest(code: Text, state: State, i: nat, q: int): Scanned {
    match state
    case InString => Scan(code, i, q)
    case InEscapeSequence => ScanEscape(code, i, q)
    case InHexEscape => ScanHex(code, i, q)
    case InUnicodeEscape => ScanUnicode(code, i, q)
    case _ => Malformed
  }

  lemma AfterRecorded(t: Text, c: Unit, r: Scanned)
    ensures After(t, Prepend(c, r)) == After(t + [c], r)
  {
    if r.Literal? {
      assert t + ([c] + r.s) == (t + [c]) + r.s;
    }
  }

  /** The token handed to the parser. */
  datatype Token = STRING(value: Text) | ERROR

  class Lexer {
    var code: Text
    var pos: nat
    var current: int
    var next1: int
    var next2: int
    var next3: int
    var buffer16: array<Unit>
    var size16: nat
    var pos16: nat
    var state: State
    var done: bool
    var skipLF: bool
    var skipCR: bool
    var error: bool
    var lineNo: int

    /** The look-ahead: the character at pos and the next three, -1 standing for the end. */
    ghost predicate Ahead()
      reads `code, `pos, `current, `next1, `next2, `next3
    {
      current == At(code, pos) && next1 == At(code, pos + 1) && next2 == At(code, pos + 2) && next3 == At(code, pos + 3)
    }

    ghost predicate Valid()
      reads this
    {
      Ahead() && buffer16.Length == size16 && size16 >= 128 && pos16 < size16
    }

    /** The characters recorded so far. */
    ghost function Recorded(): Text
      requires pos16 <= buffer16.Length
      reads `buffer16, `pos16, buffer16
    {
      buffer16[..pos16]
    }

    constructor ()
      ensures Valid() && fresh(buffer16) && code == [] && pos == 0
    {
      code, pos, current, next1, next2, next3 := [], 0, -1, -1, -1, -1;
      size16, pos16 := 128, 0;
      buffer16 := new Unit[128](_ => 0);
      state, done, skipLF, skipCR, error, lineNo := Start, false, false, false, false, 1;
    }

    /** Starts on a new source text. */
    method SetCode(startingLineNumber: int, c: Text)
      requires Valid()
      modifies `lineNo, `pos, `code, `skipLF, `skipCR, `error, `current, `next1, `next2, `next3
      ensures Valid() && code == c && pos == 0 && !error && lineNo == 1 + startingLineNumber
    {
      lineNo, pos, code, skipLF, skipCR, error := 1 + startingLineNumber, 0, c, false, false, false;
      ReadAhead();
    }

    /** Reads the first characters. */
    method ReadAhead()
      requires pos == 0
      modifies `current, `next1, `next2, `next3
      ensures Ahead()
    {
      current := if |code| > 0 then code[0] else -1;
      next1 := if |code| > 1 then code[1] else -1;
      next2 := if |code| > 2 then code[2] else -1;
      next3 := if |code| > 3 then code[3] else -1;
    }

    /** Moves on by p characters, keeping the look-ahead. */
    method Shift(p: nat)
      requires Ahead()
      modifies `pos, `current, `next1, `next2, `next3
      ensures Ahead() && pos == old(pos) + p
    {
      var n := p;
      while n > 0
        invariant 0 <= n <= p && pos == old(pos) + (p - n) && Ahead()
      {
        n := n - 1;
        pos := pos + 1;
        current, next1, next2 := next1, next2, next3;
        next3 := if pos + 3 < |code| then code[pos + 3] else -1;
      }
    }

    /** Appends a character, doubling the buffer when only its last place is left. */
    method Record16(c: int)
      requires Valid()
      modifies `buffer16, `size16, `pos16, buffer16
      ensures Valid() && Recorded() == old(Recorded()) + [Narrow(c)]
      ensures buffer16 == old(buffer16) || fresh(buffer16)
    {
      if pos16 >= size16 - 1 {
        var tmp := new Unit[2 * size16](_ => 0);
        forall i | 0 <= i < size16 {
          tmp[i] := buffer16[i];
        }
        assert tmp[..pos16] == buffer16[..pos16];
        buffer16 := tmp;
        size16 := 2 * size16;
      }
      buffer16[pos16] := Narrow(c);
      pos16 := pos16 + 1;
    }

    /** Tests for a line end, remembering to skip the other half of a pair. */
    method IsLineTerminator() returns (t: bool)
      modifies `skipLF, `skipCR
      ensures t <==> IsTerminator(current)
      ensures skipLF == (old(skipLF) || current == CR) && skipCR == (old(skipCR) || (current == LF))
    {
      var cr, lf := current == CR, current == LF;
      if cr {
        skipLF := true;
      } else if lf {
        skipCR := true;
      }
      t := cr || lf || current == 0x2028 || current == 0x2029;
    }

    method SetDone(s: State)
      modifies `state, `done
      ensures state == s && done
    {
      state := s;
      done := true;
    }

    /** The position scanning goes on from: past the second half of a line end that is still to be skipped. */
    ghost function Here(): nat
      reads `pos, `current, `skipLF, `skipCR
    {
      if (skipLF && current == LF) || (skipCR && current == CR) then pos + 1 else pos
    }

    /** The literal scanned from a state of the lexer on is the goal. */
    ghost predicate HeadsFor(goal: Scanned, q: int)
      requires pos16 <= buffer16.Length
      reads this, buffer16
    {
      && (state != InString && !done ==> !skipLF && !skipCR)
      && (done ==> state == Bad || state == String)
      && (if done then (if state == String then goal == Literal(Recorded(), pos) else goal == Malformed)
          else goal == After(Recorded(), Rest(code, state, Here(), q)))
    }

    /** The same between handling the current character and moving on from it. */
    ghost predicate Pending(goal: Scanned, q: int)
      requires pos16 <= buffer16.Length
      reads this, buffer16
    {
      && (state != InString && !done ==> !skipLF && !skipCR)
      && (done ==> state == Bad || state == String)
      && (if done then (if state == String then goal == Literal(Recorded(), pos) else goal == Malformed)
          else goal == After(Recorded(), Rest(code, state, HereNext(), q)))
    }

    /** Where Here will be after one shift. */
    ghost function HereNext(): nat
      reads `pos, `next1, `skipLF, `skipCR
    {
      if (skipLF && next1 == LF) || (skipCR && next1 == CR) then pos + 2 else pos + 1
    }

    /** A case of the state switch: no pending line end, and a goal to head for. */
    ghost predicate InCase(s: State, goal: Scanned, q: int)
      reads this, buffer16
    {
      Valid() && !done && state == s && !skipLF && !skipCR && goal == After(Recorded(), Rest(code, s, pos, q))
    }

    /** Records one character and stays inside the quotes, n characters further on. */
    method RecordAndShift(c: int, n: nat, q: int, ghost goal: Scanned)
      requires Valid() && !done && !skipLF && !skipCR
      requires goal == After(Recorded(), Prepend(Narrow(c), Scan(code, pos + n + 1, q)))
      modifies `pos, `current, `next1, `next2, `next3, `buffer16, `size16, `pos16, `state, `done, `skipLF, `skipCR, `lineNo, buffer16
      ensures Valid() && Pending(goal, q) && !done && (buffer16 == old(buffer16) || fresh(buffer16))
      ensures state == InString && pos == old(pos) + n && skipLF == skipCR == false
    {
      hide Scan, At;
      AfterRecorded(Recorded(), Narrow(c), Scan(code, pos + n + 1, q));
      Record16(c);
      Shift(n);
      state := InString;
    }

    /** Records a last character in front of the closing quote and finishes the literal. */
    method CloseWith(c: Unit, q: int, ghost goal: Scanned)
      requires Valid() && !done && goal == After(Recorded(), Literal([c], pos + 1))
      modifies `pos, `current, `next1, `next2, `next3, `buffer16, `size16, `pos16, `state, `done, `skipLF, `skipCR, `lineNo, buffer16
      ensures Valid() && Pending(goal, q) && done && (buffer16 == old(buffer16) || fresh(buffer16))
    {
      hide At;
      Record16(c);
      Shift(1);
      SetDone(String);
    }

    /** Inside the quotes. */
    method StringCase(q: int, ghost goal: Scanned)
      requires InCase(InString, goal, q)
      modifies `pos, `current, `next1, `next2, `next3, `buffer16, `size16, `pos16, `state, `done, `skipLF, `skipCR, `lineNo, buffer16
      ensures Valid() && Pending(goal, q) && (buffer16 == old(buffer16) || fresh(buffer16))
      ensures !done ==> pos == old(pos) && pos < |code| && (state == InString || state == InEscapeSequence)
    {
      hide ScanEscape, ScanHex, ScanUnicode, Recorded;
      if current == q {
        Shift(1);
        SetDone(String);
      } else {
        var end := IsLineTerminator();
        if end || current == -1 {
          SetDone(Bad);
        } else if current == BACKSLASH {
          state := InEscapeSequence;
        } else {
          RecordAndShift(current, 0, q, goal);
        }
      }
    }

    /** After a backslash. */
    method EscapeCase(q: int, ghost goal: Scanned)
      requires InCase(InEscapeSequence, goal, q)
      modifies `pos, `current, `next1, `next2, `next3, `buffer16, `size16, `pos16, `state, `done, `skipLF, `skipCR, `lineNo, buffer16
      ensures Valid() && Pending(goal, q) && (buffer16 == old(buffer16) || fresh(buffer16))
      ensures !done && (if state == InString then pos >= old(pos) else pos == old(pos) < |code| && (state == InHexEscape || state == InUnicodeEscape))
    {
      hide Scan, ScanHex, ScanUnicode, ConvertOctal, SingleEscape, Recorded, After, Prepend;
      if IsOctalDigit(current) {
        if current <= '3' as int && IsOctalDigit(next1) && IsOctalDigit(next2) {
          RecordAndShift(ConvertOctal(current, next1, next2), 2, q, goal);
        } else if IsOctalDigit(next1) {
          RecordAndShift(ConvertOctal('0' as int, current, next1), 1, q, goal);
        } else {
          RecordAndShift(ConvertOctal('0' as int, '0' as int, current), 0, q, goal);
        }
      } else if current == 'x' as int {
        state := InHexEscape;
      } else if current == 'u' as int {
        state := InUnicodeEscape;
      } else {
        var end := IsLineTerminator();
        if end {
          lineNo := lineNo + 1;
          state := InString;
        } else {
          RecordAndShift(SingleEscape(Narrow(current)), 0, q, goal);
        }
      }
    }

    /** After a backslash and an x. */
    method HexCase(q: int, ghost goal: Scanned)
      requires InCase(InHexEscape, goal, q)
      modifies `pos, `current, `next1, `next2, `next3, `buffer16, `size16, `pos16, `state, `done, `skipLF, `skipCR, `lineNo, buffer16
      ensures Valid() && Pending(goal, q) && (buffer16 == old(buffer16) || fresh(buffer16))
      ensures !done ==> state == InString && pos >= old(pos)
    {
      hide Scan, ConvertHexPair, Recorded, After, Prepend, Pending;
      if IsHexDigit(current) && IsHexDigit(next1) {
        RecordAndShift(ConvertHexPair(current, next1), 1, q, goal);
      } else if current == q {
        CloseWith('x' as int, q, goal);
      } else {
        AfterRecorded(Recorded(), 'x' as int, Prepend(Narrow(current), Scan(code, pos + 1, q)));
        Record16('x' as int);
        RecordAndShift(current, 0, q, goal);
      }
    }

    /** After a backslash and a u. */
    method UnicodeCase(q: int, ghost goal: Scanned)
      requires InCase(InUnicodeEscape, goal, q)
      modifies `pos, `current, `next1, `next2, `next3, `buffer16, `size16, `pos16, `state, `done, `skipLF, `skipCR, `lineNo, buffer16
      ensures Valid() && Pending(goal, q) && (buffer16 == old(buffer16) || fresh(buffer16))
      ensures !done ==> state == InString && pos >= old(pos)
    {
      hide Scan, ConvertUnicode, Recorded, Prepend;
      if IsHexDigit(current) && IsHexDigit(next1) && IsHexDigit(next2) && IsHexDigit(next3) {
        RecordAndShift(ConvertUnicode(current, next1, next2, next3), 3, q, goal);
      } else if current == q {
        CloseWith('u' as int, q, goal);
      } else {
        SetDone(Bad);
      }
    }

    /** The top of the loop: drops the second half of a line end. */
    method SkipLineEnd(q: int, ghost goal: Scanned)
      requires Valid() && HeadsFor(goal, q) && !done
      modifies `pos, `current, `next1, `next2, `next3, `skipLF, `skipCR
      ensures InCase(state, goal, q) && old(pos) <= pos
    {
      hide Scan, ScanEscape, ScanHex, ScanUnicode, Recorded;
      if skipLF && current != LF {
        skipLF := false;
      }
      if skipCR && current != CR {
        skipCR := false;
      }
      if skipLF || skipCR {
        skipLF, skipCR := false, false;
        Shift(1);
      }
    }

    /** How much is left to do: characters, and a little more in the middle of an escape. */
    ghost function Work(): nat
      reads `code, `pos, `state, `done
    {
      if done then 0 else 2 * Left(code, pos) + if state == InString then 1 else 2
    }

    /** The end of the loop body: moves on to the next character. */
    method Advance(q: int, ghost goal: Scanned)
      requires Valid() && Pending(goal, q) && !done
      modifies `pos, `current, `next1, `next2, `next3
      ensures Valid() && HeadsFor(goal, q) && pos == old(pos) + 1
    {
      hide Scan, ScanEscape, ScanHex, ScanUnicode, At, Recorded, Rest, After;
      Shift(1);
    }

    /** One turn of the loop. */
    method Turn(q: int, ghost goal: Scanned)
      requires Valid() && HeadsFor(goal, q) && !done && state != Start && state != String && state != Bad
      modifies `pos, `current, `next1, `next2, `next3, `buffer16, `size16, `pos16, `state, `done, `skipLF, `skipCR, `lineNo, buffer16
      ensures Valid() && HeadsFor(goal, q) && (buffer16 == old(buffer16) || fresh(buffer16))
      ensures Work() < old(Work()) && (!done ==> state != Start && state != String && state != Bad)
    {
      hide InCase, HeadsFor, Ahead;
      SkipLineEnd(q, goal);
      if state == InString {
        StringCase(q, goal);
      } else if state == InEscapeSequence {
        EscapeCase(q, goal);
      } else if state == InHexEscape {
        HexCase(q, goal);
      } else {
        UnicodeCase(q, goal);
      }
      if !done {
        Advance(q, goal);
      } else {
        PendingEnds(goal, q);
      }
    }

    lemma PendingEnds(goal: Scanned, q: int)
      requires Valid() && Pending(goal, q) && done
      ensures HeadsFor(goal, q)
    {}

    /** Start: the opening quote. */
    method OpenQuote(ghost goal: Scanned)
      requires Valid() && goal == Scan(code, pos + 1, current)
      modifies `pos, `current, `next1, `next2, `next3, `pos16, `state, `done, `skipLF, `skipCR
      ensures Valid() && HeadsFor(goal, old(current)) && !done && state == InString
    {
      hide Scan, At;
      state, done, skipLF, skipCR, pos16 := InString, false, false, false, 0;
      Shift(1);
    }

    /** A string literal, from its opening quote: the token is the literal that starts there, or an error if there is none. */
    method Lex() returns (token: Token)
      requires Valid() && (current == QUOTE || current == '\'' as int)
      modifies `pos, `current, `next1, `next2, `next3, `buffer16, `size16, `pos16, `state, `done, `skipLF, `skipCR, `lineNo, buffer16, `error
      ensures Valid() && (buffer16 == old(buffer16) || fresh(buffer16))
      ensures match Scan(code, old(pos) + 1, old(current))
        case Literal(s, end) => token == STRING(s) && pos == end && error == old(error)
        case Malformed => token == ERROR && error
    {
      hide Scan, At, HeadsFor;
      ghost var goal := Scan(code, pos + 1, current);
      var stringType := current;
      OpenQuote(goal);
      while !done
        invariant Valid() && HeadsFor(goal, stringType) && (buffer16 == old(buffer16) || fresh(buffer16)) && error == old(error)
        invariant !done ==> state != Start && state != String && state != Bad
        decreases Work()
      {
        Turn(stringType, goal);
      }
      ScanEnds(goal, stringType);
      if state == Bad {
        error := true;
        token := ERROR;
      } else {
        token := STRING(buffer16[..pos16]);
      }
    }

    lemma ScanEnds(goal: Scanned, q: int)
      requires Valid() && HeadsFor(goal, q) && done
      ensures if state == Bad then goal == Malformed else goal == Literal(buffer16[..pos16], pos)
    {}
  }
}
