/**
 * The lexer: a cursor with push-back over a source of code units. Its string, pattern and name
 * scanners are proved to be the functions of Escapes and Tokens; Next is proved to make progress
 * and to find the tokens and trivia that Tokens says are there, without gap or overlap.
 */
module Lexing {
  import opened Basics
  import opened Characters
  import opened Escapes
  import opened Tokens

  // ----- the lexer -----

  class Lexer {
    const source: Text
    const tables: Tables
    var pos: nat
    var c: int
    var buffer16: Text
    var escapeType: EscapeType
    var numberType: NumberType
    var lineTerminatorBefore: bool
    var begin: int
    var end: nat

    constructor (source: Text, tables: Tables)
      ensures this.source == source && this.tables == tables
      ensures Synced() && pos == 1
    {
      this.source := source;
      this.tables := tables;
      pos, c, buffer16, escapeType, numberType := 0, -1, [], NONE, DECIMAL;
      lineTerminatorBefore, begin, end := false, 0, 0;
      new;
      Advance();
    }

    /** The current character is the one before pos; pos goes one past the end to mark it. */
    ghost predicate Synced()
      reads this`pos, this`c
    {
      1 <= pos <= |source| + 1 && c == At(source, pos - 1)
    }

    method Advance()
      requires pos <= |source| + 1
      modifies this`pos, this`c
      ensures Synced() && pos == if old(pos) <= |source| then old(pos) + 1 else old(pos)
    {
      if pos >= |source| {
        c := -1;
        if pos == |source| {
          pos := pos + 1;
        }
      } else {
        c := source[pos];
        pos := pos + 1;
      }
    }

    /** Undoes one Advance; there is nothing to go back to before the second character. */
    method PushBack()
      requires pos <= |source| + 1
      modifies this`pos, this`c
      ensures old(pos) >= 2 ==> Synced() && pos == old(pos) - 1
      ensures old(pos) < 2 ==> pos == old(pos) && c == -1
    {
      if pos < 2 {
        c := -1;
      } else {
        c := source[pos - 2];
        pos := pos - 1;
      }
    }

    method Record16Advance()
      requires Synced() && c >= 0
      modifies this`pos, this`c, this`buffer16
      ensures Synced() && pos == old(pos) + 1 && buffer16 == old(buffer16) + [old(c)]
    {
      buffer16 := buffer16 + [c];
      Advance();
    }

    method SkipLineTerminator()
      requires Synced() && IsLineTerminator(c)
      modifies this`pos, this`c
      ensures Synced()
      ensures pos == old(pos) + if old(c) == CR && At(source, old(pos)) == LF then 2 else 1
    {
      var first := c;
      Advance();
      if first == CR && c == LF {
        Advance();
      }
    }

    /** On a bad digit every advance is pushed back and the cursor is where it was. */
    method ScanHexEscape(fallback: Unit, len: nat) returns (value: Unit, ng: bool)
      requires Synced() && len <= 4
      modifies this`pos, this`c
      ensures Synced()
      ensures ng <==> HexAt(source, old(pos) - 1, len).None?
      ensures ng ==> value == fallback && pos == old(pos) && c == old(c)
      ensures !ng ==> value == HexAt(source, old(pos) - 1, len).value && pos == old(pos) + len
    {
      ghost var start := pos - 1;
      assert Pow16(0) == 1 && Pow16(1) == 16 && Pow16(2) == 256 && Pow16(3) == 4096 && Pow16(4) == 65536;
      var res: int := 0;
      for i := 0 to len
        invariant Synced() && pos == start + 1 + i
        invariant HexAt(source, start, i) == Some(res)
      {
        var d := HexValue(c);
        if d < 0 {
          var j := i - 1;
          while j >= 0
            invariant -1 <= j < i && Synced() && pos == start + 2 + j
          {
            PushBack();
            j := j - 1;
          }
          HexStops(source, start, i, len);
          return fallback, true;
        }
        res := res * 16 + d;
        Advance();
      }
      return res, false;
    }

    /** The escape sequence behind a backslash. */
    method ScanEscape() returns (ok: bool)
      requires Synced() && c >= 0
      modifies this`pos, this`c, this`buffer16, this`escapeType
      ensures Synced() && pos >= old(pos)
      ensures ok <==> EscapeAt(source, old(pos) - 1).Some?
      ensures ok ==>
        var e := EscapeAt(source, old(pos) - 1).value;
        pos == e.next + 1 && buffer16 == old(buffer16) + e.text && escapeType == if e.octal then OCTAL else old(escapeType)
    {
      if IsLineTerminator(c) {
        SkipLineTerminator();
        return true;
      }
      if c == APOSTROPHE || c == QUOTE || c == BACKSLASH {
        Record16Advance();
      } else if c == LOWER_B {
        Record(BACKSPACE);
      } else if c == LOWER_F {
        Record(FF);
      } else if c == LOWER_N {
        Record(LF);
      } else if c == LOWER_R {
        Record(CR);
      } else if c == LOWER_T {
        Record(TAB);
      } else if c == LOWER_U {
        ok := ScanHexUnit(LOWER_U, 4);
        return;
      } else if c == LOWER_V {
        Record(VT);
      } else if c == LOWER_X {
        ok := ScanHexUnit(LOWER_X, 2);
        return;
      } else if IsOctalDigit(c) {
        ok := ScanOctal();
        return;
      } else if c == DIGIT_8 || c == DIGIT_9 {
        return false;
      } else {
        Record16Advance();
      }
      ok := true;
    }

    method Record(u: Unit)
      requires Synced() && c >= 0
      modifies this`pos, this`c, this`buffer16
      ensures Synced() && pos == old(pos) + 1 && buffer16 == old(buffer16) + [u]
    {
      buffer16 := buffer16 + [u];
      Advance();
    }

    method ScanHexUnit(fallback: Unit, len: nat) returns (ok: bool)
      requires Synced() && c >= 0 && len <= 4
      modifies this`pos, this`c, this`buffer16
      ensures Synced() && pos > old(pos)
      ensures ok <==> HexEscape(source, old(pos), len).Some?
      ensures ok ==>
        pos == HexEscape(source, old(pos), len).value.next + 1
        && buffer16 == old(buffer16) + HexEscape(source, old(pos), len).value.text
    {
      Advance();
      var uc, ng := ScanHexEscape(fallback, len);
      if ng {
        return false;
      }
      buffer16 := buffer16 + [uc];
      return true;
    }

    method ScanOctal() returns (ok: bool)
      requires Synced() && IsOctalDigit(c)
      modifies this`pos, this`c, this`buffer16, this`escapeType
      ensures Synced() && pos > old(pos)
      ensures ok <==> OctalEscape(source, old(pos) - 1).Some?
      ensures ok ==>
        var e := OctalEscape(source, old(pos) - 1).value;
        pos == e.next + 1 && buffer16 == old(buffer16) + e.text && escapeType == if e.octal then OCTAL else old(escapeType)
    {
      var uc := OctalValue(c);
      if uc != 0 {
        escapeType := OCTAL;
      }
      var short := uc > 3;
      Advance();
      if IsDecimalDigit(c) {
        if !IsOctalDigit(c) {
          return false;
        }
        escapeType := OCTAL;
        uc := uc * 8 + OctalValue(c);
        Advance();
        if !short && IsDecimalDigit(c) {
          if !IsOctalDigit(c) {
            return false;
          }
          uc := uc * 8 + OctalValue(c);
          Advance();
        }
      }
      buffer16 := buffer16 + [uc];
      return true;
    }

    /** A string literal; the result, its text and its kind of escapes are those of the scanning function. */
    method ScanString() returns (token: Token)
      requires Synced() && c in {QUOTE as int, APOSTROPHE as int}
      modifies this`pos, this`c, this`buffer16, this`escapeType
      ensures Synced() && pos > old(pos)
      ensures token in {STRING, ILLEGAL}
      ensures var spec := StringAt(source, old(pos), old(c), [], NONE);
        && (token == STRING <==> spec.Some?)
        && (token == STRING ==> buffer16 == spec.value.buffer && escapeType == spec.value.escape && pos == spec.value.next + 1)
    {
      var quote: Unit := c;
      escapeType := NONE;
      buffer16 := [];
      ghost var spec := StringAt(source, pos, quote, [], NONE);
      hide EscapeAt, IsLineTerminator;
      Advance();
      while c != quote && c >= 0 && !IsLineTerminator(c)
        invariant Synced() && pos > old(pos)
        invariant pos <= |source| + 1 && spec == StringAt(source, pos - 1, quote, buffer16, escapeType)
        decreases |source| + 1 - pos
      {
        var ok := ScanStringUnit(quote);
        if !ok {
          return ILLEGAL;
        }
      }
      if c != quote {
        return ILLEGAL;
      }
      Advance();
      return STRING;
    }

    /** One unit of a string, or an escape sequence. */
    method ScanStringUnit(quote: Unit) returns (ok: bool)
      requires Synced() && c != quote && c >= 0 && !IsLineTerminator(c)
      modifies this`pos, this`c, this`buffer16, this`escapeType
      ensures Synced() && pos > old(pos)
      ensures !ok ==> StringAt(source, old(pos) - 1, quote, old(buffer16), old(escapeType)).None?
      ensures ok ==>
        StringAt(source, old(pos) - 1, quote, old(buffer16), old(escapeType)) == StringAt(source, pos - 1, quote, buffer16, escapeType)
    {
      hide EscapeAt, IsLineTerminator;
      if c != BACKSLASH {
        Record16Advance();
        return true;
      }
      Advance();
      if c < 0 {
        return false;
      }
      if escapeType == NONE {
        escapeType := ESCAPE;
      }
      ok := ScanEscape();
    }

    /** The text of a pattern, with the `=` that was read before it was known to be one. */
    ghost function PatternText(containsEq: bool, i: nat, j: nat): Text
      requires i <= j <= |source|
    {
      (if containsEq then [EQUALS] else []) + source[i..j]
    }

    lemma PatternGrows(containsEq: bool, i: nat, j: nat, k: nat)
      requires i <= j <= k <= |source|
      ensures PatternText(containsEq, i, i) == if containsEq then [EQUALS] else []
      ensures PatternText(containsEq, i, j) + source[j..k] == PatternText(containsEq, i, k)
    {
      assert source[i..k] == source[i..j] + source[j..k];
    }

    /** The rest of a pattern behind `/`, or behind `/=` when containsEq. */
    method ScanRegExpLiteral(containsEq: bool) returns (ok: bool)
      requires Synced()
      modifies this`pos, this`c, this`buffer16
      ensures Synced() && pos >= old(pos)
      ensures ok <==> PatternAt(source, old(pos) - 1, false).Some?
      ensures ok ==>
        var next := PatternAt(source, old(pos) - 1, false).value;
        pos == next + 1 && buffer16 == PatternText(containsEq, old(pos) - 1, next - 1)
    {
      var character := false;
      buffer16 := [];
      if containsEq {
        buffer16 := [EQUALS];
      }
      ghost var start := pos - 1;
      ghost var spec := PatternAt(source, start, false);
      PatternGrows(containsEq, start, start, start);
      hide *;
      while c != SLASH || character
        invariant Synced() && start <= pos - 1 <= |source|
        invariant spec == PatternAt(source, pos - 1, character)
        invariant buffer16 == PatternText(containsEq, start, pos - 1)
        decreases |source| + 1 - pos
      {
        ok, character := ScanPatternPart(containsEq, start, character);
        if !ok {
          return;
        }
      }
      ClosingSlash();
      Advance();
      return true;
    }

    /** One more unit of the pattern that begins at `start`. */
    method ScanPatternPart(ghost containsEq: bool, ghost start: nat, inClass: bool) returns (ok: bool, stays: bool)
      requires Synced() && start <= pos - 1 <= |source| && (c != SLASH || inClass)
      requires buffer16 == PatternText(containsEq, start, pos - 1)
      modifies this`pos, this`c, this`buffer16
      ensures Synced() && pos >= old(pos)
      ensures !ok ==> PatternAt(source, old(pos) - 1, inClass).None?
      ensures ok ==> old(pos) < pos <= |source| + 1 && buffer16 == PatternText(containsEq, start, pos - 1)
      ensures ok ==> PatternAt(source, old(pos) - 1, inClass) == PatternAt(source, pos - 1, stays)
    {
      hide *;
      ghost var at := pos - 1;
      ok, stays := ScanPatternUnit(inClass);
      if ok {
        PatternGrows(containsEq, start, at, pos - 1);
      }
    }

    lemma ClosingSlash()
      requires Synced() && c == SLASH
      ensures pos <= |source| && PatternAt(source, pos - 1, false) == Some(pos)
    {
    }

    /** One unit of a pattern, or a backslash and the unit behind it. */
    method ScanPatternUnit(inClass: bool) returns (ok: bool, stays: bool)
      requires Synced() && (c != SLASH || inClass)
      modifies this`pos, this`c, this`buffer16
      ensures Synced() && pos >= old(pos)
      ensures !ok ==> PatternAt(source, old(pos) - 1, inClass).None?
      ensures ok ==> old(pos) < pos <= |source| + 1
      ensures ok ==> PatternAt(source, old(pos) - 1, inClass) == PatternAt(source, pos - 1, stays)
      ensures ok ==> buffer16 == old(buffer16) + source[old(pos) - 1..pos - 1]
    {
      ghost var start := pos - 1;
      stays := inClass;
      if c < 0 || IsLineTerminator(c) {
        Advance();
        return false, stays;
      }
      if c == BACKSLASH {
        Record16Advance();
        if c < 0 || IsLineTerminator(c) {
          return false, stays;
        }
        Record16Advance();
        assert source[start..pos - 1] == [source[start]] + [source[start + 1]];
      } else {
        if c == Characters.LBRACK {
          stays := true;
        } else if c == Characters.RBRACK {
          stays := false;
        }
        Record16Advance();
        assert source[start..pos - 1] == [source[start]];
      }
      ok := true;
    }

    // ----- comments -----

    method SkipSingleLineComment()
      requires Synced() && c >= 0
      modifies this`pos, this`c
      ensures Synced() && pos == LineEnd(source, old(pos)) + 1
    {
      Advance();
      while c >= 0 && !IsLineTerminator(c)
        invariant Synced() && pos > old(pos) && LineEnd(source, old(pos)) == LineEnd(source, pos - 1)
        decreases |source| + 1 - pos
      {
        Advance();
      }
    }

    predicate BrokenBetween(i: nat, j: nat)
    {
      exists m :: i <= m < j && IsLineTerminator(At(source, m))
    }

    /** From the star behind the slash; a closed comment is left as one space. */
    method SkipMultiLineComment() returns (token: Token)
      requires Synced() && c >= 0
      modifies this`pos, this`c, this`lineTerminatorBefore
      ensures token in {NOT_FOUND, ILLEGAL}
      ensures lineTerminatorBefore == (old(lineTerminatorBefore) || BrokenBetween(old(pos) + 1, pos))
      ensures token == NOT_FOUND ==>
        c == SPACE && old(pos) + 2 <= pos <= |source| && CommentEnd(source, pos - 2)
        && forall j :: old(pos) <= j < pos - 2 ==> !CommentEnd(source, j)
      ensures token == ILLEGAL ==> Synced() && c < 0 && forall j :: old(pos) <= j ==> !CommentEnd(source, j)
    {
      Advance();
      while c >= 0
        invariant Synced() && pos > old(pos)
        invariant forall j :: old(pos) <= j < pos - 1 ==> !CommentEnd(source, j)
        invariant lineTerminatorBefore == (old(lineTerminatorBefore) || BrokenBetween(old(pos) + 1, pos))
        decreases |source| + 1 - pos
      {
        var ch := c;
        Advance();
        if ch == ASTERISK && c == SLASH {
          c := SPACE;
          return NOT_FOUND;
        } else if IsLineTerminator(c) {
          SkipLineTerminator();
          lineTerminatorBefore := true;
        }
      }
      return ILLEGAL;
    }

    /** `<!--` starts a comment; anything less is pushed back, so that only `<` has been read. */
    method SkipHtmlComment() returns (token: Token)
      requires Synced() && c == EXCLAMATION
      modifies this`pos, this`c
      ensures Synced()
      ensures token == if At(source, old(pos)) == MINUS && At(source, old(pos) + 1) == MINUS then NOT_FOUND else LT
      ensures token == LT ==> pos == old(pos) && c == old(c)
      ensures token == NOT_FOUND ==> pos == LineEnd(source, old(pos) + 2) + 1
    {
      Advance();
      if c == MINUS {
        Advance();
        if c == MINUS {
          SkipSingleLineComment();
          return NOT_FOUND;
        }
        PushBack();
      }
      PushBack();
      return LT;
    }

    // ----- names and numbers -----

    method ScanIdentifier() returns (token: Token)
      requires Synced() && IsIdentifierStart(tables, c)
      modifies this`pos, this`c, this`buffer16
      ensures Synced() && pos > old(pos)
      ensures token in {NAME, ILLEGAL} && (token == NAME <==> NameAt(tables, source, old(pos) - 1).Some?)
      ensures token == NAME ==> (buffer16, pos - 1) == NameAt(tables, source, old(pos) - 1).value
    {
      buffer16 := [];
      hide NameUnit, NameRest, IsIdentifierPart, IsIdentifierStart;
      var ok := ScanNameUnit(true);
      if !ok {
        return ILLEGAL;
      }
      assert buffer16 == [NameUnit(tables, source, old(pos) - 1, true).value.0];
      ok := ScanNameRest();
      return if ok then NAME else ILLEGAL;
    }

    /** The rest of a name, behind its first unit. */
    method ScanNameRest() returns (ok: bool)
      requires Synced()
      modifies this`pos, this`c, this`buffer16
      ensures Synced() && pos >= old(pos)
      ensures var spec := NameRest(tables, source, old(pos) - 1, old(buffer16));
        (ok <==> spec.Some?) && (ok ==> (buffer16, pos - 1) == spec.value)
    {
      assert !IsIdentifierPart(tables, -1);
      hide NameUnit, IsIdentifierPart, IsIdentifierStart;
      ghost var spec := NameRest(tables, source, pos - 1, buffer16);
      while c >= 0 && IsIdentifierPart(tables, c)
        invariant Synced() && pos >= old(pos) && spec == NameRest(tables, source, pos - 1, buffer16)
        decreases |source| + 1 - pos
      {
        ok := ScanNameUnit(false);
        if !ok {
          return;
        }
      }
      return true;
    }

    method ScanNameUnit(first: bool) returns (ok: bool)
      requires Synced() && c >= 0
      modifies this`pos, this`c, this`buffer16
      ensures Synced() && pos > old(pos)
      ensures ok <==> NameUnit(tables, source, old(pos) - 1, first).Some?
      ensures ok ==>
        var (u, next) := NameUnit(tables, source, old(pos) - 1, first).value;
        buffer16 == old(buffer16) + [u] && pos - 1 == next
    {
      if c == BACKSLASH {
        Advance();
        if c != LOWER_U {
          return false;
        }
        Advance();
        var uc, ng := ScanHexEscape(LOWER_U, 4);
        if ng || uc == BACKSLASH || !(if first then IsIdentifierStart(tables, uc) else IsIdentifierPart(tables, uc)) {
          return false;
        }
        buffer16 := buffer16 + [uc];
      } else {
        Record16Advance();
      }
      ok := true;
    }

    method ScanDecimalDigits()
      requires Synced()
      modifies this`pos, this`c
      ensures Synced() && pos >= old(pos) && Digits(source, old(pos) - 1, pos - 1) && !IsDecimalDigit(c)
    {
      while IsDecimalDigit(c)
        invariant Synced() && pos >= old(pos) && Digits(source, old(pos) - 1, pos - 1)
        decreases |source| + 1 - pos
      {
        Advance();
      }
    }

    method ScanExponent() returns (ok: bool)
      requires Synced() && (c == LOWER_E || c == UPPER_E)
      modifies this`pos, this`c
      ensures Synced() && pos > old(pos)
      ensures ok <==> !NoExponent(source, old(pos) - 1)
      ensures ok ==> Exponent(source, old(pos) - 1, pos - 1) && !IsDecimalDigit(c)
    {
      Advance();
      if c == PLUS || c == MINUS {
        Advance();
      }
      if !IsDecimalDigit(c) {
        return false;
      }
      ScanDecimalDigits();
      return true;
    }

    /** A leading zero makes a hexadecimal number, an octal one, or stands alone. */
    method ScanAfterZero() returns (t: NumberType, ok: bool)
      requires Synced() && c == DIGIT_0
      modifies this`pos, this`c
      ensures Synced() && pos > old(pos)
      ensures ok ==> t == DECIMAL || LongestNumber(source, old(pos) - 1, pos - 1, t)
      ensures t == DECIMAL ==> ok && pos == old(pos) + 1 && !IsOctalDigit(c) && c !in {LOWER_X as int, UPPER_X as int}
      ensures !ok ==>
        At(source, old(pos)) in {LOWER_X as int, UPPER_X as int} && LongestNumber(source, old(pos) - 1, old(pos), DECIMAL)
    {
      ghost var i := pos - 1;
      Advance();
      if c == LOWER_X || c == UPPER_X {
        Advance();
        if !IsHexDigit(c) {
          LongestDecimal(source, i, i + 1, i + 1, i + 1);
          return HEX, false;
        }
        while IsHexDigit(c)
          invariant Synced() && pos > old(pos) + 1 && (IsHexDigit(c) || pos > old(pos) + 2)
          invariant forall k :: i + 2 <= k < pos - 1 ==> IsHexDigit(source[k])
          decreases |source| + 1 - pos
        {
          Advance();
        }
        LongestHex(source, i, pos - 1);
        return HEX, true;
      } else if IsOctalDigit(c) {
        while IsOctalDigit(c)
          invariant Synced() && pos > old(pos) && (IsOctalDigit(c) || pos > old(pos) + 1)
          invariant forall k :: i + 1 <= k < pos - 1 ==> IsOctalDigit(source[k])
          decreases |source| + 1 - pos
        {
          Advance();
        }
        LongestOctal(source, i, pos - 1);
        return OCTAL_NUMBER, true;
      }
      return DECIMAL, true;
    }

    /**
     * What stands in front of an exponent. `period` is true when the period in front has been read already.
     * A decimal has its digits up to d and its fraction up to the current place.
     */
    method ScanMantissa(period: bool) returns (t: NumberType, ok: bool, ghost d: nat)
      requires Synced() && IsDecimalDigit(c) && (period ==> pos >= 2 && source[pos - 2] == Characters.PERIOD)
      modifies this`pos, this`c
      ensures Synced() && pos > old(pos)
      ensures !ok ==> BadNumber(tables, source, old(pos) - (if period then 2 else 1))
      ensures ok && t != DECIMAL ==> LongestNumber(source, old(pos) - (if period then 2 else 1), pos - 1, t)
      ensures ok && t == DECIMAL ==>
        var i := old(pos) - (if period then 2 else 1);
        DecimalLiteral(source, i, d, pos - 1, pos - 1) && MantissaExhausted(source, i, d, pos - 1)
    {
      hide LongestNumber, IsIdentifierStart;
      ghost var i: nat := pos - (if period then 2 else 1);
      t, ok, d := DECIMAL, true, i;
      if period {
        ScanDecimalDigits();
        return;
      }
      if c == DIGIT_0 {
        t, ok := ScanAfterZero();
        if !ok {
          LetterSpoils(At(source, i + 1));
          return;
        }
        d := i + 1;
      } else {
        ScanDecimalDigits();
        d := pos - 1;
      }
      if t == DECIMAL && c == Characters.PERIOD {
        Advance();
        ScanDecimalDigits();
      }
    }

    /** `period` is true when the period in front has been read already. */
    method ScanNumber(period: bool) returns (token: Token)
      requires Synced() && IsDecimalDigit(c) && (period ==> pos >= 2 && source[pos - 2] == Characters.PERIOD)
      modifies this`pos, this`c, this`numberType
      ensures Synced() && pos > old(pos)
      ensures token in {NUMBER, ILLEGAL}
      ensures token == NUMBER ==>
        LongestNumber(source, old(pos) - (if period then 2 else 1), pos - 1, numberType) && !SpoilsNumber(tables, c)
      ensures token == ILLEGAL ==> BadNumber(tables, source, old(pos) - (if period then 2 else 1))
    {
      hide NumericLiteral, LongestNumber, IsIdentifierStart, DecimalLiteral, MantissaExhausted, Exponent;
      ghost var i: nat := pos - (if period then 2 else 1);
      ghost var d;
      var t, ok;
      t, ok, d := ScanMantissa(period);
      if !ok {
        return ILLEGAL;
      }
      ghost var f: nat := pos - 1;
      if c == LOWER_E || c == UPPER_E {
        if t != DECIMAL {
          LetterSpoils(c);
          return ILLEGAL;
        }
        ok := ScanExponent();
        if !ok {
          MantissaThen(source, i, d, f, f);
          LetterSpoils(At(source, f));
          return ILLEGAL;
        }
      }
      if t == DECIMAL {
        MantissaThen(source, i, d, f, pos - 1);
      }
      if IsDecimalDigit(c) || IsIdentifierStart(tables, c) {
        return ILLEGAL;
      }
      numberType := t;
      return NUMBER;
    }

    lemma LetterSpoils(c: int)
      requires IsLetter(c)
      ensures SpoilsNumber(tables, c)
    {
    }

    // ----- what has been read -----

    /** A comment in several lines has been read up to here, and reads as one space. */
    ghost predicate AfterComment()
      reads this`pos, this`c
    {
      1 <= pos <= |source| && c == SPACE && source[pos - 1] == SLASH
    }

    ghost predicate Near()
      reads this`pos, this`c
    {
      Synced() || AfterComment()
    }

    /** Everything before this place has been read. */
    ghost function Place(): nat
      requires Near()
      reads this`pos, this`c
    {
      if AfterComment() then pos else pos - 1
    }

    /** The token from b to e, with what the lexer keeps of it. */
    ghost predicate TokenRead(token: Token, b: nat, e: nat, after: bool)
      reads this`buffer16, this`escapeType, this`numberType
    {
      && TokenAt(tables, source, token, b, e, after)
      && (token == STRING ==> StringAt(source, b + 1, source[b], [], NONE) == Some(Literal(buffer16, escapeType, e)))
      && (token == NAME ==> NameAt(tables, source, b) == Some((buffer16, e)))
      && (token == NUMBER ==> LongestNumber(source, b, e, numberType))
    }

    /** What reading from `start` on has come to: a token, or trivia with the line terminators noted. */
    ghost predicate Scanned(token: Token, start: nat, after: bool)
      reads this`pos, this`c, this`buffer16, this`escapeType, this`numberType, this`lineTerminatorBefore
    {
      if token == NOT_FOUND then
        Near() && start < Place() && Trivia(tables, source, start, Place(), after, lineTerminatorBefore)
      else Synced() && TokenRead(token, start, pos - 1, after) && (token != ILLEGAL ==> lineTerminatorBefore == after)
    }

    // ----- reading punctuators -----

    /** What has been read from start on is the spelling of the token, and no punctuator goes on. */
    lemma PunctuatorRead(token: Token, start: nat)
      requires Synced() && Spelling(token) != "" && pos - 1 == start + |Spelling(token)|
      requires SpelledOut(source, start, Spelling(token)) && !Continues(token, c)
      requires !CommentAt(source, start, lineTerminatorBefore) && (token == PERIOD ==> !IsDecimalDigit(c))
      ensures token !in {EOS, NOT_FOUND, ILLEGAL} && Scanned(token, start, lineTerminatorBefore)
    {
      hide Spelling, Spelled, SpelledOut, Longest, CommentAt, Continues;
      OnlyPeriod(token);
      SpelledOutIsSpelled(source, start, Spelling(token));
      LongestWhen(source, start, token);
    }

    /** A comment to the end of the line, introduced by w, has been read from start on. */
    lemma LineCommentRead(start: nat, w: string)
      requires Synced() && w in {"//", "<!--", "-->"} && SpelledOut(source, start, w) && pos - 1 == LineEnd(source, start + |w|)
      requires w == "-->" ==> lineTerminatorBefore
      ensures Scanned(NOT_FOUND, start, lineTerminatorBefore)
    {
      OneTrivium(tables, source, start, pos - 1, lineTerminatorBefore);
    }

    /** The end has been reached in a comment. */
    lemma UnclosedRead(start: nat, after: bool)
      requires Synced() && c < 0 && SpelledOut(source, start, "/*") && forall j :: start + 2 <= j ==> !CommentEnd(source, j)
      ensures TokenRead(ILLEGAL, start, pos - 1, after)
    {
    }

    lemma LessRead(token: Token, start: nat)
      requires Synced() && At(source, start) == '<' as int && token in {LT, LTE, SHL, ASSIGN_SHL}
      requires pos - 1 == start + (if token == LT then 1 else if token == ASSIGN_SHL then 3 else 2)
      requires token == LT ==> c != '<' as int && !CommentAt(source, start, lineTerminatorBefore)
      requires token in {LT, SHL} ==> c != '=' as int
      requires token == LTE ==> At(source, start + 1) == '=' as int
      requires token in {SHL, ASSIGN_SHL} ==> At(source, start + 1) == '<' as int
      requires token == ASSIGN_SHL ==> At(source, start + 2) == '=' as int
      ensures Scanned(token, start, lineTerminatorBefore)
    {
      PunctuatorRead(token, start);
    }

    /** < <= << <<= and the comment <!-- */
    method ScanLess() returns (token: Token)
      requires Synced() && c == '<' as int
      modifies this`pos, this`c
      ensures Synced() && pos > old(pos) && token !in {EOS, ILLEGAL}
      ensures Scanned(token, old(pos) - 1, lineTerminatorBefore)
    {
      hide TokenRead, Trivia, LineEnd, Spelled;
      ghost var start := pos - 1;
      Advance();
      if c == '=' as int {
        Advance();
        token := LTE;
      } else if c == '<' as int {
        Advance();
        if c == '=' as int {
          Advance();
          token := ASSIGN_SHL;
        } else {
          token := SHL;
        }
      } else if c == EXCLAMATION {
        token := SkipHtmlComment();
        if token == NOT_FOUND {
          LineCommentRead(start, "<!--");
          return;
        }
      } else {
        token := LT;
      }
      LessRead(token, start);
    }

    /** > >= >> >>= >>> >>>= */
    method ScanGreater() returns (token: Token)
      requires Synced() && c == '>' as int
      modifies this`pos, this`c
      ensures Synced() && pos > old(pos) && token !in {EOS, NOT_FOUND}
      ensures Scanned(token, old(pos) - 1, lineTerminatorBefore)
    {
      hide TokenRead, Trivia, LineEnd, Spelled;
      ghost var start := pos - 1;
      Advance();
      if c == '=' as int {
        Advance();
        token := GTE;
      } else if c == '>' as int {
        Advance();
        if c == '=' as int {
          Advance();
          token := ASSIGN_SAR;
        } else if c == '>' as int {
          Advance();
          if c == '=' as int {
            Advance();
            token := ASSIGN_SHR;
          } else {
            token := SHR;
          }
        } else {
          token := SAR;
        }
      } else {
        token := GT;
      }
      PunctuatorRead(token, start);
    }

    /** = == === and ! != !== */
    method ScanEquals() returns (token: Token)
      requires Synced() && (c == '=' as int || c == '!' as int)
      modifies this`pos, this`c
      ensures Synced() && pos > old(pos) && token !in {EOS, NOT_FOUND}
      ensures Scanned(token, old(pos) - 1, lineTerminatorBefore)
    {
      hide TokenRead, Trivia, LineEnd, Spelled;
      ghost var start := pos - 1;
      var equals := c == '=' as int;
      Advance();
      if c == '=' as int {
        Advance();
        if c == '=' as int {
          Advance();
          token := if equals then EQ_STRICT else NE_STRICT;
        } else {
          token := if equals then EQ else NE;
        }
      } else {
        token := if equals then ASSIGN else NOT;
      }
      PunctuatorRead(token, start);
    }

    /** - -- -= and, after a line terminator, the comment --> */
    method ScanMinus() returns (token: Token)
      requires Synced() && c == '-' as int
      modifies this`pos, this`c
      ensures Synced() && pos > old(pos) && token !in {EOS, ILLEGAL}
      ensures Scanned(token, old(pos) - 1, lineTerminatorBefore)
    {
      hide TokenRead, Trivia, LineEnd, Spelled;
      ghost var start := pos - 1;
      Advance();
      if c == '-' as int {
        Advance();
        if c == '>' as int && lineTerminatorBefore {
          SkipSingleLineComment();
          LineCommentRead(start, "-->");
          return NOT_FOUND;
        }
        token := DEC;
      } else if c == '=' as int {
        Advance();
        token := ASSIGN_SUB;
      } else {
        token := SUB;
      }
      PunctuatorRead(token, start);
    }

    lemma DivisionRead(token: Token, start: nat)
      requires Synced() && At(source, start) == SLASH
      requires if pos - 1 == start + 1 then token == DIV && c !in {SLASH, ASTERISK, '=' as int}
               else token == ASSIGN_DIV && pos - 1 == start + 2 && At(source, start + 1) == '=' as int
      ensures token !in {EOS, NOT_FOUND} && Scanned(token, start, lineTerminatorBefore)
    {
      PunctuatorRead(token, start);
    }

    /** / /= and the two kinds of comments; a pattern is scanned by the parser's request. */
    method ScanSlash() returns (token: Token)
      requires Synced() && c == SLASH
      modifies this`pos, this`c, this`lineTerminatorBefore
      ensures pos > old(pos) && token != EOS
      ensures Scanned(token, old(pos) - 1, old(lineTerminatorBefore))
    {
      hide TokenRead, Trivia, LineEnd, Spelled;
      ghost var start := pos - 1;
      Advance();
      if c == SLASH {
        SkipSingleLineComment();
        LineCommentRead(start, "//");
        return NOT_FOUND;
      } else if c == ASTERISK {
        token := SkipMultiLineComment();
        if token == NOT_FOUND {
          OneTrivium(tables, source, start, pos, old(lineTerminatorBefore));
        } else {
          UnclosedRead(start, old(lineTerminatorBefore));
        }
        return;
      } else if c == '=' as int {
        Advance();
        token := ASSIGN_DIV;
      } else {
        token := DIV;
      }
      DivisionRead(token, start);
    }

    lemma DoubledRead(ch: char, one: Token, two: Token, assign: Token, token: Token, start: nat)
      requires Synced() && Doubled(ch, one, two, assign) && At(source, start) == ch as int
      requires if pos - 1 == start + 1 then token == one && c != ch as int && c != '=' as int
               else pos - 1 == start + 2 && At(source, start + 1) == (if token == two then ch else '=') as int && token in {two, assign}
      ensures token !in {EOS, NOT_FOUND} && Scanned(token, start, lineTerminatorBefore)
    {
      DoubledSpelling(ch, one, two, assign);
      DoubledTwice(ch, one, two, assign);
      DoubledAssigns(ch, one, two, assign);
      DoubledContinues(ch, one, two, assign);
      hide Doubled, Spelling, Continues, Scanned;
      PunctuatorRead(token, start);
    }

    /** An operator that may be doubled or followed by =. */
    method ScanDoubled(ch: char, one: Token, two: Token, assign: Token) returns (token: Token)
      requires Synced() && Doubled(ch, one, two, assign) && c == ch as int
      modifies this`pos, this`c
      ensures Synced() && pos > old(pos) && token !in {EOS, NOT_FOUND}
      ensures Scanned(token, old(pos) - 1, lineTerminatorBefore)
    {
      hide Scanned;
      ghost var start := pos - 1;
      Advance();
      if c == ch as int {
        Advance();
        token := two;
      } else if c == '=' as int {
        Advance();
        token := assign;
      } else {
        token := one;
      }
      DoubledRead(ch, one, two, assign, token, start);
    }

    /** An operator that may be followed by =. */
    method ScanAssignable(ch: char, one: Token, assign: Token) returns (token: Token)
      requires Synced() && (ch, one, assign) in {('*', MUL, ASSIGN_MUL), ('%', MOD, ASSIGN_MOD), ('^', BIT_XOR, ASSIGN_BIT_XOR)}
      requires c == ch as int
      modifies this`pos, this`c
      ensures Synced() && pos > old(pos) && token !in {EOS, NOT_FOUND}
      ensures Scanned(token, old(pos) - 1, lineTerminatorBefore)
    {
      hide TokenRead, Trivia, LineEnd, Spelled;
      ghost var start := pos - 1;
      Advance();
      if c == '=' as int {
        Advance();
        token := assign;
      } else {
        token := one;
      }
      PunctuatorRead(token, start);
    }

    method ScanSingle(token: Token)
      requires Synced() && |Spelling(token)| == 1 && c == Spelling(token)[0] as int && !Continues(token, At(source, pos))
      requires !Operative(c) && token != PERIOD
      modifies this`pos, this`c
      ensures Synced() && pos > old(pos)
      ensures Scanned(token, old(pos) - 1, lineTerminatorBefore)
    {
      hide TokenRead, Trivia, LineEnd, Spelled;
      ghost var start := pos - 1;
      Advance();
      PunctuatorRead(token, start);
    }

    // ----- the next token -----

    /** One token or some trivia, from a character that is not white space. */
    method ScanToken() returns (token: Token)
      requires Synced() && !IsWhiteSpace(tables, c)
      modifies this`pos, this`c, this`buffer16, this`escapeType, this`numberType, this`lineTerminatorBefore
      ensures token == EOS <==> old(c) < 0
      ensures token == EOS ==> Synced() && pos == old(pos)
      ensures token == EOS ==> lineTerminatorBefore == old(lineTerminatorBefore)
      ensures token != EOS ==> pos > old(pos) && Scanned(token, old(pos) - 1, old(lineTerminatorBefore))
    {
      hide Longest, Trivia, NumericLiteral, NameAt, TokenRead;
      if c == QUOTE || c == APOSTROPHE {
        token := ScanStringToken();
      } else if c == '<' as int {
        token := ScanLess();
      } else if c == '>' as int {
        token := ScanGreater();
      } else if c == '=' as int || c == '!' as int {
        token := ScanEquals();
      } else if c == '+' as int {
        token := ScanDoubled('+', ADD, INC, ASSIGN_ADD);
      } else if c == '-' as int {
        token := ScanMinus();
      } else if c == '*' as int {
        token := ScanAssignable('*', MUL, ASSIGN_MUL);
      } else if c == '%' as int {
        token := ScanAssignable('%', MOD, ASSIGN_MOD);
      } else if c == SLASH {
        token := ScanSlash();
      } else if c == '&' as int {
        token := ScanDoubled('&', BIT_AND, LOGICAL_AND, ASSIGN_BIT_AND);
      } else if c == '|' as int {
        token := ScanDoubled('|', BIT_OR, LOGICAL_OR, ASSIGN_BIT_OR);
      } else if c == '^' as int {
        token := ScanAssignable('^', BIT_XOR, ASSIGN_BIT_XOR);
      } else {
        token := ScanOther();
      }
    }

    method ScanStringToken() returns (token: Token)
      requires Synced() && IsQuote(c)
      modifies this`pos, this`c, this`buffer16, this`escapeType
      ensures Synced() && pos > old(pos) && token in {STRING, ILLEGAL}
      ensures Scanned(token, old(pos) - 1, lineTerminatorBefore)
    {
      token := ScanString();
    }

    /** What begins with none of the characters of the operators and the quotes. */
    method ScanOther() returns (token: Token)
      requires Synced() && !IsWhiteSpace(tables, c) && !IsQuote(c) && !Operative(c)
      modifies this`pos, this`c, this`buffer16, this`numberType, this`lineTerminatorBefore
      ensures token == EOS <==> old(c) < 0
      ensures token == EOS ==> Synced() && pos == old(pos)
      ensures token == EOS ==> lineTerminatorBefore == old(lineTerminatorBefore)
      ensures token != EOS ==> pos > old(pos) && Scanned(token, old(pos) - 1, old(lineTerminatorBefore))
    {
      hide Longest, Trivia, TokenRead, SingleOf, Spelling, Continues;
      if c == Characters.PERIOD {
        token := ScanPeriod();
      } else if SingleOf(c) != NOT_FOUND {
        token := SingleOf(c);
        SingleTells(c);
        ScanSingle(token);
      } else if c < 0 {
        token := EOS;
      } else if IsIdentifierStart(tables, c) {
        token := ScanNameToken();
      } else if IsDecimalDigit(c) {
        token := ScanNumberToken(false);
      } else if IsLineTerminator(c) {
        ReadLineTerminator();
        token := NOT_FOUND;
      } else {
        token := ScanStray();
      }
    }

    method ScanNameToken() returns (token: Token)
      requires Synced() && IsIdentifierStart(tables, c)
      modifies this`pos, this`c, this`buffer16
      ensures Synced() && pos > old(pos) && token in {NAME, ILLEGAL}
      ensures Scanned(token, old(pos) - 1, lineTerminatorBefore)
    {
      token := ScanIdentifier();
    }

    method ScanNumberToken(period: bool) returns (token: Token)
      requires Synced() && IsDecimalDigit(c) && (period ==> pos >= 2 && source[pos - 2] == Characters.PERIOD)
      modifies this`pos, this`c, this`numberType
      ensures Synced() && pos > old(pos) && token in {NUMBER, ILLEGAL}
      ensures Scanned(token, old(pos) - (if period then 2 else 1), lineTerminatorBefore)
    {
      token := ScanNumber(period);
    }

    /** An illegal character is a token by itself. */
    method ScanStray() returns (token: Token)
      requires Synced() && c >= 0 && !IsWhiteSpace(tables, c) && !IsQuote(c) && !Operative(c)
      requires c != Characters.PERIOD && SingleOf(c) == NOT_FOUND
      requires !IsIdentifierStart(tables, c) && !IsDecimalDigit(c) && !IsLineTerminator(c)
      modifies this`pos, this`c
      ensures Synced() && pos == old(pos) + 1 && token == ILLEGAL
      ensures Scanned(token, old(pos) - 1, lineTerminatorBefore)
    {
      StrayHere();
      hide Stray;
      Advance();
      return ILLEGAL;
    }

    lemma StrayHere()
      requires Synced() && c >= 0 && !IsWhiteSpace(tables, c) && !IsQuote(c) && !Operative(c)
      requires c != Characters.PERIOD && SingleOf(c) == NOT_FOUND
      requires !IsIdentifierStart(tables, c) && !IsDecimalDigit(c) && !IsLineTerminator(c)
      ensures Stray(tables, source, pos - 1)
    {
      forall q: Token | Spelling(q) != ""
        ensures !Spelled(source, pos - 1, Spelling(q))
      {
        Beginning(q);
      }
    }

    method ReadLineTerminator()
      requires Synced() && IsLineTerminator(c)
      modifies this`pos, this`c, this`lineTerminatorBefore
      ensures pos > old(pos) && Scanned(NOT_FOUND, old(pos) - 1, old(lineTerminatorBefore)) && lineTerminatorBefore
    {
      ghost var start := pos - 1;
      SkipLineTerminator();
      hide Trivia, LineEnd;
      OneTrivium(tables, source, start, start + 1, lineTerminatorBefore);
      if pos - 1 == start + 2 {
        TriviaThen(tables, source, start, start + 1, start + 2, lineTerminatorBefore, true);
      }
      lineTerminatorBefore := true;
    }

    method ScanPeriod() returns (token: Token)
      requires Synced() && c == Characters.PERIOD
      modifies this`pos, this`c, this`numberType
      ensures Synced() && pos > old(pos) && token !in {EOS, NOT_FOUND}
      ensures Scanned(token, old(pos) - 1, lineTerminatorBefore)
    {
      hide TokenRead, Trivia;
      ghost var start := pos - 1;
      Advance();
      if IsDecimalDigit(c) {
        token := ScanNumberToken(true);
      } else {
        token := PERIOD;
        PunctuatorRead(token, start);
      }
    }

    /**
     * The next token. What lies between the old place and the token is trivia, and every token but the end
     * takes at least one character. `after` tells whether a line was ended in front of it.
     */
    method Next() returns (token: Token, ghost after: bool)
      requires Synced()
      modifies this
      ensures Synced() && token != NOT_FOUND && (token != ILLEGAL ==> lineTerminatorBefore == after)
      ensures token == EOS ==> pos == |source| + 1 && Trivia(tables, source, old(pos) - 1, |source|, false, after)
      ensures token != EOS ==>
        && old(pos) - 1 <= begin && Trivia(tables, source, old(pos) - 1, begin, false, after)
        && TokenRead(token, begin, end, after) && pos - 1 == end
    {
      hide Trivia, TokenAt, TokenRead;
      ghost var first := pos - 1;
      lineTerminatorBefore := false;
      TriviaNothing(tables, source, first, false);
      token, after := NOT_FOUND, false;
      while token == NOT_FOUND
        invariant pos >= old(pos) && Outcome(first, token, after)
        decreases token == NOT_FOUND, |source| + 1 - pos
      {
        token, after := ScanNext(first);
      }
      assert token != EOS ==> pos - 1 <= |source| by {
        if token != EOS {
          ReadInside(token, begin, pos - 1, after);
        }
      }
      end := if c == -1 then Clamped() else Clamped() - 1;
    }

    /** Where the lexer is after an attempt to read a token from `first` on. */
    ghost predicate Outcome(first: nat, token: Token, after: bool)
      reads this
    {
      if token == NOT_FOUND then
        Near() && first <= Place() && Trivia(tables, source, first, Place(), false, lineTerminatorBefore)
      else
        && (token != ILLEGAL ==> lineTerminatorBefore == after)
        && if token == EOS then Synced() && c < 0 && first <= pos - 1 && Trivia(tables, source, first, pos - 1, false, after)
           else
             Synced() && first <= begin && Trivia(tables, source, first, begin, false, after)
             && TokenRead(token, begin, pos - 1, after)
    }

    method ScanNext(ghost first: nat) returns (token: Token, ghost after: bool)
      requires Outcome(first, NOT_FOUND, false)
      modifies this`pos, this`c, this`buffer16, this`escapeType, this`numberType, this`lineTerminatorBefore, this`begin
      ensures pos >= old(pos) && (token == NOT_FOUND ==> pos > old(pos)) && Outcome(first, token, after)
    {
      hide Trivia, TokenAt, TokenRead, IsWhiteSpace;
      SkipWhiteSpace(first);
      begin := Clamped() - 1;
      ghost var start := pos - 1;
      after := lineTerminatorBefore;
      token := ScanToken();
      if token == NOT_FOUND {
        TriviaJoin(tables, source, first, start, Place(), false, after, lineTerminatorBefore);
      }
    }

    /** The reported position never lies behind the end. */
    function Clamped(): nat
      reads this
    {
      if pos >= |source| then |source| else pos
    }

    method SkipWhiteSpace(ghost first: nat)
      requires Near() && first <= Place() && Trivia(tables, source, first, Place(), false, lineTerminatorBefore)
      modifies this`pos, this`c
      ensures Synced() && pos >= old(pos) && first <= pos - 1 && !IsWhiteSpace(tables, c)
      ensures Trivia(tables, source, first, pos - 1, false, lineTerminatorBefore)
    {
      hide Trivia, LineEnd;
      while IsWhiteSpace(tables, c)
        invariant Near() && pos >= old(pos) && first <= Place()
        invariant Trivia(tables, source, first, Place(), false, lineTerminatorBefore)
        decreases |source| + 1 - pos
      {
        if Synced() {
          TriviaThen(tables, source, first, pos - 1, pos, false, lineTerminatorBefore);
        }
        Advance();
      }
    }

    /**
     * All tokens of the source, by repeated Next. Their spans are in order and not empty, they and the trivia
     * between them make up the whole source, and the end is reached.
     */
    method Tokenize() returns (spans: seq<Span>)
      requires Synced()
      modifies this
      ensures Tiled(tables, source, old(pos) - 1, spans, |source|)
    {
      assert pos <= |source| + 1;
      hide *;
      spans := [];
      ghost var first := pos - 1;
      TilesNothing(tables, source, first);
      var token := ILLEGAL;
      while token != EOS
        invariant token != EOS ==> Synced() && first <= pos - 1 <= |source| && Tiles(tables, source, first, spans, pos - 1)
        invariant token == EOS ==> Tiled(tables, source, first, spans, |source|)
        decreases token != EOS, |source| + 1 - pos
      {
        token, spans := TakeNext(first, spans);
      }
    }

    /** The next token is put behind the ones read so far. */
    method TakeNext(ghost first: nat, spans: seq<Span>) returns (token: Token, more: seq<Span>)
      requires Synced() && first <= pos - 1 && Tiles(tables, source, first, spans, pos - 1)
      modifies this
      ensures token == EOS ==> Tiled(tables, source, first, more, |source|)
      ensures token != EOS ==>
        Synced() && old(pos) < pos <= |source| + 1 && Tiles(tables, source, first, more, pos - 1)
    {
      hide Tiles, Tiled, Trivia, TokenAt, TokenRead;
      ghost var place := pos - 1;
      ghost var after;
      token, after := Next();
      more := spans;
      if token == EOS {
        TiledAtEnd(tables, source, first, spans, place, |source|, after);
      } else {
        ReadInside(token, begin, end, after);
        TilesThen(tables, source, first, spans, place, Span(token, begin, end), after);
        more := spans + [Span(token, begin, end)];
      }
    }

    lemma ReadInside(token: Token, b: nat, e: nat, after: bool)
      requires TokenRead(token, b, e, after)
      ensures TokenAt(tables, source, token, b, e, after) && b < e <= |source|
    {
    }
  }

  /** The operators of one character that can be doubled, with the doubled and the assigning form. */
  predicate Doubled(ch: char, one: Token, two: Token, assign: Token)
  {
    match ch
    case '+' => one == ADD && two == INC && assign == ASSIGN_ADD
    case '&' => one == BIT_AND && two == LOGICAL_AND && assign == ASSIGN_BIT_AND
    case '|' => one == BIT_OR && two == LOGICAL_OR && assign == ASSIGN_BIT_OR
    case _ => false
  }

  lemma DoubledSpelling(ch: char, one: Token, two: Token, assign: Token)
    requires Doubled(ch, one, two, assign)
    ensures Spelling(one) == [ch] && PERIOD !in {one, two, assign}
  {
  }

  lemma DoubledTwice(ch: char, one: Token, two: Token, assign: Token)
    requires Doubled(ch, one, two, assign)
    ensures Spelling(two) == [ch, ch] && ch !in {'/', '<', '-'}
  {
  }

  lemma DoubledAssigns(ch: char, one: Token, two: Token, assign: Token)
    requires Doubled(ch, one, two, assign)
    ensures Spelling(assign) == [ch, '=']
  {
  }

  lemma DoubledContinues(ch: char, one: Token, two: Token, assign: Token)
    requires Doubled(ch, one, two, assign)
    ensures forall d :: (Continues(one, d) ==> d == ch as int || d == '=' as int) && !Continues(two, d) && !Continues(assign, d)
  {
  }

  lemma {:induction false} HexStops(s: Text, i: nat, k: nat, len: nat)
    requires i <= |s| && k < len && HexAt(s, i, k).Some? && HexValue(At(s, i + k)) < 0
    ensures HexAt(s, i, len) == None
  {
    if len > k + 1 {
      HexStops(s, i, k, len - 1);
    }
  }
}
