/**
 * The characters that scanning and escaping give a meaning to, as numbers of code units: escape
 * sequences, digits, white space, names, numeric literals and punctuators (section 7 of ECMA-262),
 * and what the escapers write.
 */
module Codes {
  import opened Basics
  import opened Naturals
  import opened Characters
  import opened Escapes
  import opened Tokens
  import Interning

  // ----- digits -----

  /** c is a digit for d, in lower or upper case. */
  ghost predicate DigitIs(c: int, d: nat)
  {
    d < 16 && (c == "0123456789abcdef"[d] as int || c == "0123456789ABCDEF"[d] as int)
  }

  lemma HexValueIs(c: int, d: nat)
    requires d < 16
    ensures HexValue(c) == d <==> DigitIs(c, d)
    ensures d < 10 ==> (DecimalValue(c) == d <==> DigitIs(c, d))
    ensures d < 8 ==> (OctalValue(c) == d <==> DigitIs(c, d))
    ensures HexDigit(d) == "0123456789abcdef"[d] as int
  {
  }

  /** At i stand digits for ds. */
  ghost predicate DigitsAre(s: Text, i: nat, ds: seq<nat>)
  {
    i + |ds| <= |s| && forall j :: 0 <= j < |ds| ==> DigitIs(s[i + j], ds[j])
  }

  lemma {:induction false} HexDigitsAt(s: Text, i: nat, len: nat) returns (ds: seq<nat>)
    requires i <= |s| && HexAt(s, i, len).Some?
    ensures |ds| == len && DigitsAre(s, i, ds) && HexAt(s, i, len) == Some(Place(ds, 16))
  {
    if len == 0 {
      ds := [];
    } else {
      var front := HexDigitsAt(s, i, len - 1);
      var d := HexValue(s[i + len - 1]);
      HexValueIs(s[i + len - 1], d);
      PlaceAppend(front, d, 16);
      ds := front + [d];
    }
  }

  lemma {:induction false} HexAtDigits(s: Text, i: nat, ds: seq<nat>)
    requires DigitsAre(s, i, ds)
    ensures HexAt(s, i, |ds|) == Some(Place(ds, 16))
    decreases |ds|
  {
    if ds != [] {
      var n := |ds| - 1;
      HexAtDigits(s, i, ds[..n]);
      assert DigitIs(s[i + n], ds[n]);
      HexValueIs(s[i + n], ds[n]);
      PlaceAppend(ds[..n], ds[n], 16);
      assert ds == ds[..n] + [ds[n]];
    }
  }

  /** There are so many digits, and v is their sum by place, to base 16. */
  ghost predicate Hexadecimal(s: Text, i: nat, len: nat, v: nat)
  {
    exists ds :: |ds| == len && DigitsAre(s, i, ds) && v == Place(ds, 16)
  }

  lemma HexAtIs(s: Text, i: nat, len: nat, v: nat)
    requires i <= |s|
    ensures HexAt(s, i, len) == Some(v) <==> Hexadecimal(s, i, len, v)
  {
    if HexAt(s, i, len).Some? {
      var ds := HexDigitsAt(s, i, len);
    }
    forall ds | |ds| == len && DigitsAre(s, i, ds)
      ensures HexAt(s, i, len) == Some(Place(ds, 16))
    {
      HexAtDigits(s, i, ds);
    }
  }

  /** ds are the digits that an octal escape sequence at i takes: as many as there are, a third only after 0 to 3. */
  ghost predicate OctalDigits(s: Text, i: nat, ds: seq<nat>)
  {
    && 1 <= |ds| <= 3 && (forall d <- ds :: d < 8) && DigitsAre(s, i, ds)
    && (|ds| == 3 ==> ds[0] <= 3)
    && (|ds| == 1 || (|ds| == 2 && ds[0] <= 3) ==> !(0x30 <= At(s, i + |ds|) <= 0x39))
  }

  /** An octal escape is spoiled by an 8 or a 9 where it would go on. */
  lemma OctalEscapeSpoiled(s: Text, i: nat)
    requires i < |s| && 0x30 <= s[i] <= 0x37
    ensures OctalEscape(s, i).None? <==>
      || 0x38 <= At(s, i + 1) <= 0x39
      || (s[i] <= 0x33 && 0x30 <= At(s, i + 1) <= 0x37 && 0x38 <= At(s, i + 2) <= 0x39)
  {
  }

  /** Otherwise its value is the sum of its digits by place, to base 8; a single 0 does not count as octal. */
  lemma OctalEscapeIs(s: Text, i: nat) returns (ds: seq<nat>)
    requires i < |s| && 0x30 <= s[i] <= 0x37 && OctalEscape(s, i).Some?
    ensures OctalDigits(s, i, ds)
    ensures var r := OctalEscape(s, i).value;
      r.text == [Place(ds, 8)] && r.octal == (ds != [0]) && r.next == i + |ds|
  {
    hide OctalEscape, DigitsAre, Place;
    var n := OctalEscape(s, i).value.next - i;
    OctalEscapeTakes(s, i, n);
    var a := s[i] - 0x30;
    if n == 1 {
      ds := [a];
      OctalPlaces(a, 0, 0);
    } else if n == 2 {
      ds := [a, s[i + 1] - 0x30];
      OctalPlaces(a, ds[1], 0);
    } else {
      ds := [a, s[i + 1] - 0x30, s[i + 2] - 0x30];
      OctalPlaces(a, ds[1], ds[2]);
    }
    OctalDigitsThere(s, i, ds);
  }

  lemma OctalEscapeTakes(s: Text, i: nat, n: int)
    requires i < |s| && 0x30 <= s[i] <= 0x37 && OctalEscape(s, i).Some? && OctalEscape(s, i).value.next == i + n
    ensures 1 <= n <= 3 && i + n <= |s| && forall j :: i <= j < i + n ==> 0x30 <= s[j] < 0x38
    ensures n == 3 ==> s[i] <= 0x33
    ensures n == 1 || (n == 2 && s[i] <= 0x33) ==> !(0x30 <= At(s, i + n) <= 0x39)
    ensures var a := s[i] - 0x30; var r := OctalEscape(s, i).value;
      && (n == 1 ==> r.text == [a] && r.octal == (a != 0))
      && (n == 2 ==> r.text == [a * 8 + (s[i + 1] - 0x30)] && r.octal)
      && (n == 3 ==> r.text == [(a * 8 + (s[i + 1] - 0x30)) * 8 + (s[i + 2] - 0x30)] && r.octal)
  {
  }

  lemma OctalDigitsThere(s: Text, i: nat, ds: seq<nat>)
    requires i + |ds| <= |s| && forall j :: 0 <= j < |ds| ==> s[i + j] == 0x30 + ds[j] < 0x38
    ensures DigitsAre(s, i, ds)
  {
    forall j | 0 <= j < |ds|
      ensures DigitIs(s[i + j], ds[j])
    {
      HexValueIs(s[i + j], ds[j]);
    }
  }

  lemma OctalPlaces(a: nat, b: nat, c: nat)
    ensures Place([a], 8) == a && Place([a, b], 8) == a * 8 + b && Place([a, b, c], 8) == (a * 8 + b) * 8 + c
  {
    PlaceAppend([], a, 8);
    PlaceAppend([a], b, 8);
    PlaceAppend([a, b], c, 8);
    assert [] + [a] == [a] && [a] + [b] == [a, b] && [a, b] + [c] == [a, b, c];
  }

  /** The value of a string of decimal digits is their sum by place, to base 10. */
  lemma ValueIs(s: Text, ds: seq<nat>)
    requires |ds| == |s| && DigitsAre(s, 0, ds) && forall d <- ds :: d < 10
    ensures Interning.AllDigits(s) && Interning.Value(s) == Place(ds, 10)
  {
    forall j | 0 <= j < |s|
      ensures s[j] == 0x30 + ds[j] < 0x3A
    {
      assert DigitIs(s[0 + j], ds[j]) && ds[j] in ds;
      HexValueIs(s[j], ds[j]);
    }
    DecimalSum(s, ds);
  }

  lemma {:induction false} DecimalSum(s: Text, ds: seq<nat>)
    requires |ds| == |s| && forall j :: 0 <= j < |s| ==> s[j] == 0x30 + ds[j] < 0x3A
    ensures Interning.AllDigits(s) && Interning.Value(s) == Place(ds, 10)
    decreases |s|
  {
    if s != [] {
      var n := |s| - 1;
      DecimalSum(s[..n], ds[..n]);
      PlaceAppend(ds[..n], ds[n], 10);
      hide Place;
      assert ds == ds[..n] + [ds[n]];
    }
  }

  // ----- escape sequences -----

  /** Section 7.8.4: what stands behind the backslash, and what it denotes. */
  lemma EscapeCodes(s: Text, i: nat)
    requires i < |s|
    ensures s[i] == 0x62 ==> EscapeAt(s, i) == Some(Escape([0x08], false, i + 1))
    ensures s[i] == 0x74 ==> EscapeAt(s, i) == Some(Escape([0x09], false, i + 1))
    ensures s[i] == 0x6E ==> EscapeAt(s, i) == Some(Escape([0x0A], false, i + 1))
    ensures s[i] == 0x76 ==> EscapeAt(s, i) == Some(Escape([0x0B], false, i + 1))
    ensures s[i] == 0x66 ==> EscapeAt(s, i) == Some(Escape([0x0C], false, i + 1))
    ensures s[i] == 0x72 ==> EscapeAt(s, i) == Some(Escape([0x0D], false, i + 1))
    ensures s[i] in {0x0A, 0x2028, 0x2029} || (s[i] == 0x0D && At(s, i + 1) != 0x0A) ==>
      EscapeAt(s, i) == Some(Escape([], false, i + 1))
    ensures s[i] == 0x0D && At(s, i + 1) == 0x0A ==> EscapeAt(s, i) == Some(Escape([], false, i + 2))
    ensures 0x30 <= s[i] <= 0x37 ==> EscapeAt(s, i) == OctalEscape(s, i)
    ensures 0x38 <= s[i] <= 0x39 ==> EscapeAt(s, i) == None
    ensures !(0x30 <= s[i] <= 0x39) && s[i] !in {0x0A, 0x0D, 0x2028, 0x2029, 0x62, 0x66, 0x6E, 0x72, 0x74, 0x75, 0x76, 0x78} ==>
      EscapeAt(s, i) == Some(Escape([s[i]], false, i + 1))
  {
  }

  ghost predicate NotHexadecimal(s: Text, i: nat, len: nat)
  {
    forall v :: !Hexadecimal(s, i, len, v)
  }

  /** After u come four hexadecimal digits, after x two. */
  lemma HexEscapeCodes(s: Text, i: nat, v: Unit)
    requires i < |s| && s[i] in {0x75, 0x78}
    ensures var len := if s[i] == 0x75 then 4 else 2;
      && (EscapeAt(s, i) == Some(Escape([v], false, i + 1 + len)) <==> Hexadecimal(s, i + 1, len, v))
      && (EscapeAt(s, i).None? <==> NotHexadecimal(s, i + 1, len))
  {
    var len := if s[i] == 0x75 then 4 else 2;
    assert EscapeAt(s, i) == HexEscape(s, i + 1, len);
    HexAtIs(s, i + 1, len, v);
    NotHexIs(s, i + 1, len);
    hide EscapeAt, HexAt, Hexadecimal, NotHexadecimal;
    if HexAt(s, i + 1, len).Some? {
      HexBound(s, i + 1, len);
    }
  }

  lemma NotHexIs(s: Text, i: nat, len: nat)
    requires i <= |s|
    ensures NotHexadecimal(s, i, len) <==> HexAt(s, i, len).None?
  {
    hide HexAt, Hexadecimal;
    forall v: nat
      ensures HexAt(s, i, len) == Some(v) <==> Hexadecimal(s, i, len, v)
    {
      HexAtIs(s, i, len, v);
    }
    if HexAt(s, i, len).Some? {
      assert Hexadecimal(s, i, len, HexAt(s, i, len).value);
    }
  }

  lemma HexBound(s: Text, i: nat, len: nat)
    requires i <= |s| && len <= 4 && HexAt(s, i, len).Some?
    ensures HexAt(s, i, len).value < 0x10000
  {
    assert Pow16(0) == 1 && Pow16(1) == 16 && Pow16(2) == 256 && Pow16(3) == 4096 && Pow16(4) == 65536;
  }

  /** How a string literal goes on at i, unit by unit. */
  lemma StringCodes(s: Text, i: nat, quote: Unit, buffer: Text, t: EscapeType)
    requires i <= |s| && quote in {0x22, 0x27}
    ensures var r := StringAt(s, i, quote, buffer, t);
      && (i == |s| || s[i] in {0x0A, 0x0D, 0x2028, 0x2029} ==> r == None)
      && (i < |s| && s[i] == quote ==> r == Some(Literal(buffer, t, i + 1)))
      && (i < |s| && s[i] == 0x5C && (i + 1 == |s| || EscapeAt(s, i + 1).None?) ==> r == None)
      && (i + 1 < |s| && s[i] == 0x5C && EscapeAt(s, i + 1).Some? ==>
            var e := EscapeAt(s, i + 1).value; r == StringAt(s, e.next, quote, buffer + e.text, Marked(t, e.octal)))
      && (i < |s| && s[i] !in {quote, 0x5C, 0x0A, 0x0D, 0x2028, 0x2029} ==> r == StringAt(s, i + 1, quote, buffer + [s[i]], t))
  {
    hide EscapeAt;
  }

  // ----- what the escapers write -----

  /** The four digits of a unit, in lower case. */
  lemma FourDigitsAre(v: Unit)
    ensures DigitsAre(FourDigits(v), 0, [v / 0x1000, v / 0x100 % 0x10, v / 0x10 % 0x10, v % 0x10])
    ensures forall c <- FourDigits(v) :: !(0x41 <= c <= 0x46)
  {
    HexValueIs(FourDigits(v)[0], v / 0x1000);
    HexValueIs(FourDigits(v)[1], v / 0x100 % 0x10);
    HexValueIs(FourDigits(v)[2], v / 0x10 % 0x10);
    HexValueIs(FourDigits(v)[3], v % 0x10);
  }

  /** Section 15.12.3: the quoted form of every unit. */
  lemma QuoteCodes(c: Unit)
    ensures c == 0x22 || c == 0x5C ==> QuoteUnit(c) == [0x5C, c]
    ensures c == 0x08 ==> QuoteUnit(c) == [0x5C, 0x62]
    ensures c == 0x09 ==> QuoteUnit(c) == [0x5C, 0x74]
    ensures c == 0x0A ==> QuoteUnit(c) == [0x5C, 0x6E]
    ensures c == 0x0C ==> QuoteUnit(c) == [0x5C, 0x66]
    ensures c == 0x0D ==> QuoteUnit(c) == [0x5C, 0x72]
    ensures c < 0x20 && c !in {0x08, 0x09, 0x0A, 0x0C, 0x0D} ==> QuoteUnit(c) == [0x5C, 0x75] + FourDigits(c)
    ensures c >= 0x20 && c != 0x22 && c != 0x5C ==> QuoteUnit(c) == [c]
  {
  }

  /** The escaped form of a unit of a pattern, by whether it stands in a class and whether a backslash precedes it. */
  lemma EscapeUnitCodes(st: PatternState, c: Unit)
    ensures c == 0x0A ==> EscapeUnit(st, c) == if st.backslash then [0x6E] else [0x5C, 0x6E]
    ensures c == 0x0D ==> EscapeUnit(st, c) == if st.backslash then [0x72] else [0x5C, 0x72]
    ensures c in {0x2028, 0x2029} ==> EscapeUnit(st, c) == (if st.backslash then [0x75] else [0x5C, 0x75]) + FourDigits(c)
    ensures c == 0x2F ==> EscapeUnit(st, c) == if st.backslash || st.inClass then [0x2F] else [0x5C, 0x2F]
    ensures c !in {0x0A, 0x0D, 0x2028, 0x2029, 0x2F} ==> EscapeUnit(st, c) == [c]
    ensures After(st, c).backslash <==> !st.backslash && c == 0x5C
    ensures After(st, c).inClass <==> if !st.backslash && c == 0x5B then true else if !st.backslash && c == 0x5D then false else st.inClass
  {
    assert [0x5C] + ([0x75] + FourDigits(c)) == [0x5C, 0x75] + FourDigits(c);
  }

  /** How a pattern goes on at i, unit by unit. */
  lemma PatternCodes(s: Text, i: nat, inClass: bool)
    requires i <= |s|
    ensures var r := PatternAt(s, i, inClass);
      && (i == |s| || s[i] in {0x0A, 0x0D, 0x2028, 0x2029} ==> r == None)
      && (i < |s| && s[i] == 0x2F ==> r == if inClass then PatternAt(s, i + 1, true) else Some(i + 1))
      && (i < |s| && s[i] == 0x5C ==>
            r == if i + 1 == |s| || s[i + 1] in {0x0A, 0x0D, 0x2028, 0x2029} then None else PatternAt(s, i + 2, inClass))
      && (i < |s| && s[i] == 0x5B ==> r == PatternAt(s, i + 1, true))
      && (i < |s| && s[i] == 0x5D ==> r == PatternAt(s, i + 1, false))
      && (i < |s| && s[i] !in {0x0A, 0x0D, 0x2028, 0x2029, 0x2F, 0x5B, 0x5C, 0x5D} ==> r == PatternAt(s, i + 1, inClass))
  {
  }

  // ----- tokens -----

  /** Sections 7.2, 7.3 and 7.6, outside the Unicode tables. */
  lemma CharacterClasses(t: Tables, c: int)
    ensures IsLineTerminator(c) <==> c in {0x0A, 0x0D, 0x2028, 0x2029}
    ensures c < 0x80 ==> (IsWhiteSpace(t, c) <==> c in {0x09, 0x0B, 0x0C, 0x20})
    ensures 0x80 <= c < 0x10000 ==> (IsWhiteSpace(t, c) <==> c in {0xA0, 0xFEFF} || t.space(c))
    ensures c < 0x80 ==> (IsIdentifierStart(t, c) <==> c in {0x24, 0x5C, 0x5F} || 0x41 <= c <= 0x5A || 0x61 <= c <= 0x7A)
    ensures c < 0x80 ==> (IsIdentifierPart(t, c) <==> IsIdentifierStart(t, c) || 0x30 <= c <= 0x39)
    ensures 0x80 <= c < 0x10000 ==> (IsIdentifierStart(t, c) <==> t.start(c)) && (IsIdentifierPart(t, c) <==> t.part(c))
    ensures IsQuote(c) <==> c == 0x22 || c == 0x27
  {
  }

  /** The punctuators of section 7.7 as code units, one operator after the other. */
  function Punctuator(t: Token): seq<int>
  {
    match t
    case PERIOD => [0x2E] case COLON => [0x3A] case SEMICOLON => [0x3B] case COMMA => [0x2C]
    case LPAREN => [0x28] case RPAREN => [0x29] case LBRACK => [0x5B] case RBRACK => [0x5D]
    case LBRACE => [0x7B] case RBRACE => [0x7D] case CONDITIONAL => [0x3F] case BIT_NOT => [0x7E]
    case NOT => [0x21] case NE => [0x21, 0x3D] case NE_STRICT => [0x21, 0x3D, 0x3D]
    case ASSIGN => [0x3D] case EQ => [0x3D, 0x3D] case EQ_STRICT => [0x3D, 0x3D, 0x3D]
    case ADD => [0x2B] case INC => [0x2B, 0x2B] case ASSIGN_ADD => [0x2B, 0x3D]
    case SUB => [0x2D] case DEC => [0x2D, 0x2D] case ASSIGN_SUB => [0x2D, 0x3D]
    case MUL => [0x2A] case ASSIGN_MUL => [0x2A, 0x3D]
    case DIV => [0x2F] case ASSIGN_DIV => [0x2F, 0x3D]
    case MOD => [0x25] case ASSIGN_MOD => [0x25, 0x3D]
    case LT => [0x3C] case LTE => [0x3C, 0x3D] case SHL => [0x3C, 0x3C] case ASSIGN_SHL => [0x3C, 0x3C, 0x3D]
    case GT => [0x3E] case GTE => [0x3E, 0x3D] case SAR => [0x3E, 0x3E] case ASSIGN_SAR => [0x3E, 0x3E, 0x3D]
    case SHR => [0x3E, 0x3E, 0x3E] case ASSIGN_SHR => [0x3E, 0x3E, 0x3E, 0x3D]
    case BIT_AND => [0x26] case LOGICAL_AND => [0x26, 0x26] case ASSIGN_BIT_AND => [0x26, 0x3D]
    case BIT_OR => [0x7C] case LOGICAL_OR => [0x7C, 0x7C] case ASSIGN_BIT_OR => [0x7C, 0x3D]
    case BIT_XOR => [0x5E] case ASSIGN_BIT_XOR => [0x5E, 0x3D]
    case _ => []
  }

  lemma PunctuatorCodes(t: Token, j: nat)
    ensures |Spelling(t)| == |Punctuator(t)|
    ensures j < |Punctuator(t)| ==> CharAt(Spelling(t), j) == Punctuator(t)[j]
  {
    PunctuatorLength(t);
    hide *;
    if j < |Punctuator(t)| {
      if j == 0 {
        FirstCode(t);
      } else {
        LaterCode(t, j);
      }
    }
  }

  lemma PunctuatorLength(t: Token)
    ensures |Spelling(t)| == |Punctuator(t)|
  {
  }

  lemma FirstCode(t: Token)
    requires Punctuator(t) != []
    ensures CharAt(Spelling(t), 0) == Punctuator(t)[0]
  {
  }

  lemma LaterCode(t: Token, j: nat)
    requires 0 < j < |Punctuator(t)|
    ensures CharAt(Spelling(t), j) == Punctuator(t)[j]
  {
    if j == 1 {
    } else if j == 2 {
    }
  }

  /** Section 7.8.3: the parts of numeric literals, and the ends of comments. */
  lemma LiteralCodes(s: Text, i: nat, j: nat)
    ensures Exponent(s, i, j) <==>
      || i == j
      || (At(s, i) in {0x45, 0x65} && i + 1 < j && Digits(s, i + 1, j))
      || (At(s, i) in {0x45, 0x65} && At(s, i + 1) in {0x2B, 0x2D} && i + 2 < j && Digits(s, i + 2, j))
    ensures Digits(s, i, j) <==> i <= j <= |s| && forall k :: i <= k < j ==> 0x30 <= s[k] <= 0x39
    ensures NumericLiteral(s, i, j, HEX) <==>
      && i + 2 < j <= |s| && s[i] == 0x30 && s[i + 1] in {0x58, 0x78}
      && forall k :: i + 2 <= k < j ==> 0x30 <= s[k] <= 0x39 || 0x41 <= s[k] <= 0x46 || 0x61 <= s[k] <= 0x66
    ensures NumericLiteral(s, i, j, OCTAL_NUMBER) <==>
      i + 1 < j <= |s| && s[i] == 0x30 && forall k :: i + 1 <= k < j ==> 0x30 <= s[k] <= 0x37
    ensures CommentEnd(s, i) <==> i + 1 < |s| && s[i] == 0x2A && s[i + 1] == 0x2F
  {
  }

  lemma DecimalCodes(s: Text, i: nat, d: nat, f: nat, j: nat)
    ensures DecimalLiteral(s, i, d, f, j) <==>
      && i <= d <= f <= j <= |s| && (forall k :: i <= k < d ==> 0x30 <= s[k] <= 0x39) && Exponent(s, f, j)
      && (d < f ==> s[d] == 0x2E && forall k :: d < k < f ==> 0x30 <= s[k] <= 0x39)
      && (if d == i then f > i + 1 else s[i] == 0x30 ==> d == i + 1)
  {
    hide Exponent;
  }
}
