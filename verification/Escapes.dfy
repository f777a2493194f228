/**
 * The two escapers and the scanners they are written for: a quoted string against the string
 * literal scanner, and an escaped pattern against the regular expression scanner.
 */
module Escapes {
  import opened Basics
  import opened Characters

  type Text = seq<Unit>

  // ----- the escape of one code unit -----

  function FourDigits(v: Unit): Text
  {
    [HexDigit(v / 4096), HexDigit(v / 256 % 16), HexDigit(v / 16 % 16), HexDigit(v % 16)]
  }

  /** Fills the digits from the right, as the buffer of four is filled. */
  method UnicodeSequenceEscape(v: Unit, prefix: Text) returns (r: Text)
    ensures r == prefix + FourDigits(v)
  {
    var buf := new Unit[4];
    var rest: int := v;
    for i := 0 to 4
      invariant 0 <= rest < 0x10000
      invariant rest ==
        (if i == 0 then v else if i == 1 then v / 16 else if i == 2 then v / 256 else if i == 3 then v / 4096 else 0)
      invariant forall j :: 4 - i <= j < 4 ==> buf[j] == FourDigits(v)[j]
    {
      buf[3 - i] := HexDigit(rest % 16);
      rest := rest / 16;
    }
    assert buf[..] == FourDigits(v);
    r := prefix + buf[..];
  }

  // ----- JSON quoting -----

  function QuoteUnit(c: Unit): Text
  {
    if c == QUOTE || c == BACKSLASH then [BACKSLASH, c]
    else if c == BACKSPACE then [BACKSLASH, LOWER_B]
    else if c == FF then [BACKSLASH, LOWER_F]
    else if c == LF then [BACKSLASH, LOWER_N]
    else if c == CR then [BACKSLASH, LOWER_R]
    else if c == TAB then [BACKSLASH, LOWER_T]
    else if c < SPACE then [BACKSLASH, LOWER_U] + FourDigits(c)
    else [c]
  }

  function JSONQuote(s: Text): Text
  {
    if s == [] then [] else QuoteUnit(s[0]) + JSONQuote(s[1..])
  }

  // ----- the string scanner as a function -----

  datatype EscapeType = NONE | ESCAPE | OCTAL

  function At(s: Text, i: nat): int
  {
    if i < |s| then s[i] else -1
  }

  function Pow16(n: nat): nat
  {
    if n == 0 then 1 else 16 * Pow16(n - 1)
  }

  /** The value of exactly `len` hexadecimal digits at i. */
  function HexAt(s: Text, i: nat, len: nat): (r: Option<nat>)
    requires i <= |s|
    ensures r.Some? ==> i + len <= |s| && r.value < Pow16(len)
    ensures r.None? ==> len > 0
  {
    if len == 0 then Some(0)
    else
      match HexAt(s, i, len - 1)
      case None => None
      case Some(v) =>
        var d := HexValue(At(s, i + len - 1));
        if d < 0 then None else Some(v * 16 + d)
  }

  /** What a scanned escape sequence stands for; `octal` marks the legacy ones. */
  datatype Escape = Escape(text: Text, octal: bool, next: nat)

  /** The escape sequence at i, just behind the backslash. */
  function EscapeAt(s: Text, i: nat): (r: Option<Escape>)
    requires i < |s|
    ensures r.Some? ==> i < r.value.next <= |s|
  {
    var c := s[i];
    if c == CR && At(s, i + 1) == LF then Some(Escape([], false, i + 2))
    else if IsLineTerminator(c) then Some(Escape([], false, i + 1))
    else if c == LOWER_B then Some(Escape([BACKSPACE], false, i + 1))
    else if c == LOWER_F then Some(Escape([FF], false, i + 1))
    else if c == LOWER_N then Some(Escape([LF], false, i + 1))
    else if c == LOWER_R then Some(Escape([CR], false, i + 1))
    else if c == LOWER_T then Some(Escape([TAB], false, i + 1))
    else if c == LOWER_V then Some(Escape([VT], false, i + 1))
    else if c == LOWER_U then HexEscape(s, i + 1, 4)
    else if c == LOWER_X then HexEscape(s, i + 1, 2)
    else if IsOctalDigit(c) then OctalEscape(s, i)
    else if c == DIGIT_8 || c == DIGIT_9 then None
    else Some(Escape([c], false, i + 1))
  }

  function HexEscape(s: Text, i: nat, len: nat): (r: Option<Escape>)
    requires i <= |s| && len <= 4
    ensures r.Some? ==> i <= r.value.next <= |s|
  {
    assert Pow16(0) == 1 && Pow16(1) == 16 && Pow16(2) == 256 && Pow16(3) == 4096 && Pow16(4) == 65536;
    match HexAt(s, i, len)
    case None => None
    case Some(v) => Some(Escape([v], false, i + len))
  }

  /** One to three octal digits, three only after 0 to 3; a following 8 or 9 spoils the sequence. */
  function OctalEscape(s: Text, i: nat): (r: Option<Escape>)
    requires i < |s| && IsOctalDigit(s[i])
    ensures r.Some? ==> i < r.value.next <= |s|
  {
    var d := OctalValue(s[i]);
    if !IsDecimalDigit(At(s, i + 1)) then Some(Escape([d], d != 0, i + 1))
    else if !IsOctalDigit(s[i + 1]) then None
    else
      var e := d * 8 + OctalValue(s[i + 1]);
      if d > 3 || !IsDecimalDigit(At(s, i + 2)) then Some(Escape([e], true, i + 2))
      else if !IsOctalDigit(s[i + 2]) then None
      else Some(Escape([e * 8 + OctalValue(s[i + 2])], true, i + 3))
  }

  datatype Literal = Literal(buffer: Text, escape: EscapeType, next: nat)

  function Marked(t: EscapeType, octal: bool): EscapeType
  {
    if octal then OCTAL else if t == NONE then ESCAPE else t
  }

  /** The rest of a string literal from i; None when it is not closed or holds a bad escape. */
  function StringAt(s: Text, i: nat, quote: Unit, buffer: Text, t: EscapeType): (r: Option<Literal>)
    requires i <= |s|
    ensures r.Some? ==> i < r.value.next <= |s|
    decreases |s| - i
  {
    var c := At(s, i);
    if c == quote then Some(Literal(buffer, t, i + 1))
    else if c < 0 || IsLineTerminator(c) then None
    else if c == BACKSLASH then
      if i + 1 == |s| then None
      else
        match EscapeAt(s, i + 1)
        case None => None
        case Some(Escape(text, octal, next)) => StringAt(s, next, quote, buffer + text, Marked(t, octal))
    else StringAt(s, i + 1, quote, buffer + [c], t)
  }

  // ----- quoting and scanning -----

  predicate NoSeparators(s: Text)
  {
    forall i :: 0 <= i < |s| ==> !IsSeparator(s[i])
  }

  /** src reads a at i. */
  ghost predicate Reads(src: Text, i: nat, a: Text)
  {
    i + |a| <= |src| && src[i..i + |a|] == a
  }

  lemma ReadsBoth(src: Text, i: nat, a: Text, b: Text)
    requires Reads(src, i, a + b)
    ensures Reads(src, i, a) && Reads(src, i + |a|, b)
  {
    assert src[i..i + |a|] == src[i..i + |a + b|][..|a|] == a;
    assert src[i + |a|..i + |a| + |b|] == src[i..i + |a + b|][|a|..] == b;
  }

  lemma ReadsUnits(src: Text, i: nat, a: Text)
    requires Reads(src, i, a)
    ensures i + |a| <= |src| && forall j :: i <= j < i + |a| ==> src[j] == a[j - i]
  {
    assert forall j :: i <= j < i + |a| ==> src[j] == src[i..i + |a|][j - i];
  }

  lemma FourDigitsValue(s: Text, i: nat, v: Unit)
    requires Reads(s, i, FourDigits(v))
    ensures HexAt(s, i, 4) == Some(v)
  {
    var f := FourDigits(v);
    ReadsUnits(s, i, f);
    hide HexAt;
    HexFour(s, i, HexValue(f[0]), HexValue(f[1]), HexValue(f[2]), HexValue(f[3]));
    DigitsRebuild(v);
  }

  lemma DigitsRebuild(v: Unit)
    ensures ((v / 4096 * 16 + v / 256 % 16) * 16 + v / 16 % 16) * 16 + v % 16 == v
  {
    assert v / 256 == v / 4096 * 16 + v / 256 % 16;
    assert v / 16 == v / 256 * 16 + v / 16 % 16;
  }

  lemma HexFour(s: Text, i: nat, a: int, b: int, c: int, d: int)
    requires i + 4 <= |s| && HexValue(s[i]) == a >= 0 && HexValue(s[i + 1]) == b >= 0
    requires HexValue(s[i + 2]) == c >= 0 && HexValue(s[i + 3]) == d >= 0
    ensures HexAt(s, i, 4) == Some(((a * 16 + b) * 16 + c) * 16 + d)
  {
    assert HexAt(s, i, 1) == Some(a);
    assert HexAt(s, i, 2) == Some(a * 16 + b);
    assert HexAt(s, i, 3) == Some((a * 16 + b) * 16 + c);
  }

  /** The escape mark after the quoted form of c. */
  ghost function Shown(c: Unit, t: EscapeType): EscapeType
  {
    if QuoteUnit(c) == [c] then t else Marked(t, false)
  }

  /** Scanning the quoted form of one unit records just that unit. */
  lemma ScansUnit(s: Text, i: nat, c: Unit, buffer: Text, t: EscapeType)
    requires Reads(s, i, QuoteUnit(c)) && !IsSeparator(c)
    ensures StringAt(s, i, QUOTE, buffer, t) ==
      StringAt(s, i + |QuoteUnit(c)|, QUOTE, buffer + [c], Shown(c, t))
  {
    var q := QuoteUnit(c);
    ReadsUnits(s, i, q);
    if |q| == 6 {
      ReadsBoth(s, i, [BACKSLASH, LOWER_U], FourDigits(c));
      FourDigitsValue(s, i + 2, c);
    }
  }

  /** What scanning the quoted form of s from i must find. */
  ghost function Scanned(i: nat, s: Text, buffer: Text, t: EscapeType): Option<Literal>
  {
    if NoSeparators(s) then
      Some(Literal(buffer + s, if JSONQuote(s) == s then t else Marked(t, false), i + |JSONQuote(s)| + 1))
    else None
  }

  lemma ScannedStep(i: nat, s: Text, buffer: Text, t: EscapeType)
    requires s != [] && !IsSeparator(s[0])
    ensures var one := QuoteUnit(s[0]);
      Scanned(i, s, buffer, t) == Scanned(i + |one|, s[1..], buffer + [s[0]], Shown(s[0], t))
  {
    hide NoSeparators, QuoteUnit, JSONQuote, Marked;
    NoSeparatorsFirst(s);
    QuotedUnchanged(s);
    QuotedLength(s);
    MarkedTwice(t);
    assert buffer + [s[0]] + s[1..] == buffer + s;
  }

  /** Scanning q, the quoted form of s, gives s back, unless s holds U+2028 or U+2029. */
  lemma {:induction false} ScansQuoted(src: Text, i: nat, s: Text, q: Text, buffer: Text, t: EscapeType)
    requires q == JSONQuote(s) && Reads(src, i, q) && At(src, i + |q|) == QUOTE
    ensures StringAt(src, i, QUOTE, buffer, t) == Scanned(i, s, buffer, t)
    decreases |s|
  {
    hide StringAt, JSONQuote, QuoteUnit, Scanned, Shown, IsSeparator, Reads;
    if s == [] {
      ScansNothing(src, i, q, buffer, t);
    } else {
      ReadsQuoted(src, i, s, q);
      if IsSeparator(s[0]) {
        StopsAtSeparator(src, i, s, buffer, t);
      } else {
        ScansUnit(src, i, s[0], buffer, t);
        ScannedStep(i, s, buffer, t);
        ScansQuoted(src, i + |QuoteUnit(s[0])|, s[1..], JSONQuote(s[1..]), buffer + [s[0]], Shown(s[0], t));
      }
    }
  }

  lemma ScansNothing(src: Text, i: nat, q: Text, buffer: Text, t: EscapeType)
    requires q == JSONQuote([]) && At(src, i + |q|) == QUOTE
    ensures StringAt(src, i, QUOTE, buffer, t) == Scanned(i, [], buffer, t)
  {
    assert buffer + [] == buffer;
  }

  lemma ReadsQuoted(src: Text, i: nat, s: Text, q: Text)
    requires s != [] && q == JSONQuote(s) && Reads(src, i, q)
    ensures Reads(src, i, QuoteUnit(s[0])) && Reads(src, i + |QuoteUnit(s[0])|, JSONQuote(s[1..]))
    ensures |q| == |QuoteUnit(s[0])| + |JSONQuote(s[1..])|
  {
    assert q == QuoteUnit(s[0]) + JSONQuote(s[1..]);
    hide *;
    ReadsBoth(src, i, QuoteUnit(s[0]), JSONQuote(s[1..]));
  }

  /** A separator is not quoted, and the scanner does not get past it. */
  lemma StopsAtSeparator(src: Text, i: nat, s: Text, buffer: Text, t: EscapeType)
    requires s != [] && IsSeparator(s[0]) && Reads(src, i, QuoteUnit(s[0]))
    ensures StringAt(src, i, QUOTE, buffer, t) == None == Scanned(i, s, buffer, t)
  {
    NoSeparatorsFirst(s);
    ReadsUnits(src, i, QuoteUnit(s[0]));
  }

  lemma MarkedTwice(t: EscapeType)
    ensures Marked(Marked(t, false), false) == Marked(t, false)
  {
  }

  lemma NoSeparatorsFirst(s: Text)
    requires s != []
    ensures NoSeparators(s) <==> !IsSeparator(s[0]) && NoSeparators(s[1..])
  {
    assert s == [s[0]] + s[1..];
  }

  lemma {:induction false} QuotedIsLonger(s: Text)
    ensures |JSONQuote(s)| >= |s|
  {
    if s != [] {
      QuotedIsLonger(s[1..]);
    }
  }

  lemma QuotedLength(s: Text)
    requires s != []
    ensures |JSONQuote(s)| == |QuoteUnit(s[0])| + |JSONQuote(s[1..])|
  {
  }

  lemma QuotedUnchanged(s: Text)
    requires s != []
    ensures JSONQuote(s) == s <==> QuoteUnit(s[0]) == [s[0]] && JSONQuote(s[1..]) == s[1..]
  {
    QuotedIsLonger(s[1..]);
    assert s == [s[0]] + s[1..];
    if JSONQuote(s) == s {
      assert |QuoteUnit(s[0])| == 1;
      assert JSONQuote(s)[1..] == JSONQuote(s[1..]);
    }
  }

  /** The literal `"` + JSONQuote(s) + `"` denotes s, never in the octal way, exactly when s has no separator. */
  lemma QuoteRoundTrip(s: Text, rest: Text)
    ensures var q := JSONQuote(s);
      StringAt([QUOTE] + q + [QUOTE] + rest, 1, QUOTE, [], NONE) ==
        if NoSeparators(s) then Some(Literal(s, if q == s then NONE else ESCAPE, |q| + 2)) else None
  {
    var q := JSONQuote(s);
    var src := [QUOTE] + q + [QUOTE] + rest;
    assert src[1..1 + |q|] == q;
    ScansQuoted(src, 1, s, q, [], NONE);
    assert [] + s == s;
  }

  // ----- escaping a pattern -----

  datatype PatternState = PatternState(inClass: bool, backslash: bool)

  const OUTSIDE := PatternState(false, false)

  function SeparatorDigits(c: Unit): Text
  {
    [LOWER_U] + FourDigits(c)
  }

  /** What is written for c. */
  function EscapeUnit(st: PatternState, c: Unit): Text
  {
    (if st == OUTSIDE && c == SLASH then [BACKSLASH] else [])
    + (if IsLineTerminator(c) && !st.backslash then [BACKSLASH] else [])
    + (if IsSeparator(c) then SeparatorDigits(c) else if c == LF then [LOWER_N] else if c == CR then [LOWER_R] else [c])
  }

  function After(st: PatternState, c: Unit): PatternState
  {
    if st.backslash then PatternState(st.inClass, false)
    else PatternState(if st.inClass then c != RBRACK else c == LBRACK, c == BACKSLASH)
  }

  function RegExpEscape(st: PatternState, s: Text): Text
    decreases |s|
  {
    if s == [] then [] else EscapeUnit(st, s[0]) + RegExpEscape(After(st, s[0]), s[1..])
  }

  function AfterAll(st: PatternState, s: Text): PatternState
    decreases |s|
  {
    if s == [] then st else AfterAll(After(st, s[0]), s[1..])
  }

  lemma RegExpEscapeStep(st: PatternState, s: Text)
    requires s != []
    ensures RegExpEscape(st, s) == EscapeUnit(st, s[0]) + RegExpEscape(After(st, s[0]), s[1..])
  {
  }

  method EscapePattern(s: Text) returns (out: Text)
    ensures out == RegExpEscape(OUTSIDE, s)
  {
    hide RegExpEscape, EscapeUnit, After;
    out := [];
    var st := OUTSIDE;
    for i := 0 to |s|
      invariant out + RegExpEscape(st, s[i..]) == RegExpEscape(OUTSIDE, s)
    {
      RegExpEscapeStep(st, s[i..]);
      assert s[i..][1..] == s[i + 1..];
      ghost var was, one, more := out, EscapeUnit(st, s[i]), RegExpEscape(After(st, s[i]), s[i + 1..]);
      out, st := EscapeNext(out, st, s[i]);
      assert (was + one) + more == was + (one + more);
    }
    RegExpEscapeEnd(st);
    assert s[|s|..] == [] && out + [] == out;
  }

  lemma RegExpEscapeEnd(st: PatternState)
    ensures RegExpEscape(st, []) == []
  {
  }

  method EscapeNext(before: Text, st: PatternState, ch: Unit) returns (out: Text, next: PatternState)
    ensures out == before + EscapeUnit(st, ch) && next == After(st, ch)
  {
    out := before;
    var characterInBrack := st.inClass;
    if !st.backslash {
      if characterInBrack {
        if ch == RBRACK {
          characterInBrack := false;
        }
      } else {
        if ch == SLASH {
          out := out + [BACKSLASH];
        } else if ch == LBRACK {
          characterInBrack := true;
        }
      }
      out := EscapePatternUnit(out, ch, false);
      next := PatternState(characterInBrack, ch == BACKSLASH);
    } else {
      out := EscapePatternUnit(out, ch, true);
      next := PatternState(characterInBrack, false);  // prevents /\\[/]/
    }
  }

  method EscapePatternUnit(out: Text, ch: Unit, previousIsBackslash: bool) returns (r: Text)
    ensures r == out
      + (if IsLineTerminator(ch) && !previousIsBackslash then [BACKSLASH] else [])
      + (if IsSeparator(ch) then SeparatorDigits(ch) else if ch == LF then [LOWER_N] else if ch == CR then [LOWER_R] else [ch])
  {
    r := out;
    if IsSeparator(ch) {
      var sequence := UnicodeSequenceEscape(ch, if previousIsBackslash then [LOWER_U] else [BACKSLASH, LOWER_U]);
      r := r + sequence;
    } else if ch == LF || ch == CR {
      if !previousIsBackslash {
        r := r + [BACKSLASH];
      }
      r := r + [if ch == LF then LOWER_N else LOWER_R];
    } else {
      r := r + [ch];
    }
  }

  // ----- the pattern scanner as a function -----

  /** Where a pattern that goes on at i is closed: the index behind its slash. Everything before is its text. */
  function PatternAt(s: Text, i: nat, inClass: bool): (r: Option<nat>)
    requires i <= |s|
    ensures r.Some? ==> i < r.value <= |s|
    decreases |s| - i
  {
    var c := At(s, i);
    if c == SLASH && !inClass then Some(i + 1)
    else if c < 0 || IsLineTerminator(c) then None
    else if c == BACKSLASH then
      if At(s, i + 1) < 0 || IsLineTerminator(At(s, i + 1)) then None else PatternAt(s, i + 2, inClass)
    else PatternAt(s, i + 1, if c == LBRACK then true else if c == RBRACK then false else inClass)
  }

  // ----- escaping and scanning -----

  lemma {:induction false} EscapeConcat(st: PatternState, a: Text, b: Text)
    ensures RegExpEscape(st, a + b) == RegExpEscape(st, a) + RegExpEscape(AfterAll(st, a), b)
    ensures AfterAll(st, a + b) == AfterAll(AfterAll(st, a), b)
    decreases |a|
  {
    if a == [] {
      assert a + b == b;
    } else {
      assert (a + b)[1..] == a[1..] + b;
      EscapeConcat(After(st, a[0]), a[1..], b);
    }
  }

  lemma {:induction false} PlainRun(st: PatternState, s: Text)
    requires !st.backslash
    requires forall i :: 0 <= i < |s| ==> !IsLineTerminator(s[i]) && s[i] !in {SLASH, LBRACK, RBRACK, BACKSLASH}
    ensures RegExpEscape(st, s) == s && AfterAll(st, s) == st
    decreases |s|
  {
    if s != [] {
      PlainRun(st, s[1..]);
      assert s == [s[0]] + s[1..];
    }
  }

  /** What is written for a unit is itself left alone, and leads to the same state. */
  lemma UnitStable(st: PatternState, c: Unit)
    ensures RegExpEscape(st, EscapeUnit(st, c)) == EscapeUnit(st, c)
    ensures AfterAll(st, EscapeUnit(st, c)) == After(st, c)
  {
    hide RegExpEscape, AfterAll, FourDigits;
    EscapeFew(st, c);
    if IsSeparator(c) {
      var lead := if st.backslash then [LOWER_U] else [BACKSLASH, LOWER_U];
      assert EscapeUnit(st, c) == lead + FourDigits(c);
      EscapeConcat(st, lead, FourDigits(c));
      if st.backslash {
        EscapeFew(st, LOWER_U);
      } else {
        EscapePair(st, LOWER_U);
      }
      DigitsStay(st, c);
    } else if EscapeUnit(st, c) != [c] {
      var x := if c == LF then LOWER_N else if c == CR then LOWER_R else c;
      if st.backslash {
        assert EscapeUnit(st, c) == [x];
        EscapeFew(st, x);
      } else {
        assert EscapeUnit(st, c) == [BACKSLASH, x];
        EscapePair(st, x);
      }
    }
  }

  lemma DigitsStay(st: PatternState, c: Unit)
    ensures var st' := PatternState(st.inClass, false);
      RegExpEscape(st', FourDigits(c)) == FourDigits(c) && AfterAll(st', FourDigits(c)) == st'
  {
    PlainRun(PatternState(st.inClass, false), FourDigits(c));
  }

  lemma EscapePair(st: PatternState, x: Unit)
    requires !st.backslash && !IsLineTerminator(x)
    ensures RegExpEscape(st, [BACKSLASH, x]) == [BACKSLASH, x] && AfterAll(st, [BACKSLASH, x]) == st
  {
    EscapeConcat(st, [BACKSLASH], [x]);
    EscapeFew(st, BACKSLASH);
    EscapeFew(After(st, BACKSLASH), x);
    assert [BACKSLASH] + [x] == [BACKSLASH, x];
  }

  lemma EscapeFew(st: PatternState, c: Unit)
    ensures RegExpEscape(st, []) == [] && AfterAll(st, []) == st
    ensures RegExpEscape(st, [c]) == EscapeUnit(st, c) && AfterAll(st, [c]) == After(st, c)
  {
    assert [c][1..] == [];
    assert EscapeUnit(st, c) + [] == EscapeUnit(st, c);
  }

  /** Escaping twice is escaping once, for every text. */
  lemma {:induction false} EscapeIdempotent(st: PatternState, s: Text)
    ensures RegExpEscape(st, RegExpEscape(st, s)) == RegExpEscape(st, s)
    ensures AfterAll(st, RegExpEscape(st, s)) == AfterAll(st, s)
    decreases |s|
  {
    if s != [] {
      UnitStable(st, s[0]);
      EscapeIdempotent(After(st, s[0]), s[1..]);
      EscapeConcat(st, EscapeUnit(st, s[0]), RegExpEscape(After(st, s[0]), s[1..]));
    }
  }

  lemma {:induction false} EscapeHasNoLineTerminator(st: PatternState, s: Text)
    ensures forall i :: 0 <= i < |RegExpEscape(st, s)| ==> !IsLineTerminator(RegExpEscape(st, s)[i])
    decreases |s|
  {
    if s != [] {
      EscapeHasNoLineTerminator(After(st, s[0]), s[1..]);
    }
  }

  /** e, the escaped form of s, scanned from a place outside an escape, is passed over. */
  lemma {:induction false} ScansEscaped(src: Text, i: nat, inClass: bool, s: Text, e: Text)
    requires e == RegExpEscape(PatternState(inClass, false), s) && Reads(src, i, e)
    requires !AfterAll(PatternState(inClass, false), s).backslash
    ensures PatternAt(src, i, inClass) == PatternAt(src, i + |e|, AfterAll(PatternState(inClass, false), s).inClass)
    decreases |s|
  {
    if s != [] {
      var n, inClass', more := ScansFirst(src, i, inClass, s, e);
      hide RegExpEscape, AfterAll, PatternAt, Reads;
      ScansEscaped(src, i + |e| - |more|, inClass', s[n..], more);
    }
  }

  /** The first unit, or the first two when they are an escape, and the rest. */
  lemma ScansFirst(src: Text, i: nat, inClass: bool, s: Text, e: Text) returns (n: nat, inClass': bool, more: Text)
    requires e == RegExpEscape(PatternState(inClass, false), s) && Reads(src, i, e)
    requires !AfterAll(PatternState(inClass, false), s).backslash && s != []
    ensures 0 < n <= |s| && |more| <= |e| && more == RegExpEscape(PatternState(inClass', false), s[n..])
    ensures AfterAll(PatternState(inClass, false), s) == AfterAll(PatternState(inClass', false), s[n..])
    ensures Reads(src, i + |e| - |more|, more)
    ensures PatternAt(src, i, inClass) == PatternAt(src, i + |e| - |more|, inClass')
  {
    hide *;
    if s[0] == BACKSLASH {
      n, inClass', more := ScansFirstPair(src, i, inClass, s, e);
    } else {
      n, inClass', more := ScansFirstUnit(src, i, inClass, s, e);
    }
  }

  lemma ScansFirstPair(src: Text, i: nat, inClass: bool, s: Text, e: Text) returns (n: nat, inClass': bool, more: Text)
    requires e == RegExpEscape(PatternState(inClass, false), s) && Reads(src, i, e)
    requires !AfterAll(PatternState(inClass, false), s).backslash && s != []
    requires s[0] == BACKSLASH
    ensures 0 < n <= |s| && |more| <= |e| && more == RegExpEscape(PatternState(inClass', false), s[n..])
    ensures AfterAll(PatternState(inClass, false), s) == AfterAll(PatternState(inClass', false), s[n..])
    ensures Reads(src, i + |e| - |more|, more)
    ensures PatternAt(src, i, inClass) == PatternAt(src, i + |e| - |more|, inClass')
  {
    var st := PatternState(inClass, false);
    assert s[1..] != [];
    hide RegExpEscape, AfterAll, EscapeUnit, PatternAt, Reads;
    EscapeTwo(st, s);
    var pair := [BACKSLASH] + EscapeUnit(PatternState(inClass, true), s[1]);
    n, inClass', more := 2, inClass, RegExpEscape(st, s[2..]);
    assert e == pair + more && |e| - |more| == |pair|;
    hide *;
    ReadsBoth(src, i, pair, more);
    ScansPair(src, i, inClass, s[1], pair);
  }

  lemma ScansFirstUnit(src: Text, i: nat, inClass: bool, s: Text, e: Text) returns (n: nat, inClass': bool, more: Text)
    requires e == RegExpEscape(PatternState(inClass, false), s) && Reads(src, i, e)
    requires !AfterAll(PatternState(inClass, false), s).backslash && s != []
    requires s[0] != BACKSLASH
    ensures 0 < n <= |s| && |more| <= |e| && more == RegExpEscape(PatternState(inClass', false), s[n..])
    ensures AfterAll(PatternState(inClass, false), s) == AfterAll(PatternState(inClass', false), s[n..])
    ensures Reads(src, i + |e| - |more|, more)
    ensures PatternAt(src, i, inClass) == PatternAt(src, i + |e| - |more|, inClass')
  {
    var st := PatternState(inClass, false);
    var one := EscapeUnit(st, s[0]);
    n, inClass', more := 1, After(st, s[0]).inClass, RegExpEscape(After(st, s[0]), s[1..]);
    assert After(st, s[0]) == PatternState(inClass', false);
    assert e == one + more && AfterAll(st, s) == AfterAll(After(st, s[0]), s[1..]);
    hide RegExpEscape, AfterAll, EscapeUnit, PatternAt, Reads;
    ReadsBoth(src, i, one, more);
    ScansOne(src, i, inClass, s[0], one);
  }

  lemma EscapeTwo(st: PatternState, s: Text)
    requires !st.backslash && |s| >= 2 && s[0] == BACKSLASH
    ensures AfterAll(st, s) == AfterAll(st, s[2..])
    ensures RegExpEscape(st, s) == [BACKSLASH] + EscapeUnit(PatternState(st.inClass, true), s[1]) + RegExpEscape(st, s[2..])
  {
    var behind := PatternState(st.inClass, true);
    assert s[1..][1..] == s[2..];
    assert After(st, s[0]) == behind && After(behind, s[1]) == st && EscapeUnit(st, s[0]) == [BACKSLASH];
    assert AfterAll(st, s) == AfterAll(behind, s[1..]) == AfterAll(st, s[2..]);
    assert RegExpEscape(behind, s[1..]) == EscapeUnit(behind, s[1]) + RegExpEscape(st, s[2..]);
    hide EscapeUnit, After, AfterAll;
  }

  /** A unit outside an escape; a line terminator or a slash has become an escape of its own. */
  lemma ScansOne(src: Text, i: nat, inClass: bool, c: Unit, e: Text)
    requires e == EscapeUnit(PatternState(inClass, false), c) && c != BACKSLASH && Reads(src, i, e)
    ensures PatternAt(src, i, inClass) == PatternAt(src, i + |e|, After(PatternState(inClass, false), c).inClass)
  {
    ReadsUnits(src, i, e);
    if IsSeparator(c) {
      ScansSeparator(src, i, inClass, c);
    }
  }

  /** A backslash and the unit behind it, which is written as what follows a backslash. */
  lemma ScansPair(src: Text, i: nat, inClass: bool, c: Unit, e: Text)
    requires e == [BACKSLASH] + EscapeUnit(PatternState(inClass, true), c) && Reads(src, i, e)
    ensures PatternAt(src, i, inClass) == PatternAt(src, i + |e|, inClass)
  {
    ReadsUnits(src, i, e);
    if IsSeparator(c) {
      ScansSeparator(src, i, inClass, c);
    }
  }

  lemma ScansSeparator(src: Text, i: nat, inClass: bool, c: Unit)
    requires Reads(src, i, [BACKSLASH, LOWER_U] + FourDigits(c))
    ensures PatternAt(src, i, inClass) == PatternAt(src, i + 6, inClass)
  {
    ReadsUnits(src, i, [BACKSLASH, LOWER_U] + FourDigits(c));
    ReadsBoth(src, i, [BACKSLASH, LOWER_U], FourDigits(c));
    ScansPlain(src, i + 2, inClass, FourDigits(c));
  }

  lemma {:induction false} ScansPlain(src: Text, i: nat, inClass: bool, s: Text)
    requires Reads(src, i, s)
    requires forall j :: 0 <= j < |s| ==> !IsLineTerminator(s[j]) && s[j] !in {SLASH, LBRACK, RBRACK, BACKSLASH}
    ensures PatternAt(src, i, inClass) == PatternAt(src, i + |s|, inClass)
    decreases |s|
  {
    if s != [] {
      ReadsUnits(src, i, s);
      ReadsBoth(src, i, [s[0]], s[1..]);
      assert s == [s[0]] + s[1..];
      ScansPlain(src, i + 1, inClass, s[1..]);
    }
  }

  /**
   * `/` + RegExpEscape(s) + `/` is scanned as one literal, closed by that slash, exactly when s ends outside a class
   * and not on a dangling backslash.
   */
  lemma PatternRoundTrip(s: Text, rest: Text)
    ensures var e := RegExpEscape(OUTSIDE, s); var src := [SLASH] + e + [SLASH] + rest;
      && src[1..|e| + 1] == e
      && (PatternAt(src, 1, false) == Some(|e| + 2) <==> AfterAll(OUTSIDE, s) == OUTSIDE)
  {
    var e := RegExpEscape(OUTSIDE, s);
    var src := [SLASH] + e + [SLASH] + rest;
    assert src[1..1 + |e|] == e && src[1 + |e|] == SLASH;
    if !AfterAll(OUTSIDE, s).backslash {
      ScansEscaped(src, 1, false, s, e);
    } else {
      DanglingNotClosed(src, s, e);
    }
  }

  /** After a dangling backslash the slash is part of the pattern. */
  lemma DanglingNotClosed(src: Text, s: Text, e: Text)
    requires AfterAll(OUTSIDE, s).backslash && e == RegExpEscape(OUTSIDE, s)
    requires Reads(src, 1, e) && At(src, 1 + |e|) == SLASH
    ensures PatternAt(src, 1, false) != Some(|e| + 2)
  {
    EndsDangling(OUTSIDE, s);
    var t := s[..|s| - 1];
    var e' := RegExpEscape(OUTSIDE, t);
    assert e == e' + [BACKSLASH];
    ReadsBoth(src, 1, e', [BACKSLASH]);
    ScansEscaped(src, 1, false, t, e');
    ReadsUnits(src, 1 + |e'|, [BACKSLASH]);
  }

  /** A dangling backslash is the last unit, and is written as it is. */
  lemma EndsDangling(st: PatternState, s: Text)
    requires AfterAll(st, s).backslash && !st.backslash
    ensures s != [] && s[|s| - 1] == BACKSLASH && !AfterAll(st, s[..|s| - 1]).backslash
    ensures RegExpEscape(st, s) == RegExpEscape(st, s[..|s| - 1]) + [BACKSLASH]
  {
    var t, c := s[..|s| - 1], s[|s| - 1];
    assert s == t + [c];
    EscapeConcat(st, t, [c]);
    EscapeFew(AfterAll(st, t), c);
  }
}
