/**
 * What the lexer must find in a source, stated without it: trivia, names, numbers, punctuators and
 * illegal text. The statement leaves no choice: a source has only one sequence of tokens.
 */
module Tokens {
  import opened Basics
  import opened Characters
  import opened Escapes

  /** The parts of the Unicode tables that lie outside ASCII. */
  datatype Categories = Categories(space: Unit -> bool, start: Unit -> bool, part: Unit -> bool)

  /** No character is two of: a space, a line separator, the start of a name. */
  ghost predicate Apart(t: Categories)
  {
    forall c: Unit ::
      && (t.start(c) ==> !t.space(c) && c != 0xA0 && c != 0xFEFF && !IsSeparator(c))
      && (t.space(c) ==> !IsSeparator(c))
  }

  type Tables = t: Categories | Apart(t) witness Categories(_ => false, _ => false, _ => false)

  predicate IsLetter(c: int) { 0x41 <= c <= 0x5A || 0x61 <= c <= 0x7A }

  predicate IsWhiteSpace(t: Tables, c: int)
  {
    if c < 0 then false
    else if c < 128 then c == SPACE || c == TAB || c == VT || c == FF
    else c < 0x10000 && (c == 0xA0 || c == 0xFEFF || t.space(c))
  }

  predicate IsIdentifierStart(t: Tables, c: int)
  {
    if c < 0 then false
    else if c < 128 then c == 0x24 || c == 0x5F || c == BACKSLASH || IsLetter(c)
    else c < 0x10000 && t.start(c)
  }

  predicate IsIdentifierPart(t: Tables, c: int)
  {
    if c < 0 then false
    else if c < 128 then c == 0x24 || c == 0x5F || c == BACKSLASH || IsLetter(c) || IsDecimalDigit(c)
    else c < 0x10000 && t.part(c)
  }

  datatype Token =
    | EOS | ILLEGAL | NOT_FOUND | NAME | STRING | NUMBER
    | PERIOD | COLON | SEMICOLON | COMMA | LPAREN | RPAREN | LBRACK | RBRACK | LBRACE | RBRACE | CONDITIONAL
    | EQ | EQ_STRICT | NOT | NE | NE_STRICT | INC | DEC | ADD | SUB | MUL | DIV | MOD
    | LT | GT | LTE | GTE | SAR | SHR | SHL | BIT_AND | BIT_OR | BIT_XOR | BIT_NOT | LOGICAL_AND | LOGICAL_OR
    | ASSIGN | ASSIGN_ADD | ASSIGN_SUB | ASSIGN_MUL | ASSIGN_MOD | ASSIGN_DIV | ASSIGN_SAR | ASSIGN_SHR | ASSIGN_SHL
    | ASSIGN_BIT_AND | ASSIGN_BIT_OR | ASSIGN_BIT_XOR

  // ----- punctuators -----

  /** The spelling of a punctuator; empty for the other tokens. */
  function Spelling(t: Token): string
  {
    match t
    case PERIOD => "." case COLON => ":" case SEMICOLON => ";" case COMMA => ","
    case LPAREN => "(" case RPAREN => ")" case LBRACK => "[" case RBRACK => "]" case LBRACE => "{" case RBRACE => "}"
    case CONDITIONAL => "?" case BIT_NOT => "~"
    case EQ => "==" case EQ_STRICT => "===" case NOT => "!" case NE => "!=" case NE_STRICT => "!=="
    case INC => "++" case DEC => "--" case ADD => "+" case SUB => "-" case MUL => "*" case DIV => "/" case MOD => "%"
    case LT => "<" case GT => ">" case LTE => "<=" case GTE => ">=" case SAR => ">>" case SHR => ">>>" case SHL => "<<"
    case BIT_AND => "&" case BIT_OR => "|" case BIT_XOR => "^" case LOGICAL_AND => "&&" case LOGICAL_OR => "||"
    case ASSIGN => "=" case ASSIGN_ADD => "+=" case ASSIGN_SUB => "-=" case ASSIGN_MUL => "*=" case ASSIGN_MOD => "%="
    case ASSIGN_DIV => "/=" case ASSIGN_SAR => ">>=" case ASSIGN_SHR => ">>>=" case ASSIGN_SHL => "<<="
    case ASSIGN_BIT_AND => "&=" case ASSIGN_BIT_OR => "|=" case ASSIGN_BIT_XOR => "^="
    case _ => ""
  }

  function CharAt(w: string, j: nat): int
  {
    if j < |w| then w[j] as int else -1
  }

  ghost predicate Spelled(s: Text, i: nat, w: string)
  {
    i + |w| <= |s| && forall j :: 0 <= j < |w| ==> At(s, i + j) == CharAt(w, j)
  }

  /** The same for up to four characters, one by one. */
  ghost predicate SpelledOut(s: Text, i: nat, w: string)
  {
    && i + |w| <= |s| && |w| <= 4
    && (|w| > 0 ==> At(s, i) == CharAt(w, 0))
    && (|w| > 1 ==> At(s, i + 1) == CharAt(w, 1))
    && (|w| > 2 ==> At(s, i + 2) == CharAt(w, 2))
    && (|w| > 3 ==> At(s, i + 3) == CharAt(w, 3))
  }

  lemma SpelledOutIsSpelled(s: Text, i: nat, w: string)
    requires SpelledOut(s, i, w)
    ensures Spelled(s, i, w)
  {
  }

  /** t is spelled at i, and no longer punctuator is. */
  ghost predicate Longest(s: Text, i: nat, t: Token)
  {
    && Spelling(t) != "" && Spelled(s, i, Spelling(t))
    && forall q: Token :: Spelled(s, i, Spelling(q)) ==> |Spelling(q)| <= |Spelling(t)|
  }

  /** The punctuators that nothing can follow. */
  function SingleOf(c: int): (t: Token)
    ensures t != NOT_FOUND ==> |Spelling(t)| == 1 && c == Spelling(t)[0] as int
  {
    if c == ':' as int then COLON
    else if c == ';' as int then SEMICOLON
    else if c == ',' as int then COMMA
    else if c == '(' as int then LPAREN
    else if c == ')' as int then RPAREN
    else if c == '[' as int then LBRACK
    else if c == ']' as int then RBRACK
    else if c == '{' as int then LBRACE
    else if c == '}' as int then RBRACE
    else if c == '?' as int then CONDITIONAL
    else if c == '~' as int then BIT_NOT
    else NOT_FOUND
  }

  lemma SingleTells(c: int)
    requires SingleOf(c) != NOT_FOUND
    ensures SingleOf(c) !in {PERIOD, EOS, ILLEGAL} && |Spelling(SingleOf(c))| == 1
    ensures forall d :: !Continues(SingleOf(c), d)
    ensures !Operative(c) && !IsDecimalDigit(c)
  {
  }

  /** Some punctuator goes on with c after the spelling of t. */
  predicate Continues(t: Token, c: int)
  {
    match t
    case LT => c == '=' as int || c == '<' as int
    case GT | SAR => c == '=' as int || c == '>' as int
    case ADD => c == '=' as int || c == '+' as int
    case SUB => c == '=' as int || c == '-' as int
    case BIT_AND => c == '=' as int || c == '&' as int
    case BIT_OR => c == '=' as int || c == '|' as int
    case SHL | SHR | ASSIGN | EQ | NOT | NE | MUL | MOD | DIV | BIT_XOR => c == '=' as int
    case _ => false
  }

  /** Whatever punctuator extends the spelling of t does so with a continuing character. */
  lemma ExtensionContinues(t: Token, q: Token)
    requires var w, v := Spelling(t), Spelling(q);
      && 0 < |w| < |v| && CharAt(v, 0) == CharAt(w, 0)
      && (|w| > 1 ==> CharAt(v, 1) == CharAt(w, 1)) && (|w| > 2 ==> CharAt(v, 2) == CharAt(w, 2))
    ensures Continues(t, CharAt(Spelling(q), |Spelling(t)|))
  {
    if |Spelling(t)| == 1 {
      SingleContinues(t, q);
    }
  }

  lemma SingleContinues(t: Token, q: Token)
    requires |Spelling(t)| == 1 < |Spelling(q)| && CharAt(Spelling(q), 0) == CharAt(Spelling(t), 0)
    ensures Continues(t, CharAt(Spelling(q), 1))
  {
  }

  lemma LongestWhen(s: Text, i: nat, t: Token)
    requires Spelling(t) != "" && Spelled(s, i, Spelling(t)) && !Continues(t, At(s, i + |Spelling(t)|))
    ensures Longest(s, i, t)
  {
    var w := Spelling(t);
    forall q: Token | Spelled(s, i, Spelling(q))
      ensures |Spelling(q)| <= |w|
    {
      MatchIsShort(s, i, t, q);
    }
  }

  lemma MatchIsShort(s: Text, i: nat, t: Token, q: Token)
    requires Spelling(t) != "" && Spelled(s, i, Spelling(t)) && !Continues(t, At(s, i + |Spelling(t)|))
    requires Spelled(s, i, Spelling(q))
    ensures |Spelling(q)| <= |Spelling(t)|
  {
    if |Spelling(q)| > |Spelling(t)| {
      hide Spelling, Continues;
      ExtensionContinues(t, q);
      assert false;
    }
  }

  // ----- trivia -----

  /** The first place from i on that is a line terminator or the end. */
  function LineEnd(s: Text, i: nat): (j: nat)
    requires i <= |s|
    ensures i <= j <= |s| && (j < |s| ==> IsLineTerminator(s[j]))
    ensures forall k :: i <= k < j ==> !IsLineTerminator(s[k])
    decreases |s| - i
  {
    if i == |s| || IsLineTerminator(s[i]) then i else LineEnd(s, i + 1)
  }

  ghost predicate CommentEnd(s: Text, k: nat)
  {
    k + 1 < |s| && s[k] == ASTERISK && s[k + 1] == SLASH
  }

  /** A comment is introduced at i; `-->` does so only after a line terminator. */
  ghost predicate CommentAt(s: Text, i: nat, after: bool)
  {
    SpelledOut(s, i, "//") || SpelledOut(s, i, "/*") || SpelledOut(s, i, "<!--") || (after && SpelledOut(s, i, "-->"))
  }

  /** From i to k lies one white space, line terminator or comment. */
  ghost predicate Trivium(t: Tables, s: Text, i: nat, k: nat, after: bool)
  {
    && i < k <= |s|
    && ( || (k == i + 1 && (IsWhiteSpace(t, s[i]) || IsLineTerminator(s[i])))
         || (SpelledOut(s, i, "//") && k == LineEnd(s, i + 2))
         || (SpelledOut(s, i, "<!--") && k == LineEnd(s, i + 4))
         || (after && SpelledOut(s, i, "-->") && k == LineEnd(s, i + 3))
         || (SpelledOut(s, i, "/*") && i + 4 <= k && CommentEnd(s, k - 2)
             && forall j :: i + 2 <= j < k - 2 ==> !CommentEnd(s, j)))
  }

  /** From i to k a line is ended; the first character within a comment in several lines is not looked at. */
  ghost predicate Breaks(s: Text, i: nat, k: nat)
  {
    IsLineTerminator(At(s, i)) || (SpelledOut(s, i, "/*") && exists m :: i + 2 < m < k && IsLineTerminator(At(s, m)))
  }

  /** Only trivia from i to j; `before` and `now` tell whether a line was ended before i, and before j. */
  ghost predicate Trivia(t: Tables, s: Text, i: nat, j: nat, before: bool, now: bool)
    decreases j - i
  {
    if i >= j then i == j && before == now
    else exists k :: i < k <= j && Trivium(t, s, i, k, before) && Trivia(t, s, k, j, before || Breaks(s, i, k), now)
  }

  lemma {:induction false} TriviaThen(t: Tables, s: Text, i: nat, j: nat, k: nat, before: bool, now: bool)
    requires i <= j && Trivia(t, s, i, j, before, now) && Trivium(t, s, j, k, now)
    ensures Trivia(t, s, i, k, before, now || Breaks(s, j, k))
    decreases j - i
  {
    hide Trivium, Breaks;
    if i == j {
      OneTrivium(t, s, i, k, now);
    } else {
      var m :| i < m <= j && Trivium(t, s, i, m, before) && Trivia(t, s, m, j, before || Breaks(s, i, m), now);
      assert j < k by { InOrder(t, s, j, k, now); }
      TriviaThen(t, s, m, j, k, before || Breaks(s, i, m), now);
    }
  }

  lemma InOrder(t: Tables, s: Text, i: nat, k: nat, after: bool)
    requires Trivium(t, s, i, k, after)
    ensures i < k <= |s|
  {
  }

  lemma OneTrivium(t: Tables, s: Text, i: nat, k: nat, after: bool)
    requires Trivium(t, s, i, k, after)
    ensures Trivia(t, s, i, k, after, after || Breaks(s, i, k))
  {
    assert Trivia(t, s, k, k, after || Breaks(s, i, k), after || Breaks(s, i, k));
  }

  // ----- names -----

  /** One unit of a name, plain or as a Unicode escape, and where it ends. */
  function NameUnit(t: Tables, s: Text, i: nat, first: bool): (r: Option<(Unit, nat)>)
    ensures r.Some? ==> i < r.value.1 <= |s|
  {
    if At(s, i) < 0 then None
    else if At(s, i) != BACKSLASH then Some((s[i], i + 1))
    else if At(s, i + 1) != LOWER_U then None
    else
      match HexEscape(s, i + 2, 4)
      case None => None
      case Some(e) =>
        var v := e.text[0];
        if v == BACKSLASH || !(if first then IsIdentifierStart(t, v) else IsIdentifierPart(t, v)) then None
        else Some((v, e.next))
  }

  function NameRest(t: Tables, s: Text, i: nat, buffer: Text): (r: Option<(Text, nat)>)
    requires i <= |s|
    ensures r.Some? ==> i <= r.value.1 <= |s| && !IsIdentifierPart(t, At(s, r.value.1))
    decreases |s| - i
  {
    if !IsIdentifierPart(t, At(s, i)) then Some((buffer, i))
    else
      match NameUnit(t, s, i, false)
      case None => None
      case Some((u, next)) => NameRest(t, s, next, buffer + [u])
  }

  /** The name at i: its decoded text and its end, where no identifier part follows. */
  function NameAt(t: Tables, s: Text, i: nat): (r: Option<(Text, nat)>)
  {
    match NameUnit(t, s, i, true)
    case None => None
    case Some((u, next)) => NameRest(t, s, next, [u])
  }

  /** A name without escapes denotes itself. */
  lemma {:induction false} PlainName(t: Tables, s: Text, i: nat, buffer: Text)
    requires i <= |s| && NameRest(t, s, i, buffer).Some?
    requires forall k :: i <= k < NameRest(t, s, i, buffer).value.1 ==> s[k] != BACKSLASH
    ensures var (text, end) := NameRest(t, s, i, buffer).value; text == buffer + s[i..end]
    decreases |s| - i
  {
    var (text, end) := NameRest(t, s, i, buffer).value;
    if IsIdentifierPart(t, At(s, i)) {
      var (u, next) := NameUnit(t, s, i, false).value;
      assert i < next <= end;
      PlainName(t, s, i + 1, buffer + [s[i]]);
      assert buffer + [s[i]] + s[i + 1..end] == buffer + s[i..end];
    }
  }

  // ----- numbers -----

  datatype NumberType = DECIMAL | HEX | OCTAL_NUMBER

  ghost predicate Digits(s: Text, i: nat, j: nat)
  {
    i <= j <= |s| && forall k :: i <= k < j ==> IsDecimalDigit(s[k])
  }

  ghost predicate Exponent(s: Text, i: nat, j: nat)
  {
    i == j
    || (At(s, i) in {LOWER_E, UPPER_E}
        && ((i + 1 < j && Digits(s, i + 1, j))
            || (At(s, i + 1) in {PLUS as int, MINUS as int} && i + 2 < j && Digits(s, i + 2, j))))
  }

  /** Section 7.8.3 of ECMA-262: digits without a needless leading zero, a fraction, an exponent. */
  ghost predicate DecimalLiteral(s: Text, i: nat, d: nat, f: nat, j: nat)
  {
    && Digits(s, i, d) && d <= f <= j <= |s| && Exponent(s, f, j)
    && (d == f || (s[d] == Characters.PERIOD && Digits(s, d + 1, f)))
    && (if d == i then f > i + 1 else s[i] == DIGIT_0 ==> d == i + 1)
  }

  ghost predicate NumericLiteral(s: Text, i: nat, j: nat, t: NumberType)
  {
    match t
    case DECIMAL => exists d, f :: DecimalLiteral(s, i, d, f, j)
    case HEX => i + 2 < j <= |s| && s[i] == DIGIT_0 && s[i + 1] in {LOWER_X, UPPER_X}
                && forall k :: i + 2 <= k < j ==> IsHexDigit(s[k])
    case OCTAL_NUMBER => i + 1 < j <= |s| && s[i] == DIGIT_0 && forall k :: i + 1 <= k < j ==> IsOctalDigit(s[k])
  }

  /** The literal from i to m is the longest one that begins at i. */
  ghost predicate LongestNumber(s: Text, i: nat, m: nat, t: NumberType)
  {
    NumericLiteral(s, i, m, t) && forall j: nat, u :: NumericLiteral(s, i, j, u) ==> j <= m
  }

  /** What must not follow a number. */
  predicate SpoilsNumber(t: Tables, c: int)
  {
    IsDecimalDigit(c) || IsIdentifierStart(t, c)
  }

  ghost predicate BadNumber(t: Tables, s: Text, i: nat)
  {
    exists m: nat, u :: LongestNumber(s, i, m, u) && SpoilsNumber(t, At(s, m))
  }

  /** No exponent at f: digits are missing behind the letter, or there is none. */
  predicate NoExponent(s: Text, f: nat)
  {
    At(s, f) !in {LOWER_E as int, UPPER_E as int}
    || !IsDecimalDigit(At(s, if At(s, f + 1) in {PLUS as int, MINUS as int} then f + 2 else f + 1))
  }

  /** The digits and the fraction have been taken as far as they go. */
  ghost predicate MantissaExhausted(s: Text, i: nat, d: nat, f: nat)
  {
    && (IsDecimalDigit(At(s, d)) ==> d == i + 1 && At(s, i) == DIGIT_0)
    && (if d == f then At(s, d) != Characters.PERIOD else !IsDecimalDigit(At(s, f)))
    && (At(s, i) == DIGIT_0 ==>
          !IsOctalDigit(At(s, i + 1)) && (At(s, i + 1) in {LOWER_X as int, UPPER_X as int} ==> !IsHexDigit(At(s, i + 2))))
  }

  /** Every part of the literal has been taken as far as it goes. */
  ghost predicate Exhausted(s: Text, i: nat, d: nat, f: nat, j: nat)
  {
    MantissaExhausted(s, i, d, f) && if f == j then NoExponent(s, f) else !IsDecimalDigit(At(s, j))
  }

  /** From a mantissa to the literal with what has been read as its exponent. */
  lemma MantissaThen(s: Text, i: nat, d: nat, f: nat, j: nat)
    requires DecimalLiteral(s, i, d, f, f) && MantissaExhausted(s, i, d, f)
    requires if f == j then NoExponent(s, f) else f <= j <= |s| && Exponent(s, f, j) && !IsDecimalDigit(At(s, j))
    ensures LongestNumber(s, i, j, DECIMAL)
  {
    LongestDecimal(s, i, d, f, j);
  }

  lemma LongestDecimal(s: Text, i: nat, d: nat, f: nat, j: nat)
    requires DecimalLiteral(s, i, d, f, j) && Exhausted(s, i, d, f, j)
    ensures LongestNumber(s, i, j, DECIMAL)
  {
    forall k: nat, u | NumericLiteral(s, i, k, u)
      ensures k <= j
    {
      if u == DECIMAL {
        var d': nat, f': nat :| DecimalLiteral(s, i, d', f', k);
        NoLongerDecimal(s, i, d, f, j, d', f', k);
      }
    }
  }

  lemma NoLongerDecimal(s: Text, i: nat, d: nat, f: nat, j: nat, d': nat, f': nat, k: nat)
    requires DecimalLiteral(s, i, d, f, j) && Exhausted(s, i, d, f, j) && DecimalLiteral(s, i, d', f', k)
    ensures k <= j
  {
    assert d' <= d;
    if d' == d {
      assert f' <= f;
    }
  }

  lemma LongestHex(s: Text, i: nat, j: nat)
    requires NumericLiteral(s, i, j, HEX) && !IsHexDigit(At(s, j))
    ensures LongestNumber(s, i, j, HEX)
  {
  }

  lemma LongestOctal(s: Text, i: nat, j: nat)
    requires NumericLiteral(s, i, j, OCTAL_NUMBER) && !IsOctalDigit(At(s, j))
    ensures LongestNumber(s, i, j, OCTAL_NUMBER)
  {
  }

  // ----- tokens -----

  /** The first characters of the operators that ScanToken tells apart. */
  predicate Operative(c: int)
  {
    || c == '<' as int || c == '>' as int || c == '=' as int || c == '!' as int || c == '+' as int || c == '-' as int
    || c == '*' as int || c == '%' as int || c == '/' as int || c == '&' as int || c == '|' as int || c == '^' as int
  }

  lemma Beginning(q: Token)
    requires Spelling(q) != ""
    ensures var c := CharAt(Spelling(q), 0); Operative(c) || c == Characters.PERIOD || SingleOf(c) != NOT_FOUND
  {
  }

  predicate IsQuote(c: int) { c == QUOTE || c == APOSTROPHE }

  /** No token can begin here. */
  ghost predicate Stray(t: Tables, s: Text, i: nat)
  {
    && !IsQuote(At(s, i)) && !IsIdentifierStart(t, At(s, i)) && !IsDecimalDigit(At(s, i))
    && !IsWhiteSpace(t, At(s, i)) && !IsLineTerminator(At(s, i))
    && forall q: Token :: Spelling(q) != "" ==> !Spelled(s, i, Spelling(q))
  }

  /** What begins here is not closed or not well formed, or cannot begin anything. */
  ghost predicate IllegalAt(t: Tables, s: Text, i: nat)
    requires i < |s|
  {
    || (IsQuote(s[i]) && StringAt(s, i + 1, s[i], [], NONE).None?)
    || (IsIdentifierStart(t, s[i]) && NameAt(t, s, i).None?)
    || (SpelledOut(s, i, "/*") && forall j :: i + 2 <= j ==> !CommentEnd(s, j))
    || BadNumber(t, s, i)
    || Stray(t, s, i)
  }

  /** The longest punctuator, where there is neither a comment nor a number. */
  ghost predicate PunctuatorAt(s: Text, i: nat, token: Token, after: bool)
  {
    Longest(s, i, token) && !CommentAt(s, i, after) && (token == PERIOD ==> !IsDecimalDigit(At(s, i + 1)))
  }

  /** The token from i to j; `after` tells whether a line was ended in front of it. Where an illegal token ends is not said. */
  ghost predicate TokenAt(t: Tables, s: Text, token: Token, i: nat, j: nat, after: bool)
  {
    && i < j <= |s|
    && token != EOS && token != NOT_FOUND
    && (token == ILLEGAL ==> IllegalAt(t, s, i))
    && (token == STRING ==>
          IsQuote(s[i]) && StringAt(s, i + 1, s[i], [], NONE).Some? && StringAt(s, i + 1, s[i], [], NONE).value.next == j)
    && (token == NAME ==> IsIdentifierStart(t, s[i]) && NameAt(t, s, i).Some? && NameAt(t, s, i).value.1 == j)
    && (token == NUMBER ==> (exists u :: LongestNumber(s, i, j, u)) && !SpoilsNumber(t, At(s, j)))
    && (Spelling(token) != "" ==> PunctuatorAt(s, i, token, after) && j == i + |Spelling(token)|)
  }

  // ----- whole sources -----

  lemma TiledAtEnd(t: Tables, s: Text, i: nat, spans: seq<Span>, j: nat, end: nat, after: bool)
    requires j <= end && Tiles(t, s, i, spans, j) && Trivia(t, s, j, end, false, after)
    ensures Tiled(t, s, i, spans, end)
  {
  }

  lemma TriviaNothing(t: Tables, s: Text, i: nat, after: bool)
    ensures Trivia(t, s, i, i, after, after)
  {
  }

  lemma {:induction false} TriviaJoin(t: Tables, s: Text, i: nat, j: nat, k: nat, before: bool, between: bool, now: bool)
    requires i <= j <= k && Trivia(t, s, i, j, before, between) && Trivia(t, s, j, k, between, now)
    ensures Trivia(t, s, i, k, before, now)
    decreases j - i
  {
    if i < j {
      hide Trivium, Breaks;
      var m :| i < m <= j && Trivium(t, s, i, m, before) && Trivia(t, s, m, j, before || Breaks(s, i, m), between);
      TriviaJoin(t, s, m, j, k, before || Breaks(s, i, m), between, now);
    }
  }

  datatype Span = Span(token: Token, begin: nat, end: nat)

  /** p is a token that has only trivia between i and it. */
  ghost predicate NextIs(t: Tables, s: Text, i: nat, p: Span)
  {
    i <= p.begin && exists after :: Trivia(t, s, i, p.begin, false, after) && TokenAt(t, s, p.token, p.begin, p.end, after)
  }

  /** From i the tokens follow each other with only trivia between them; the last one ends at j. */
  ghost predicate Tiles(t: Tables, s: Text, i: nat, spans: seq<Span>, j: nat)
    decreases |spans|
  {
    if spans == [] then i == j else NextIs(t, s, i, spans[0]) && Tiles(t, s, spans[0].end, spans[1..], j)
  }

  ghost predicate OnlyTrivia(t: Tables, s: Text, i: nat, j: nat)
  {
    i <= j && exists after :: Trivia(t, s, i, j, false, after)
  }

  ghost predicate Tiled(t: Tables, s: Text, i: nat, spans: seq<Span>, end: nat)
  {
    exists j: nat :: Tiles(t, s, i, spans, j) && OnlyTrivia(t, s, j, end)
  }

  lemma TilesNothing(t: Tables, s: Text, i: nat)
    ensures Tiles(t, s, i, [], i)
  {
  }

  lemma {:induction false} TilesThen(t: Tables, s: Text, i: nat, spans: seq<Span>, j: nat, next: Span, after: bool)
    requires Tiles(t, s, i, spans, j) && j <= next.begin
    requires Trivia(t, s, j, next.begin, false, after) && TokenAt(t, s, next.token, next.begin, next.end, after)
    ensures Tiles(t, s, i, spans + [next], next.end)
    decreases |spans|
  {
    hide Trivia, TokenAt;
    if spans == [] {
      assert NextIs(t, s, i, next);
      assert (spans + [next])[1..] == [];
    } else {
      assert (spans + [next])[1..] == spans[1..] + [next];
      TilesThen(t, s, spans[0].end, spans[1..], j, next, after);
    }
  }

  // ----- there is no choice -----

  predicate NumberStart(s: Text, i: nat)
  {
    IsDecimalDigit(At(s, i)) || (At(s, i) == Characters.PERIOD && IsDecimalDigit(At(s, i + 1)))
  }

  lemma NumberStarts(s: Text, i: nat, j: nat, u: NumberType)
    requires NumericLiteral(s, i, j, u)
    ensures i < j && NumberStart(s, i)
  {
  }

  lemma LongestStarts(s: Text, i: nat, j: nat, u: NumberType)
    requires LongestNumber(s, i, j, u)
    ensures i < j && NumberStart(s, i)
  {
    NumberStarts(s, i, j, u);
  }

  /** Two longest literals end at the same place. */
  lemma LongestEnds(s: Text, i: nat, j: nat, u: NumberType, j': nat, u': NumberType)
    requires LongestNumber(s, i, j, u) && LongestNumber(s, i, j', u')
    ensures j == j'
  {
  }

  lemma SpelledFirst(s: Text, i: nat, q: Token)
    requires Spelling(q) != "" && Spelled(s, i, Spelling(q))
    ensures var c := At(s, i);
      c == CharAt(Spelling(q), 0) && (Operative(c) || c == Characters.PERIOD || SingleOf(c) != NOT_FOUND)
  {
    Beginning(q);
    assert At(s, i + 0) == CharAt(Spelling(q), 0);
  }

  /** By its first character a token is a string, a name, a number or something else. */
  lemma TokenStart(t: Tables, s: Text, token: Token, i: nat, j: nat, after: bool)
    requires TokenAt(t, s, token, i, j, after)
    ensures IsQuote(s[i]) ==> token == STRING || token == ILLEGAL
    ensures IsIdentifierStart(t, s[i]) ==> token == NAME || token == ILLEGAL
    ensures NumberStart(s, i) ==> token == NUMBER || token == ILLEGAL
    ensures token == STRING ==> IsQuote(s[i])
    ensures token == NAME ==> IsIdentifierStart(t, s[i])
    ensures token == NUMBER ==> NumberStart(s, i)
    ensures !IsWhiteSpace(t, s[i]) && !IsLineTerminator(s[i])
  {
    hide LongestNumber, Spelled, StringAt, NameAt, Spelling;
    OnlyPeriod(token);
    if token == NUMBER {
      var u :| LongestNumber(s, i, j, u);
      LongestStarts(s, i, j, u);
    } else if Spelling(token) != "" {
      SpelledFirst(s, i, token);
    } else if BadNumber(t, s, i) {
      var m: nat, u :| LongestNumber(s, i, m, u) && SpoilsNumber(t, At(s, m));
      LongestStarts(s, i, m, u);
    }
  }

  /** Of the punctuators, only the period begins with one. */
  lemma OnlyPeriod(token: Token)
    ensures Spelling(token) != "" && CharAt(Spelling(token), 0) == Characters.PERIOD ==> token == PERIOD
    ensures Spelling(token) == "" <==> token in {EOS, ILLEGAL, NOT_FOUND, NAME, STRING, NUMBER}
    ensures |Spelling(PERIOD)| == 1
  {
  }

  /** What is illegal, by its first character. */
  lemma IllegalStart(t: Tables, s: Text, i: nat)
    requires i < |s| && IllegalAt(t, s, i)
    ensures IsQuote(s[i]) ==> StringAt(s, i + 1, s[i], [], NONE).None?
    ensures IsIdentifierStart(t, s[i]) ==> NameAt(t, s, i).None?
    ensures NumberStart(s, i) ==> BadNumber(t, s, i)
    ensures !IsQuote(s[i]) && !IsIdentifierStart(t, s[i]) && !NumberStart(s, i) ==>
      Stray(t, s, i) || (SpelledOut(s, i, "/*") && forall j :: i + 2 <= j ==> !CommentEnd(s, j))
  {
    hide LongestNumber, StringAt, NameAt;
    if BadNumber(t, s, i) {
      var m: nat, u :| LongestNumber(s, i, m, u) && SpoilsNumber(t, At(s, m));
      LongestStarts(s, i, m, u);
    } else if Stray(t, s, i) && NumberStart(s, i) {
      assert SpelledOut(s, i, Spelling(PERIOD));
      SpelledOutIsSpelled(s, i, Spelling(PERIOD));
      assert false;
    }
  }

  /** The operator spelled by up to four characters, -1 standing for none. */
  function OperatorOf(a: int, b: int, c: int, d: int): Token
  {
    if a == '=' as int then (if b < 0 then ASSIGN else if c < 0 then EQ else EQ_STRICT)
    else if a == '!' as int then (if b < 0 then NOT else if c < 0 then NE else NE_STRICT)
    else if a == '+' as int then (if b < 0 then ADD else if b == a then INC else ASSIGN_ADD)
    else if a == '-' as int then (if b < 0 then SUB else if b == a then DEC else ASSIGN_SUB)
    else if a == '&' as int then (if b < 0 then BIT_AND else if b == a then LOGICAL_AND else ASSIGN_BIT_AND)
    else if a == '|' as int then (if b < 0 then BIT_OR else if b == a then LOGICAL_OR else ASSIGN_BIT_OR)
    else if a == '*' as int then (if b < 0 then MUL else ASSIGN_MUL)
    else if a == '%' as int then (if b < 0 then MOD else ASSIGN_MOD)
    else if a == '^' as int then (if b < 0 then BIT_XOR else ASSIGN_BIT_XOR)
    else if a == '/' as int then (if b < 0 then DIV else ASSIGN_DIV)
    else if a == '<' as int then (if b < 0 then LT else if b == '=' as int then LTE else if c < 0 then SHL else ASSIGN_SHL)
    else if b < 0 then GT
    else if b == '=' as int then GTE
    else if c < 0 then SAR
    else if c == '=' as int then ASSIGN_SAR
    else if d < 0 then SHR
    else ASSIGN_SHR
  }

  /** A spelling tells the operator. */
  lemma OperatorTells(p: Token)
    requires Spelling(p) != "" && Operative(CharAt(Spelling(p), 0))
    ensures var w := Spelling(p); OperatorOf(CharAt(w, 0), CharAt(w, 1), CharAt(w, 2), CharAt(w, 3)) == p
  {
    if p in {LT, GT, LTE, GTE, SAR, SHR, SHL, ASSIGN_SAR, ASSIGN_SHR, ASSIGN_SHL} {
    } else {
      assert CharAt(Spelling(p), 0) != '<' as int && CharAt(Spelling(p), 0) != '>' as int;
    }
  }

  /** The other punctuators are told by their first character. */
  lemma OtherTells(p: Token)
    requires Spelling(p) != "" && !Operative(CharAt(Spelling(p), 0))
    ensures p == if CharAt(Spelling(p), 0) == Characters.PERIOD then PERIOD else SingleOf(CharAt(Spelling(p), 0))
  {
    assert p in {COLON, SEMICOLON, COMMA, PERIOD, CONDITIONAL, BIT_NOT, LPAREN, RPAREN, LBRACK, RBRACK, LBRACE, RBRACE};
  }

  function PunctuatorOf(a: int, b: int, c: int, d: int): Token
  {
    if Operative(a) then OperatorOf(a, b, c, d) else if a == Characters.PERIOD then PERIOD else SingleOf(a)
  }

  /** Different punctuators are spelled differently: the spelling gives the punctuator back. */
  lemma SpellingTells(p: Token)
    requires Spelling(p) != ""
    ensures var w := Spelling(p); PunctuatorOf(CharAt(w, 0), CharAt(w, 1), CharAt(w, 2), CharAt(w, 3)) == p
  {
    hide Spelling, Operative, OperatorOf, SingleOf;
    if Operative(CharAt(Spelling(p), 0)) {
      OperatorTells(p);
    } else {
      OtherTells(p);
    }
  }

  lemma SameCharacters(s: Text, i: nat, p: Token, q: Token)
    requires Longest(s, i, p) && Longest(s, i, q)
    ensures var v, w := Spelling(p), Spelling(q);
      && v != "" && w != "" && CharAt(v, 0) == CharAt(w, 0) && CharAt(v, 1) == CharAt(w, 1)
      && CharAt(v, 2) == CharAt(w, 2) && CharAt(v, 3) == CharAt(w, 3)
  {
    hide Spelling;
    assert forall j :: 0 <= j < |Spelling(p)| ==> CharAt(Spelling(p), j) == At(s, i + j) == CharAt(Spelling(q), j);
  }

  /** There is only one longest punctuator. */
  lemma LongestTells(s: Text, i: nat, p: Token, q: Token)
    requires Longest(s, i, p) && Longest(s, i, q)
    ensures p == q
  {
    hide *;
    SameCharacters(s, i, p, q);
    SpellingTells(p);
    SpellingTells(q);
  }

  /** At one place there is one token; where an illegal one ends is open. */
  lemma TokenUnique(t: Tables, s: Text, i: nat, x: Token, j: nat, y: Token, k: nat, after: bool)
    requires TokenAt(t, s, x, i, j, after) && TokenAt(t, s, y, i, k, after)
    ensures x == y && (x != ILLEGAL ==> j == k)
  {
    TokenStart(t, s, x, i, j, after);
    TokenStart(t, s, y, i, k, after);
    if x == y == ILLEGAL {
    } else if x == ILLEGAL {
      LegalOrNot(t, s, i, y, k, after);
    } else if y == ILLEGAL {
      LegalOrNot(t, s, i, x, j, after);
    } else {
      LegalUnique(t, s, i, x, j, y, k, after);
    }
  }

  lemma LegalOrNot(t: Tables, s: Text, i: nat, x: Token, j: nat, after: bool)
    requires TokenAt(t, s, x, i, j, after) && x != ILLEGAL
    ensures !IllegalAt(t, s, i)
  {
    if IllegalAt(t, s, i) {
      hide LongestNumber, Spelled, StringAt, NameAt, IllegalAt, Spelling;
      TokenStart(t, s, x, i, j, after);
      IllegalStart(t, s, i);
      OnlyPeriod(x);
      if x == NUMBER {
        var u :| LongestNumber(s, i, j, u);
        var m: nat, v :| LongestNumber(s, i, m, v) && SpoilsNumber(t, At(s, m));
        LongestEnds(s, i, j, u, m, v);
      }
      assert false;
    }
  }

  lemma NumbersEnd(t: Tables, s: Text, i: nat, j: nat, k: nat, after: bool)
    requires TokenAt(t, s, NUMBER, i, j, after) && TokenAt(t, s, NUMBER, i, k, after)
    ensures j == k
  {
    hide LongestNumber, Longest, StringAt, NameAt, Spelling;
    var u :| LongestNumber(s, i, j, u);
    var v :| LongestNumber(s, i, k, v);
    LongestEnds(s, i, j, u, k, v);
  }

  lemma LegalUnique(t: Tables, s: Text, i: nat, x: Token, j: nat, y: Token, k: nat, after: bool)
    requires TokenAt(t, s, x, i, j, after) && TokenAt(t, s, y, i, k, after) && x != ILLEGAL && y != ILLEGAL
    ensures x == y && j == k
  {
    hide LongestNumber, Longest, StringAt, NameAt, Spelling, IsIdentifierStart, IsWhiteSpace, IsLineTerminator, NumberStart, CommentAt;
    TokenStart(t, s, x, i, j, after);
    TokenStart(t, s, y, i, k, after);
    OnlyPeriod(x);
    OnlyPeriod(y);
    if x == y == NUMBER {
      NumbersEnd(t, s, i, j, k, after);
    } else if Spelling(x) != "" && Spelling(y) != "" {
      LongestTells(s, i, x, y);
    }
  }

  /** Where trivia can be read, no token can. */
  lemma TriviumIsNoToken(t: Tables, s: Text, i: nat, k: nat, token: Token, j: nat, after: bool)
    requires Trivium(t, s, i, k, after)
    ensures !TokenAt(t, s, token, i, j, after)
  {
    if TokenAt(t, s, token, i, j, after) {
      TokenStart(t, s, token, i, j, after);
      OnlyPeriod(token);
      if token == ILLEGAL {
        CommentIsLegal(t, s, i, k, after);
      }
      assert false;
    }
  }

  lemma CommentIsLegal(t: Tables, s: Text, i: nat, k: nat, after: bool)
    requires Trivium(t, s, i, k, after) && CommentAt(s, i, after)
    ensures !IllegalAt(t, s, i)
  {
    if IllegalAt(t, s, i) {
      hide IllegalAt;
      IllegalStart(t, s, i);
      var q := if s[i] == SLASH then DIV else if s[i] == MINUS then SUB else LT;
      assert SpelledOut(s, i, Spelling(q));
      SpelledOutIsSpelled(s, i, Spelling(q));
      assert false;
    }
  }

  lemma TriviumUnique(t: Tables, s: Text, i: nat, k: nat, m: nat, after: bool)
    requires Trivium(t, s, i, k, after) && Trivium(t, s, i, m, after)
    ensures k == m
  {
  }

  /** Nothing more can be read as trivia here. */
  ghost predicate Solid(t: Tables, s: Text, i: nat, after: bool)
  {
    forall k: nat :: !Trivium(t, s, i, k, after)
  }

  lemma TokenIsSolid(t: Tables, s: Text, token: Token, i: nat, j: nat, after: bool)
    requires TokenAt(t, s, token, i, j, after)
    ensures Solid(t, s, i, after)
  {
    forall k: nat ensures !Trivium(t, s, i, k, after) {
      if Trivium(t, s, i, k, after) {
        TriviumIsNoToken(t, s, i, k, token, j, after);
      }
    }
  }

  /** Trivia can be skipped in one way only. */
  lemma {:induction false} TriviaUnique(t: Tables, s: Text, i: nat, j: nat, k: nat, before: bool, x: bool, y: bool)
    requires i <= j && Trivia(t, s, i, j, before, x) && Solid(t, s, j, x)
    requires i <= k && Trivia(t, s, i, k, before, y) && Solid(t, s, k, y)
    ensures j == k && x == y
    decreases j - i
  {
    hide Trivium, Breaks;
    if i == j || i == k {
      assert i == j == k;
    } else {
      var m :| i < m <= j && Trivium(t, s, i, m, before) && Trivia(t, s, m, j, before || Breaks(s, i, m), x);
      var n :| i < n <= k && Trivium(t, s, i, n, before) && Trivia(t, s, n, k, before || Breaks(s, i, n), y);
      TriviumUnique(t, s, i, m, n, before);
      TriviaUnique(t, s, m, j, k, before || Breaks(s, i, m), x, y);
    }
  }

  /** The same tokens at the same places, as far as the first illegal one, whose end is open. */
  predicate Agree(xs: seq<Span>, ys: seq<Span>)
  {
    if xs == [] || ys == [] then xs == ys
    else
      && xs[0].token == ys[0].token && xs[0].begin == ys[0].begin
      && (xs[0].token != ILLEGAL ==> xs[0].end == ys[0].end && Agree(xs[1..], ys[1..]))
  }

  /** A source has one sequence of tokens. */
  lemma {:induction false} TokensUnique(t: Tables, s: Text, i: nat, xs: seq<Span>, ys: seq<Span>)
    requires Tiled(t, s, i, xs, |s|) && Tiled(t, s, i, ys, |s|)
    ensures Agree(xs, ys)
    ensures (forall x <- xs :: x.token != ILLEGAL) ==> xs == ys
    decreases |xs|
  {
    hide Trivia, TokenAt;
    if xs == [] && ys == [] {
    } else if xs == [] {
      NoTokenLeft(t, s, i, ys[0]);
    } else if ys == [] {
      NoTokenLeft(t, s, i, xs[0]);
    } else {
      NextUnique(t, s, i, xs[0], ys[0]);
      if xs[0].token != ILLEGAL {
        TokensUnique(t, s, xs[0].end, xs[1..], ys[1..]);
        assert xs == [xs[0]] + xs[1..] && ys == [ys[0]] + ys[1..];
      }
    }
  }

  lemma NextUnique(t: Tables, s: Text, i: nat, x: Span, y: Span)
    requires NextIs(t, s, i, x) && NextIs(t, s, i, y)
    ensures x.token == y.token && x.begin == y.begin && (x.token != ILLEGAL ==> x.end == y.end)
  {
    hide Trivia, TokenAt, Solid;
    var f :| Trivia(t, s, i, x.begin, false, f) && TokenAt(t, s, x.token, x.begin, x.end, f);
    var g :| Trivia(t, s, i, y.begin, false, g) && TokenAt(t, s, y.token, y.begin, y.end, g);
    TokenIsSolid(t, s, x.token, x.begin, x.end, f);
    TokenIsSolid(t, s, y.token, y.begin, y.end, g);
    TriviaUnique(t, s, i, x.begin, y.begin, false, f, g);
    TokenUnique(t, s, x.begin, x.token, x.end, y.token, y.end, f);
  }

  /** Where only trivia are left, there is no token. */
  lemma NoTokenLeft(t: Tables, s: Text, i: nat, x: Span)
    requires OnlyTrivia(t, s, i, |s|)
    ensures !NextIs(t, s, i, x)
  {
    if NextIs(t, s, i, x) {
      var f :| Trivia(t, s, i, |s|, false, f);
      var g :| Trivia(t, s, i, x.begin, false, g) && TokenAt(t, s, x.token, x.begin, x.end, g);
      hide Trivia;
      TokenIsSolid(t, s, x.token, x.begin, x.end, g);
      TriviaUnique(t, s, i, |s|, x.begin, false, f, g);
      assert false;
    }
  }

  // ----- line terminators that are not noted -----

  /** There is a line terminator in the comment that lies between i and k. */
  ghost predicate HoldsTerminator(s: Text, i: nat, k: nat)
  {
    exists m :: i + 2 <= m < k && IsLineTerminator(At(s, m))
  }

  /** A closed comment has a line terminator that is not noted, exactly when its only one is right behind the opening. */
  lemma UnnotedTerminator(t: Tables, s: Text, i: nat, k: nat, after: bool)
    requires Trivium(t, s, i, k, after) && SpelledOut(s, i, "/*")
    ensures HoldsTerminator(s, i, k) && !Breaks(s, i, k) <==>
      IsLineTerminator(At(s, i + 2)) && forall m :: i + 2 < m < k ==> !IsLineTerminator(At(s, m))
  {
    assert i + 2 < k;
  }

  /** A comment that holds one line terminator, right behind its opening, and then two minuses and a greater sign. */
  const UNNOTED: Text := [0x2F, 0x2A, 0x0A, 0x2A, 0x2F, 0x2D, 0x2D, 0x3E]

  /** The same with two line terminators. */
  const NOTED: Text := [0x2F, 0x2A, 0x0A, 0x0A, 0x2A, 0x2F, 0x2D, 0x2D, 0x3E]

  const DEC_AND_GT := [Span(DEC, 5, 7), Span(GT, 7, 8)]

  /** What follows the comment is read as two operators. */
  lemma UnnotedRun(t: Tables, spans: seq<Span>)
    requires Tiled(t, UNNOTED, 0, spans, |UNNOTED|)
    ensures spans == DEC_AND_GT
  {
    hide *;
    LegalTokens();
    UnnotedTiled(t);
    TokensUnique(t, UNNOTED, 0, DEC_AND_GT, spans);
  }

  lemma LegalTokens()
    ensures forall x <- DEC_AND_GT :: x.token != ILLEGAL
  {
  }

  lemma UnnotedTiled(t: Tables)
    ensures Tiled(t, UNNOTED, 0, DEC_AND_GT, |UNNOTED|)
  {
    UnnotedComment(t);
    UnnotedTokens(t);
    TwoTiled(t, UNNOTED, 0, DEC_AND_GT[0], DEC_AND_GT[1]);
    assert [DEC_AND_GT[0], DEC_AND_GT[1]] == DEC_AND_GT;
  }

  lemma TwoTiled(t: Tables, s: Text, i: nat, x: Span, y: Span)
    requires i <= x.begin && x.end == y.begin && Trivia(t, s, i, x.begin, false, false)
    requires TokenAt(t, s, x.token, x.begin, x.end, false) && TokenAt(t, s, y.token, y.begin, y.end, false)
    ensures Tiled(t, s, i, [x, y], y.end)
  {
    hide *;
    TilesNothing(t, s, i);
    TilesThen(t, s, i, [], i, x, false);
    TriviaNothing(t, s, y.begin, false);
    TilesThen(t, s, i, [] + [x], x.end, y, false);
    TriviaNothing(t, s, y.end, false);
    TiledAtEnd(t, s, i, [] + [x] + [y], y.end, y.end, false);
    assert [] + [x] + [y] == [x, y];
  }

  lemma UnnotedComment(t: Tables)
    ensures Trivia(t, UNNOTED, 0, 5, false, false)
  {
    assert SpelledOut(UNNOTED, 0, "/*") && CommentEnd(UNNOTED, 3);
    assert Trivium(t, UNNOTED, 0, 5, false) && !Breaks(UNNOTED, 0, 5);
    OneTrivium(t, UNNOTED, 0, 5, false);
  }

  lemma UnnotedTokens(t: Tables)
    ensures TokenAt(t, UNNOTED, DEC, 5, 7, false) && TokenAt(t, UNNOTED, GT, 7, 8, false)
  {
    assert SpelledOut(UNNOTED, 5, Spelling(DEC)) && SpelledOut(UNNOTED, 7, Spelling(GT));
    SpelledOutIsSpelled(UNNOTED, 5, Spelling(DEC));
    SpelledOutIsSpelled(UNNOTED, 7, Spelling(GT));
    LongestWhen(UNNOTED, 5, DEC);
    LongestWhen(UNNOTED, 7, GT);
    hide Longest, Spelled;
  }

  /** With a second line terminator what follows is a comment, so there is no token. */
  lemma NotedRun(t: Tables, spans: seq<Span>)
    requires Tiled(t, NOTED, 0, spans, |NOTED|)
    ensures spans == []
  {
    NotedComments(t);
    hide Trivia;
    TilesNothing(t, NOTED, 0);
    TiledAtEnd(t, NOTED, 0, [], 0, 9, true);
    TokensUnique(t, NOTED, 0, [], spans);
  }

  lemma NotedComments(t: Tables)
    ensures Trivia(t, NOTED, 0, 9, false, true)
  {
    assert SpelledOut(NOTED, 0, "/*") && CommentEnd(NOTED, 4);
    assert IsLineTerminator(At(NOTED, 3));
    assert Trivium(t, NOTED, 0, 6, false) && Breaks(NOTED, 0, 6);
    OneTrivium(t, NOTED, 0, 6, false);
    assert SpelledOut(NOTED, 6, "-->") && LineEnd(NOTED, 9) == 9;
    assert Trivium(t, NOTED, 6, 9, true);
    hide Trivium, Trivia;
    TriviaThen(t, NOTED, 0, 6, 9, false, true);
  }
}
