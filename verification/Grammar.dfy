/**
 * The productions of sections 11.4 to 11.11 of ECMA-262 as a derivation relation on tokens, and the
 * proof that the parser reads exactly what they derive.
 */
module Grammar {
  import opened Basics
  import opened Precedence

  datatype Nonterminal =
    | UnaryExpression
    | MultiplicativeExpression | AdditiveExpression | ShiftExpression
    | RelationalExpression | EqualityExpression
    | BitwiseAndExpression | BitwiseXorExpression | BitwiseOrExpression
    | LogicalAndExpression | LogicalOrExpression

  /** The operators of the productions of a nonterminal. */
  function Operators(n: Nonterminal): set<BinOp>
  {
    match n
    case UnaryExpression => {}
    case MultiplicativeExpression => {MUL, DIV, MOD}
    case AdditiveExpression => {ADD, SUB}
    case ShiftExpression => {SHL, SAR, SHR}
    case RelationalExpression => {LT, GT, LTE, GTE, INSTANCEOF, IN}
    case EqualityExpression => {EQ, NE, EQ_STRICT, NE_STRICT}
    case BitwiseAndExpression => {BIT_AND}
    case BitwiseXorExpression => {BIT_XOR}
    case BitwiseOrExpression => {BIT_OR}
    case LogicalAndExpression => {LOGICAL_AND}
    case LogicalOrExpression => {LOGICAL_OR}
  }

  /** What stands to the right of an operator of the nonterminal, and by itself in its first production. */
  function Operand(n: Nonterminal): (m: Nonterminal)
    ensures Rank(n) > 0 ==> Rank(m) == Rank(n) - 1
  {
    match n
    case UnaryExpression => UnaryExpression
    case MultiplicativeExpression => UnaryExpression
    case AdditiveExpression => MultiplicativeExpression
    case ShiftExpression => AdditiveExpression
    case RelationalExpression => ShiftExpression
    case EqualityExpression => RelationalExpression
    case BitwiseAndExpression => EqualityExpression
    case BitwiseXorExpression => BitwiseAndExpression
    case BitwiseOrExpression => BitwiseXorExpression
    case LogicalAndExpression => BitwiseOrExpression
    case LogicalOrExpression => LogicalAndExpression
  }

  function Rank(n: Nonterminal): nat
  {
    match n
    case UnaryExpression => 0
    case MultiplicativeExpression => 1
    case AdditiveExpression => 2
    case ShiftExpression => 3
    case RelationalExpression => 4
    case EqualityExpression => 5
    case BitwiseAndExpression => 6
    case BitwiseXorExpression => 7
    case BitwiseOrExpression => 8
    case LogicalAndExpression => 9
    case LogicalOrExpression => 10
  }

  function UnaryToken(op: UnOp): Token
  {
    match op
    case DELETE => Prefix(DELETE)
    case VOID => Prefix(VOID)
    case TYPEOF => Prefix(TYPEOF)
    case NOT => Prefix(NOT)
    case BIT_NOT => Prefix(BIT_NOT)
    case PLUS => Op(ADD)
    case MINUS => Op(SUB)
  }

  /** The tokens w derive the tree e; without `cin` the productions are those with NoIn. */
  ghost predicate Derives(n: Nonterminal, cin: bool, w: seq<Token>, e: Expr)
    decreases |w|, Rank(n)
  {
    if n == UnaryExpression then
      || (e.Unary? && w != [] && w[0] == UnaryToken(e.unop) && Derives(UnaryExpression, cin, w[1..], e.operand))
      || (e.Number? && w == [NUMBER(e.value)]) || (e.String? && w == [STRING(e.text)]) || (e.Name? && w == [NAME(e.name)])
      || (|w| > 2 && w[0] == LPAREN && w[|w| - 1] == RPAREN && Derives(LogicalOrExpression, true, w[1..|w| - 1], e))
    else
      || Derives(Operand(n), cin, w, e)
      || (e.Binary? && e.op in Operators(n) && (e.op == IN ==> cin)
          && exists i :: 0 <= i < |w| && w[i] == Op(e.op) && Derives(n, cin, w[..i], e.left) && Derives(Operand(n), cin, w[i + 1..], e.right))
  }

  /** The rest begins with an operator of the nonterminal, or of a tighter one. */
  ghost predicate GoesOn(n: Nonterminal, cin: bool, rest: seq<Token>)
    decreases Rank(n)
  {
    n != UnaryExpression && rest != [] && rest[0].Op?
    && ((rest[0].op in Operators(n) && (rest[0].op == IN ==> cin)) || GoesOn(Operand(n), cin, rest))
  }

  /** The nonterminal that the parser is asked for by a level. */
  function Asked(prec: int): (n: Nonterminal)
    requires -1 <= prec <= 9
    ensures Rank(n) == prec + 1
  {
    match prec
    case -1 => UnaryExpression
    case 0 => MultiplicativeExpression
    case 1 => AdditiveExpression
    case 2 => ShiftExpression
    case 3 => RelationalExpression
    case 4 => EqualityExpression
    case 5 => BitwiseAndExpression
    case 6 => BitwiseXorExpression
    case 7 => BitwiseOrExpression
    case 8 => LogicalAndExpression
    case 9 => LogicalOrExpression
  }

  lemma OperandIs(k: nat)
    requires k <= 9
    ensures Operand(Asked(k)) == Asked(k - 1)
  {
  }

  /** The levels of the parser are the productions of the standard. */
  lemma LevelIs(op: BinOp, k: nat)
    requires k <= 9
    ensures op in Operators(Asked(k)) <==> Level(op) == k
  {
    OfLevel(op);
    if op in Operators(Asked(k)) {
      OneLevel(op, k);
    }
    hide *;
  }

  lemma OfLevel(op: BinOp)
    ensures op in Operators(Asked(Level(op)))
  {
  }

  lemma OneLevel(op: BinOp, k: nat)
    requires k <= 9 && op in Operators(Asked(k))
    ensures Level(op) == k
  {
  }

  lemma {:induction false} StopsIs(prec: int, cin: bool, rest: seq<Token>)
    requires -1 <= prec <= 9
    ensures StopsBelow(rest, prec + 1, cin) <==> !GoesOn(Asked(prec), cin, rest)
    decreases prec + 1
  {
    if prec >= 0 {
      StopsIs(prec - 1, cin, rest);
      OperandIs(prec);
      if rest != [] && rest[0].Op? {
        LevelIs(rest[0].op, prec);
        assert IsLevel(rest, prec, cin) <==> rest[0].op in Operators(Asked(prec)) && (rest[0].op == IN ==> cin);
      }
      assert GoesOn(Asked(prec), cin, rest) <==> IsLevel(rest, prec, cin) || GoesOn(Asked(prec - 1), cin, rest);
      assert StopsBelow(rest, prec + 1, cin) <==> StopsBelow(rest, prec, cin) && !IsLevel(rest, prec, cin);
    }
  }

  // ----- what is derived is read -----

  lemma {:induction false} ReadsUnary(c: Folder, cin: bool, w: seq<Token>, e: Expr, rest: seq<Token>)
    requires Derives(UnaryExpression, cin, w, e)
    ensures ParseUnary(c, w + rest) == Some((Fold(c, e), rest))
    decreases |w|, 0
  {
    var toks := w + rest;
    assert toks[1..] == w[1..] + rest;
    if e.Unary? && w[0] == UnaryToken(e.unop) && Derives(UnaryExpression, cin, w[1..], e.operand) {
      ReadsUnary(c, cin, w[1..], e.operand, rest);
      assert UnaryOf(w[0]) == Some(e.unop);
    } else if w[0] == LPAREN {
      var inside := w[1..|w| - 1];
      assert toks[1..] == inside + ([RPAREN] + rest);
      assert ([RPAREN] + rest)[1..] == rest;
      ReadsDerived(c, 9, true, inside, e, 9, [RPAREN] + rest);
      SkipLevels(c, Fold(c, e), [RPAREN] + rest, 9, 10, 9, true);
    } else {
      assert w[1..] == [];
    }
  }

  /** Having read what a nonterminal derives, the parser is in the loop of its operators. */
  lemma {:induction false} ReadsDerived(c: Folder, k: int, cin: bool, w: seq<Token>, e: Expr, prec: int, rest: seq<Token>)
    requires -1 <= k <= prec <= 9 && Derives(Asked(k), cin, w, e) && StopsBelow(rest, k, cin)
    ensures Parse(c, w + rest, prec, cin) == Loops(c, Fold(c, e), rest, if k < 0 then 0 else k, prec, cin)
    decreases |w|, k + 2
  {
    if k == -1 {
      ReadsUnary(c, cin, w, e, rest);
      ParseStarts(c, w + rest, prec, cin);
    } else {
      OperandIs(k);
      if Derives(Asked(k - 1), cin, w, e) {
        ReadsDerived(c, k - 1, cin, w, e, prec, rest);
        if k > 0 {
          SkipLevels(c, Fold(c, e), rest, k - 1, k, prec, cin);
        }
      } else {
        var i :| 0 <= i < |w| && w[i] == Op(e.op) && Derives(Asked(k), cin, w[..i], e.left)
                 && Derives(Asked(k - 1), cin, w[i + 1..], e.right);
        LevelIs(e.op, k);
        ReadsTwo(c, k, cin, w, i, e, prec, rest);
      }
    }
  }

  lemma {:induction false} ReadsTwo(c: Folder, k: nat, cin: bool, w: seq<Token>, i: nat, e: Expr, prec: int, rest: seq<Token>)
    requires k <= prec <= 9 && StopsBelow(rest, k, cin) && i < |w|
    requires e.Binary? && Level(e.op) == k && (e.op == IN ==> cin) && w[i] == Op(e.op)
    requires Derives(Asked(k), cin, w[..i], e.left) && Derives(Asked(k - 1), cin, w[i + 1..], e.right)
    ensures Parse(c, w + rest, prec, cin) == Loops(c, Fold(c, e), rest, k, prec, cin)
    decreases |w|, 0
  {
    var tail := [Op(e.op)] + (w[i + 1..] + rest);
    assert w + rest == w[..i] + tail && tail[1..] == w[i + 1..] + rest;
    hide Derives, Parse, ParseUnary, Loops;
    ReadsDerived(c, k, cin, w[..i], e.left, prec, tail);
    ReadsDerived(c, k - 1, cin, w[i + 1..], e.right, k - 1, rest);
    SkipLevels(c, Fold(c, e.right), rest, if k == 0 then 0 else k - 1, k, k - 1, cin);
    LoopStep(c, Fold(c, e.left), tail, k, prec, cin);
    ParseBelow(c, tail[1..], cin);
  }

  // ----- what is read is derived -----

  lemma {:induction false} UnaryDerives(c: Folder, toks: seq<Token>, cin: bool) returns (w: seq<Token>, e: Expr)
    requires ParseUnary(c, toks).Some?
    ensures var r := ParseUnary(c, toks).value;
      toks == w + r.1 && Derives(UnaryExpression, cin, w, e) && Fold(c, e) == r.0
    decreases |toks|, 0
  {
    if UnaryOf(toks[0]).Some? {
      var x;
      w, x := UnaryDerives(c, toks[1..], cin);
      assert ([toks[0]] + w)[1..] == w;
      w, e := [toks[0]] + w, Unary(UnaryOf(toks[0]).value, x);
      assert w[0] == UnaryToken(e.unop);
    } else if toks[0] == LPAREN {
      w, e := ParseDerives(c, toks[1..], 9, true);
      var rest := Parse(c, toks[1..], 9, true).value.1;
      var whole := [LPAREN] + w + [RPAREN];
      assert whole[1..|whole| - 1] == w;
      NotEmpty(LogicalOrExpression, true, w, e);
      assert toks == whole + rest[1..];
      w := whole;
    } else {
      w, e := toks[..1], ParseUnary(c, toks).value.0;
    }
  }

  lemma {:induction false} NotEmpty(n: Nonterminal, cin: bool, w: seq<Token>, e: Expr)
    requires Derives(n, cin, w, e)
    ensures w != []
    decreases Rank(n)
  {
    if n != UnaryExpression && Derives(Operand(n), cin, w, e) {
      NotEmpty(Operand(n), cin, w, e);
    }
  }

  lemma {:induction false} ParseDerives(c: Folder, toks: seq<Token>, prec: int, cin: bool) returns (w: seq<Token>, e: Expr)
    requires -1 <= prec <= 9 && Parse(c, toks, prec, cin).Some?
    ensures var r := Parse(c, toks, prec, cin).value;
      toks == w + r.1 && Derives(Asked(prec), cin, w, e) && Fold(c, e) == r.0
    decreases |toks|, 20
  {
    w, e := UnaryDerives(c, toks, cin);
    var first := ParseUnary(c, toks).value;
    if prec >= 0 {
      assert Derives(Asked(0), cin, w, e);
      w, e := LoopsDerive(c, first.0, first.1, 0, prec, cin, w, e);
    }
  }

  lemma {:induction false} LoopsDerive(c: Folder, left: Expr, toks: seq<Token>, k: nat, prec: nat, cin: bool, w: seq<Token>, e: Expr)
      returns (w': seq<Token>, e': Expr)
    requires prec <= 9 && k <= prec + 1 && Loops(c, left, toks, k, prec, cin).Some?
    requires Derives(Asked(Min(k, prec)), cin, w, e) && Fold(c, e) == left
    ensures var r := Loops(c, left, toks, k, prec, cin).value;
      w + toks == w' + r.1 && Derives(Asked(prec), cin, w', e') && Fold(c, e') == r.0
    decreases |toks|, 10 - k
  {
    hide Derives, Parse, ParseUnary, Operators, Level;
    if k > prec {
      w', e' := w, e;
    } else if IsLevel(toks, k, cin) {
      w', e' := LoopTaken(c, left, toks, k, prec, cin, w, e);
      w', e' := LoopsDerive(c, Fold(c, e'), Parse(c, toks[1..], k - 1, cin).value.1, k, prec, cin, w', e');
    } else {
      if k < prec {
        DerivesLooser(k, cin, w, e);
      }
      w', e' := LoopsDerive(c, left, toks, k + 1, prec, cin, w, e);
    }
  }

  /** One operator and its right operand are taken onto what has been derived. */
  lemma {:induction false} LoopTaken(c: Folder, left: Expr, toks: seq<Token>, k: nat, prec: nat, cin: bool, w: seq<Token>, e: Expr)
      returns (w': seq<Token>, e': Expr)
    requires k <= prec <= 9 && IsLevel(toks, k, cin) && Loops(c, left, toks, k, prec, cin).Some?
    requires Derives(Asked(k), cin, w, e) && Fold(c, e) == left
    ensures var right := Parse(c, toks[1..], k - 1, cin);
      && right.Some? && w + toks == w' + right.value.1
      && Derives(Asked(k), cin, w', e') && Fold(c, e') == ReduceBinary(c, toks[0].op, left, right.value.0)
    decreases |toks|, 10 - k, 0
  {
    hide Derives, Operators, Level, Parse, ParseUnary, ReduceBinary;
    var op := toks[0].op;
    var v, x := ParseDerives(c, toks[1..], k - 1, cin);
    LevelIs(op, k);
    OperandIs(k);
    DerivesTwo(Asked(k), cin, w, op, v, e, x);
    w', e' := w + [Op(op)] + v, Binary(op, e, x);
  }

  lemma DerivesLooser(k: nat, cin: bool, w: seq<Token>, e: Expr)
    requires k < 9 && Derives(Asked(k), cin, w, e)
    ensures Derives(Asked(k + 1), cin, w, e)
  {
    OperandIs(k + 1);
  }

  lemma DerivesTwo(n: Nonterminal, cin: bool, w: seq<Token>, op: BinOp, v: seq<Token>, l: Expr, r: Expr)
    requires n != UnaryExpression && op in Operators(n) && (op == IN ==> cin)
    requires Derives(n, cin, w, l) && Derives(Operand(n), cin, v, r)
    ensures Derives(n, cin, w + [Op(op)] + v, Binary(op, l, r))
  {
    var all := w + [Op(op)] + v;
    assert all[|w|] == Op(op) && all[..|w|] == w && all[|w| + 1..] == v;
  }

  /** The parser stops only where no operator it was asked for goes on. */
  lemma {:induction false} LoopsStop(c: Folder, left: Expr, toks: seq<Token>, k: nat, prec: int, cin: bool)
    requires -1 <= prec <= 9 && k <= prec + 1 && Loops(c, left, toks, k, prec, cin).Some? && StopsBelow(toks, k, cin)
    ensures StopsBelow(Loops(c, left, toks, k, prec, cin).value.1, prec + 1, cin)
    decreases |toks|, 10 - k
  {
    if k <= prec {
      if IsLevel(toks, k, cin) {
        ParseStops(c, toks[1..], k - 1, cin);
        var right := Parse(c, toks[1..], k - 1, cin).value;
        LoopsStop(c, ReduceBinary(c, toks[0].op, left, right.0), right.1, k, prec, cin);
      } else {
        LoopsStop(c, left, toks, k + 1, prec, cin);
      }
    }
  }

  lemma {:induction false} ParseStops(c: Folder, toks: seq<Token>, prec: int, cin: bool)
    requires -1 <= prec <= 9 && Parse(c, toks, prec, cin).Some?
    ensures StopsBelow(Parse(c, toks, prec, cin).value.1, prec + 1, cin)
    decreases |toks|, 20
  {
    var first := ParseUnary(c, toks).value;
    LoopsStop(c, first.0, first.1, 0, prec, cin);
  }

  // ----- the two together -----

  /** The tokens in front of the rest derive a tree that folds to t. */
  ghost predicate DerivesFolded(c: Folder, n: Nonterminal, cin: bool, toks: seq<Token>, t: Expr, rest: seq<Token>)
  {
    exists w, e :: toks == w + rest && Derives(n, cin, w, e) && Fold(c, e) == t
  }

  /**
   * The parser gives a tree and a rest if and only if the tokens in front of the rest derive it, before
   * folding, and no operator it was asked for goes on.
   */
  lemma ParseIsGrammar(c: Folder, toks: seq<Token>, prec: int, cin: bool, t: Expr, rest: seq<Token>)
    requires -1 <= prec <= 9
    ensures Parse(c, toks, prec, cin) == Some((t, rest)) <==>
      DerivesFolded(c, Asked(prec), cin, toks, t, rest) && !GoesOn(Asked(prec), cin, rest)
  {
    StopsIs(prec, cin, rest);
    if Parse(c, toks, prec, cin) == Some((t, rest)) {
      var w, e := ParseDerives(c, toks, prec, cin);
      ParseStops(c, toks, prec, cin);
    }
    if DerivesFolded(c, Asked(prec), cin, toks, t, rest) && !GoesOn(Asked(prec), cin, rest) {
      var w, e :| toks == w + rest && Derives(Asked(prec), cin, w, e) && Fold(c, e) == t;
      ReadsDerived(c, prec, cin, w, e, prec, rest);
      SkipLevels(c, t, rest, if prec < 0 then 0 else prec, prec + 1, prec, cin);
    }
  }
}
