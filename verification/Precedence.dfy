/**
 * Binary and unary expressions: the operator-precedence parser with its ten nested loops, the
 * constant folding it does on the way, a printer that writes only the parentheses that are
 * needed, and the laws connecting them.
 */
module Precedence {
  import opened Basics
  import Numbers

  datatype BinOp =
    | MUL | DIV | MOD
    | ADD | SUB
    | SHL | SAR | SHR
    | LT | GT | LTE | GTE | INSTANCEOF | IN
    | EQ | NE | EQ_STRICT | NE_STRICT
    | BIT_AND | BIT_XOR | BIT_OR
    | LOGICAL_AND | LOGICAL_OR

  datatype UnOp = DELETE | VOID | TYPEOF | NOT | BIT_NOT | PLUS | MINUS

  type Double = Numbers.Number

  /** Tokens that matter here; an operand that needs no operators inside is one NAME. */
  datatype Token =
    | NUMBER(value: Double) | STRING(text: string) | NAME(name: string)
    | LPAREN | RPAREN
    | Op(op: BinOp)            // ADD and SUB are also the unary + and -
    | Prefix(unary: UnOp)      // the other unary operators
    | OTHER(code: nat)
    | EOS

  datatype Expr =
    | Number(value: Double) | String(text: string) | Name(name: string)
    | Unary(unop: UnOp, operand: Expr)
    | Binary(op: BinOp, left: Expr, right: Expr)

  /** The levels of the ten loops, from the tightest. */
  function Level(op: BinOp): (k: nat)
    ensures k < 10
  {
    match op
    case MUL | DIV | MOD => 0
    case ADD | SUB => 1
    case SHL | SAR | SHR => 2
    case LT | GT | LTE | GTE | INSTANCEOF | IN => 3
    case EQ | NE | EQ_STRICT | NE_STRICT => 4
    case BIT_AND => 5
    case BIT_XOR => 6
    case BIT_OR => 7
    case LOGICAL_AND => 8
    case LOGICAL_OR => 9
  }

  // ----- folding -----

  /**
   * Whether literals are reduced, the sum, difference, product and quotient of doubles (which round),
   * and what a cast to an integer gives out of range.
   */
  datatype Folder = Folder(reduce: bool, arithmetic: (BinOp, Double, Double) -> Double, stray: Double -> Numbers.Int32)

  predicate Foldable(op: BinOp)
  {
    op in {ADD, SUB, MUL, DIV} || OnWords(op).Some?
  }

  /** The operators on 32-bit integers. */
  function OnWords(op: BinOp): Option<Numbers.WordOp>
  {
    match op
    case BIT_OR => Some(Numbers.WORD_OR)
    case BIT_AND => Some(Numbers.WORD_AND)
    case BIT_XOR => Some(Numbers.WORD_XOR)
    case SHL => Some(Numbers.SHIFT_LEFT)
    case SHR => Some(Numbers.SHIFT_RIGHT_ZERO)
    case SAR => Some(Numbers.SHIFT_RIGHT)
    case _ => None
  }

  function FoldNumbers(c: Folder, op: BinOp, a: Double, b: Double): Double
  {
    match OnWords(op)
    case Some(w) => Numbers.Carried(w, a, b, c.stray)
    case None => c.arithmetic(op, a, b)
  }

  function ReduceBinary(c: Folder, op: BinOp, left: Expr, right: Expr): Expr
  {
    if c.reduce && left.Number? && right.Number? && Foldable(op) then Number(FoldNumbers(c, op, left.value, right.value))
    else if c.reduce && op == ADD && left.String? && right.String? then String(left.text + right.text)
    else Binary(op, left, right)
  }

  /** A plus before a number literal goes even when reduction is off. */
  function ReduceUnary(c: Folder, op: UnOp, e: Expr): Expr
  {
    if op == PLUS && e.Number? then e
    else if c.reduce && op == MINUS && e.Number? then Number(Numbers.Negated(e.value))
    else if c.reduce && op == BIT_NOT && e.Number? then Number(Numbers.Carried(Numbers.WORD_NOT, e.value, e.value, c.stray))
    else Unary(op, e)
  }

  /** The tree with every literal operation carried out, innermost first. */
  function Fold(c: Folder, e: Expr): Expr
  {
    match e
    case Unary(op, x) => ReduceUnary(c, op, Fold(c, x))
    case Binary(op, l, r) => ReduceBinary(c, op, Fold(c, l), Fold(c, r))
    case _ => e
  }

  // ----- the grammar as a function -----

  type Parsed = Option<(Expr, seq<Token>)>

  function UnaryOf(t: Token): Option<UnOp>
  {
    match t
    case Prefix(op) => if op == PLUS || op == MINUS then None else Some(op)
    case Op(ADD) => Some(PLUS)
    case Op(SUB) => Some(MINUS)
    case _ => None
  }

  predicate IsLevel(toks: seq<Token>, k: int, cin: bool)
  {
    toks != [] && toks[0].Op? && Level(toks[0].op) == k && (toks[0].op == IN ==> cin)
  }

  ghost function Parse(c: Folder, toks: seq<Token>, prec: int, cin: bool): (r: Parsed)
    requires -1 <= prec <= 9
    ensures r.Some? ==> |r.value.1| < |toks|
    decreases |toks|, 20
  {
    match ParseUnary(c, toks)
    case None => None
    case Some((left, rest)) => Loops(c, left, rest, 0, prec, cin)
  }

  ghost function ParseUnary(c: Folder, toks: seq<Token>): (r: Parsed)
    ensures r.Some? ==> |r.value.1| < |toks|
    decreases |toks|, 0
  {
    if toks == [] then None
    else if UnaryOf(toks[0]).Some? then
      match ParseUnary(c, toks[1..])
      case None => None
      case Some((e, rest)) => Some((ReduceUnary(c, UnaryOf(toks[0]).value, e), rest))
    else
      match toks[0]
      case NUMBER(v) => Some((Number(v), toks[1..]))
      case STRING(s) => Some((String(s), toks[1..]))
      case NAME(x) => Some((Name(x), toks[1..]))
      case LPAREN =>
        (match Parse(c, toks[1..], 9, true)
         case None => None
         case Some((e, rest)) => if rest != [] && rest[0] == RPAREN then Some((e, rest[1..])) else None)
      case _ => None
  }

  /** Operators of levels k to prec, with their right operands, taken onto `left`. */
  ghost function Loops(c: Folder, left: Expr, toks: seq<Token>, k: nat, prec: int, cin: bool): (r: Parsed)
    requires -1 <= prec <= 9 && k <= 10
    ensures r.Some? ==> |r.value.1| <= |toks|
    decreases |toks|, 10 - k
  {
    if k > prec then Some((left, toks))
    else if IsLevel(toks, k, cin) then
      match Parse(c, toks[1..], k - 1, cin)
      case None => None
      case Some((right, rest)) => Loops(c, ReduceBinary(c, toks[0].op, left, right), rest, k, prec, cin)
    else Loops(c, left, toks, k + 1, prec, cin)
  }

  // ----- the parser -----

  class Parser {
    const folder: Folder
    const tokens: seq<Token>
    var pos: nat

    constructor (folder: Folder, tokens: seq<Token>)
      ensures this.folder == folder && this.tokens == tokens && pos == 0
    {
      this.folder := folder;
      this.tokens := tokens;
      pos := 0;
    }

    ghost function Rest(): seq<Token>
      reads this
      requires pos <= |tokens|
    {
      tokens[pos..]
    }

    function Current(): Token
      reads this
    {
      if pos < |tokens| then tokens[pos] else EOS
    }

    method Next()
      requires pos < |tokens|
      modifies this
      ensures pos == old(pos) + 1
      ensures Rest() == old(Rest())[1..]
    {
      pos := pos + 1;
    }

    /** The result and the place where the grammar stops; no promise on the place after an error. */
    ghost predicate Gives(r: Option<Expr>, spec: Parsed)
      reads this
    {
      && pos <= |tokens|
      && (if spec.None? then r.None? else r == Some(spec.value.0) && Rest() == spec.value.1)
    }

    method ParseUnaryExpression() returns (r: Option<Expr>)
      requires pos <= |tokens|
      modifies this
      ensures Gives(r, ParseUnary(folder, old(Rest())))
      ensures old(pos) <= pos <= |tokens|
      decreases |tokens| - pos, 1
    {
      var token := Current();
      match token {
        case Prefix(op) =>
          if op == PLUS || op == MINUS {
            return None;
          }
          r := ParsePrefix(op);
        case Op(op) =>
          if op == ADD {
            r := ParsePrefix(PLUS);
          } else if op == SUB {
            r := ParsePrefix(MINUS);
          } else {
            r := None;
          }
        case NUMBER(v) =>
          Next();
          r := Some(Number(v));
        case STRING(s) =>
          Next();
          r := Some(String(s));
        case NAME(x) =>
          Next();
          r := Some(Name(x));
        case LPAREN =>
          Next();
          r := ParseBinaryExpression(true, 9);
          if r.Some? {
            if Current() != RPAREN {
              return None;
            }
            Next();
          }
        case _ => r := None;
      }
    }

    method ParsePrefix(op: UnOp) returns (r: Option<Expr>)
      requires pos < |tokens| && UnaryOf(tokens[pos]) == Some(op)
      modifies this
      ensures Gives(r, ParseUnary(folder, old(Rest())))
      ensures old(pos) <= pos <= |tokens|
      decreases |tokens| - pos, 0
    {
      Next();
      r := ParseUnaryExpression();
      if r.Some? {
        r := Some(ReduceUnary(folder, op, r.value));
      }
    }

    /** The test of the loop for level k. */
    predicate AtLevel(k: nat, containsIn: bool)
      reads this
    {
      var token := Current();
      match k
      case 0 => token in {Op(MUL), Op(DIV), Op(MOD)}
      case 1 => token in {Op(ADD), Op(SUB)}
      case 2 => token in {Op(SHL), Op(SAR), Op(SHR)}
      case 3 => token in {Op(LT), Op(GT), Op(LTE), Op(GTE), Op(INSTANCEOF)} || (containsIn && token == Op(IN))
      case 4 => token in {Op(EQ_STRICT), Op(NE_STRICT), Op(EQ), Op(NE)}
      case 5 => token == Op(BIT_AND)
      case 6 => token == Op(BIT_XOR)
      case 7 => token == Op(BIT_OR)
      case 8 => token == Op(LOGICAL_AND)
      case 9 => token == Op(LOGICAL_OR)
      case _ => false
    }

    /** One of the ten loops: operators of level k, each with an operand of the level below. */
    method TakeLevel(first: Expr, k: nat, prec: nat, containsIn: bool) returns (r: Option<Expr>)
      requires pos <= |tokens| && k <= prec <= 9
      modifies this
      ensures old(pos) <= pos <= |tokens|
      ensures r.None? ==> Loops(folder, first, old(Rest()), k, prec, containsIn).None?
      ensures r.Some? ==>
        Loops(folder, first, old(Rest()), k, prec, containsIn) ==
          if k < prec then Loops(folder, r.value, Rest(), k + 1, prec, containsIn) else Some((r.value, Rest()))
      decreases |tokens| - pos, 2
    {
      hide Parse, Loops, ParseUnary, ReduceBinary;
      ghost var goal := Loops(folder, first, Rest(), k, prec, containsIn);
      var left := first;
      while AtLevel(k, containsIn)
        invariant old(pos) <= pos <= |tokens| && goal == Loops(folder, left, Rest(), k, prec, containsIn)
        decreases |tokens| - pos
      {
        LoopStep(folder, left, Rest(), k, prec, containsIn);
        NotReduced(folder, Current().op, left);
        var op := Current().op;
        Next();
        var right := ParseOperand(containsIn, k);
        if right.None? {
          return None;
        }
        // the relational, equality and logical loops build the node without reducing
        left := if k in {3, 4, 8, 9} then Binary(op, left, right.value) else ReduceBinary(folder, op, left, right.value);
      }
      LoopDone(folder, left, Rest(), k, prec, containsIn);
      r := Some(left);
    }

    /** The right operand of an operator of level k. */
    method ParseOperand(containsIn: bool, k: nat) returns (r: Option<Expr>)
      requires pos <= |tokens| && k <= 9
      modifies this
      ensures Gives(r, if k == 0 then ParseUnary(folder, old(Rest())) else Parse(folder, old(Rest()), k - 1, containsIn))
      ensures old(pos) <= pos <= |tokens|
      decreases |tokens| - pos, 7
    {
      if k == 0 {
        r := ParseUnaryExpression();
      } else {
        r := ParseBinaryExpression(containsIn, k - 1);
      }
    }

    method ParseBinaryExpression(containsIn: bool, prec: nat) returns (r: Option<Expr>)
      requires pos <= |tokens| && prec <= 9
      modifies this
      ensures Gives(r, Parse(folder, old(Rest()), prec, containsIn))
      ensures old(pos) <= pos <= |tokens|
      decreases |tokens| - pos, 6
    {
      ParseStarts(folder, Rest(), prec, containsIn);
      hide Parse, Loops, ParseUnary, ReduceBinary;
      r := ParseUnaryExpression();
      if r.None? {
        return;
      }
      r := TakeArithmetic(r.value, prec, containsIn);
    }

    /** The loops from the multiplicative operators on. */
    method TakeArithmetic(first: Expr, prec: nat, containsIn: bool) returns (r: Option<Expr>)
      requires pos <= |tokens| && prec <= 9
      modifies this
      ensures Gives(r, Loops(folder, first, old(Rest()), 0, prec, containsIn))
      ensures old(pos) <= pos <= |tokens|
      decreases |tokens| - pos, 5
    {
      hide Loops;
      // MultiplicativeExpression
      r := TakeLevel(first, 0, prec, containsIn);
      if r.None? || prec < 1 {
        return;
      }
      // AdditiveExpression
      r := TakeLevel(r.value, 1, prec, containsIn);
      if r.None? || prec < 2 {
        return;
      }
      // ShiftExpression
      r := TakeLevel(r.value, 2, prec, containsIn);
      if r.None? || prec < 3 {
        return;
      }
      r := TakeComparisons(r.value, prec, containsIn);
    }

    /** The loops from the relational operators on. */
    method TakeComparisons(first: Expr, prec: nat, containsIn: bool) returns (r: Option<Expr>)
      requires pos <= |tokens| && 3 <= prec <= 9
      modifies this
      ensures Gives(r, Loops(folder, first, old(Rest()), 3, prec, containsIn))
      ensures old(pos) <= pos <= |tokens|
      decreases |tokens| - pos, 4
    {
      hide Loops;
      // RelationalExpression
      r := TakeLevel(first, 3, prec, containsIn);
      if r.None? || prec < 4 {
        return;
      }
      // EqualityExpression
      r := TakeLevel(r.value, 4, prec, containsIn);
      if r.None? || prec < 5 {
        return;
      }
      r := TakeLooser(r.value, prec, containsIn);
    }

    /** The loops from the bitwise operators on. */
    method TakeLooser(first: Expr, prec: nat, containsIn: bool) returns (r: Option<Expr>)
      requires pos <= |tokens| && 5 <= prec <= 9
      modifies this
      ensures Gives(r, Loops(folder, first, old(Rest()), 5, prec, containsIn))
      ensures old(pos) <= pos <= |tokens|
      decreases |tokens| - pos, 3
    {
      hide Loops;
      // BitwiseAndExpression
      r := TakeLevel(first, 5, prec, containsIn);
      if r.None? || prec < 6 {
        return;
      }
      // BitwiseXorExpression
      r := TakeLevel(r.value, 6, prec, containsIn);
      if r.None? || prec < 7 {
        return;
      }
      // BitwiseOrExpression
      r := TakeLevel(r.value, 7, prec, containsIn);
      if r.None? || prec < 8 {
        return;
      }
      // LogicalAndExpression
      r := TakeLevel(r.value, 8, prec, containsIn);
      if r.None? || prec < 9 {
        return;
      }
      // LogicalOrExpression
      r := TakeLevel(r.value, 9, prec, containsIn);
    }
  }

  /** The relational, equality and logical operators are never reduced. */
  lemma NotReduced(c: Folder, op: BinOp, left: Expr)
    ensures Level(op) in {3, 4, 8, 9} ==> forall right :: ReduceBinary(c, op, left, right) == Binary(op, left, right)
  {
  }

  lemma LoopStep(c: Folder, left: Expr, toks: seq<Token>, k: nat, prec: int, cin: bool)
    requires k <= prec <= 9 && IsLevel(toks, k, cin)
    ensures var right := if k == 0 then ParseUnary(c, toks[1..]) else Parse(c, toks[1..], k - 1, cin);
      Loops(c, left, toks, k, prec, cin) ==
        if right.None? then None
        else Loops(c, ReduceBinary(c, toks[0].op, left, right.value.0), right.value.1, k, prec, cin)
  {
    if k == 0 {
      ParseBelow(c, toks[1..], cin);
    }
  }

  lemma ParseStarts(c: Folder, toks: seq<Token>, prec: int, cin: bool)
    requires -1 <= prec <= 9
    ensures var first := ParseUnary(c, toks);
      Parse(c, toks, prec, cin) == if first.None? then None else Loops(c, first.value.0, first.value.1, 0, prec, cin)
  {
  }

  /** Below the lowest level there are only unary expressions. */
  lemma ParseBelow(c: Folder, toks: seq<Token>, cin: bool)
    ensures Parse(c, toks, -1, cin) == ParseUnary(c, toks)
  {
  }

  lemma LoopDone(c: Folder, left: Expr, toks: seq<Token>, k: nat, prec: int, cin: bool)
    requires k <= prec <= 9 && !IsLevel(toks, k, cin)
    ensures Loops(c, left, toks, k, prec, cin) == Loops(c, left, toks, k + 1, prec, cin)
    ensures k == prec ==> Loops(c, left, toks, k, prec, cin) == Some((left, toks))
  {
  }

  // ----- the printer -----

  /** The loosest operator outside parentheses; -1 for what a unary expression may be. */
  function Looseness(e: Expr): (k: int)
    ensures -1 <= k <= 9
  {
    if e.Binary? then Level(e.op) else -1
  }

  /** Parentheses are needed by an operator looser than the place allows, and by an `in` where it is not allowed. */
  predicate NeedsParens(e: Expr, prec: int, cin: bool)
  {
    Looseness(e) > prec || (e.Binary? && e.op == IN && !cin)
  }

  function PrefixToken(op: UnOp): Token
  {
    match op
    case PLUS => Op(ADD)
    case MINUS => Op(SUB)
    case _ => Prefix(op)
  }

  function Print(e: Expr, prec: int, cin: bool): seq<Token>
    requires -1 <= prec <= 9
    decreases e, 1
  {
    if NeedsParens(e, prec, cin) then [LPAREN] + PrintBare(e, true) + [RPAREN] else PrintBare(e, cin)
  }

  /** Binary operators associate to the left, so only the right operand must be tighter. */
  function PrintBare(e: Expr, cin: bool): seq<Token>
    decreases e, 0
  {
    match e
    case Number(v) => [NUMBER(v)]
    case String(t) => [STRING(t)]
    case Name(x) => [NAME(x)]
    case Unary(op, x) => [PrefixToken(op)] + Print(x, -1, cin)
    case Binary(op, l, r) => Print(l, Level(op), cin) + [Op(op)] + Print(r, Level(op) - 1, cin)
  }

  // ----- parsing what was printed -----

  /** What follows does not go on with an operator tighter than level k. */
  ghost predicate StopsBelow(toks: seq<Token>, k: int, cin: bool)
  {
    forall j :: 0 <= j < k ==> !IsLevel(toks, j, cin)
  }

  lemma {:induction false} SkipLevels(c: Folder, left: Expr, toks: seq<Token>, j: nat, k: nat, prec: int, cin: bool)
    requires j <= k <= prec + 1 <= 10
    requires forall i :: j <= i < k ==> !IsLevel(toks, i, cin)
    ensures Loops(c, left, toks, j, prec, cin) == Loops(c, left, toks, k, prec, cin)
    ensures k == prec + 1 ==> Loops(c, left, toks, j, prec, cin) == Some((left, toks))
    decreases k - j
  {
    if j < k {
      SkipLevels(c, left, toks, j + 1, k, prec, cin);
    }
  }

  /** The loop the parser is in after an expression without parentheses around it. */
  ghost function Loop(e: Expr): nat
  {
    if Looseness(e) < 0 then 0 else Looseness(e)
  }

  ghost function Start(e: Expr, prec: int, cin: bool): nat
  {
    if NeedsParens(e, prec, cin) then 0 else Loop(e)
  }

  /** Having read a printed expression, the parser is in the loop of its loosest operator. */
  lemma {:induction false} ReadsPrinted(c: Folder, e: Expr, at: int, prec: int, cin: bool, rest: seq<Token>)
    requires -1 <= at <= prec <= 9 && StopsBelow(rest, Start(e, at, cin), cin)
    ensures Parse(c, Print(e, at, cin) + rest, prec, cin) == Loops(c, Fold(c, e), rest, Start(e, at, cin), prec, cin)
    decreases e, 1
  {
    if NeedsParens(e, at, cin) {
      var toks := Print(e, at, cin) + rest;
      var inside := PrintBare(e, true) + ([RPAREN] + rest);
      assert toks[1..] == inside;
      ReadsBare(c, e, 9, true, [RPAREN] + rest);
      SkipLevels(c, Fold(c, e), [RPAREN] + rest, Loop(e), 10, 9, true);
      assert ([RPAREN] + rest)[1..] == rest;
      assert ParseUnary(c, toks) == Some((Fold(c, e), rest));
    } else {
      ReadsBare(c, e, prec, cin, rest);
    }
  }

  lemma {:induction false} ReadsBare(c: Folder, e: Expr, prec: int, cin: bool, rest: seq<Token>)
    requires Looseness(e) <= prec <= 9 && -1 <= prec && !(e.Binary? && e.op == IN && !cin)
    requires StopsBelow(rest, Looseness(e), cin)
    ensures Parse(c, PrintBare(e, cin) + rest, prec, cin) ==
      Loops(c, Fold(c, e), rest, Loop(e), prec, cin)
    decreases e, 0
  {
    var toks := PrintBare(e, cin) + rest;
    match e {
      case Number(_) => assert toks[1..] == rest;
      case String(_) => assert toks[1..] == rest;
      case Name(_) => assert toks[1..] == rest;
      case Unary(op, x) =>
        var inside := Print(x, -1, cin) + rest;
        assert toks[1..] == inside;
        ReadsPrinted(c, x, -1, -1, cin, rest);
        ParseBelow(c, inside, cin);
      case Binary(op, l, r) => ReadsBinary(c, op, l, r, prec, cin, rest);
    }
  }

  /** Reading the right operand and stopping after it. */
  lemma {:induction false} ReadsRight(c: Folder, r: Expr, k: nat, cin: bool, rest: seq<Token>)
    requires k <= 9 && StopsBelow(rest, k, cin)
    ensures Parse(c, Print(r, k - 1, cin) + rest, k - 1, cin) == Some((Fold(c, r), rest))
    decreases r, 2
  {
    ReadsPrinted(c, r, k - 1, k - 1, cin, rest);
    SkipLevels(c, Fold(c, r), rest, Start(r, k - 1, cin), k, k - 1, cin);
  }

  lemma {:induction false} ReadsBinary(c: Folder, op: BinOp, l: Expr, r: Expr, prec: int, cin: bool, rest: seq<Token>)
    requires Level(op) <= prec <= 9 && (op == IN ==> cin) && StopsBelow(rest, Level(op), cin)
    ensures Parse(c, PrintBare(Binary(op, l, r), cin) + rest, prec, cin) ==
      Loops(c, Fold(c, Binary(op, l, r)), rest, Level(op), prec, cin)
    decreases Binary(op, l, r), 0, 0
  {
    var k: int := Level(op);
    var more := Print(r, k - 1, cin) + rest;
    var tail := [Op(op)] + more;
    assert PrintBare(Binary(op, l, r), cin) + rest == Print(l, k, cin) + tail;
    assert tail[1..] == more;
    ReadsRight(c, r, k, cin, rest);
    assert IsLevel(tail, k, cin);
    assert Fold(c, Binary(op, l, r)) == ReduceBinary(c, op, Fold(c, l), Fold(c, r));
    if k == 0 {
      ParseBelow(c, more, cin);
    }
    LoopStep(c, Fold(c, l), tail, k, prec, cin);
    hide Parse, ParseUnary, Print, PrintBare, Loops, Fold, ReduceBinary;
    ReadsPrinted(c, l, k, prec, cin, tail);
    SkipLevels(c, Fold(c, l), tail, Start(l, k, cin), k, prec, cin);
  }

  /** Printing and parsing give back the folded tree and read exactly the printed tokens. */
  lemma RoundTrip(c: Folder, e: Expr, prec: int, cin: bool, rest: seq<Token>)
    requires -1 <= prec <= 9 && StopsBelow(rest, prec + 1, cin)
    ensures Parse(c, Print(e, prec, cin) + rest, prec, cin) == Some((Fold(c, e), rest))
  {
    ReadsPrinted(c, e, prec, prec, cin, rest);
    SkipLevels(c, Fold(c, e), rest, Start(e, prec, cin), prec + 1, prec, cin);
  }

  // ----- what parses to the same tree in fewer tokens -----

  /** Pairs of parentheses that are written only because of an `in`. */
  function PairsForIn(e: Expr, prec: int): nat
  {
    if !e.Binary? || Looseness(e) > prec then 0
    else if e.op == IN then 1
    else PairsForIn(e.left, Level(e.op)) + PairsForIn(e.right, Level(e.op) - 1)
  }

  lemma {:induction false} PairsAreWritten(e: Expr, prec: int)
    requires -1 <= prec <= 9
    ensures |Print(e, prec, false)| == |Print(e, prec, true)| + 2 * PairsForIn(e, prec)
  {
    if e.Binary? {
      PairsAreWritten(e.left, Level(e.op));
      PairsAreWritten(e.right, Level(e.op) - 1);
    } else if e.Unary? {
      PairsAreWritten(e.operand, -1);
    }
  }

  /** The number of tokens that are needed: one pair around the whole makes up for all that an `in` asks for. */
  function Needed(e: Expr, prec: int, cin: bool): nat
    requires -1 <= prec <= 9
  {
    |Print(e, prec, true)| + if !cin && PairsForIn(e, prec) > 0 then 2 else 0
  }

  lemma LooserPlaceNeedsLess(e: Expr, a: int, b: int, cin: bool)
    requires -1 <= a <= b <= 9
    ensures Needed(e, b, cin) <= Needed(e, a, cin) <= Needed(e, 9, true) + 2
  {
  }

  ghost function Min(a: int, b: int): int { if a < b then a else b }

  /** Whatever tokens a tree is read from, they are no fewer than needed. */
  lemma {:induction false} NothingShorter(c: Folder, toks: seq<Token>, prec: int, cin: bool)
    requires -1 <= prec <= 9
    ensures var r := Parse(c, toks, prec, cin);
      r.Some? ==> Needed(r.value.0, prec, cin) <= |toks| - |r.value.1|
    decreases |toks|, 20
  {
    UnaryNothingShorter(c, toks, cin);
    var first := ParseUnary(c, toks);
    if first.Some? {
      LooserPlaceNeedsLess(first.value.0, -1, Min(0, prec), cin);
      LoopsNothingShorter(c, first.value.0, first.value.1, 0, prec, cin, |toks| - |first.value.1|);
    }
  }

  lemma {:induction false} UnaryNothingShorter(c: Folder, toks: seq<Token>, cin: bool)
    ensures var r := ParseUnary(c, toks);
      r.Some? ==> Needed(r.value.0, -1, cin) <= |toks| - |r.value.1|
    decreases |toks|, 0
  {
    if toks != [] {
      if UnaryOf(toks[0]).Some? {
        UnaryNothingShorter(c, toks[1..], cin);
        var x := ParseUnary(c, toks[1..]);
        if x.Some? {
          NeededBehind(c, UnaryOf(toks[0]).value, x.value.0, cin);
        }
      } else if toks[0] == LPAREN {
        NothingShorter(c, toks[1..], 9, true);
        var r := ParseUnary(c, toks);
        if r.Some? {
          LooserPlaceNeedsLess(r.value.0, -1, 9, cin);
        }
      } else if ParseUnary(c, toks).Some? {
        LiteralNeeds(ParseUnary(c, toks).value.0, -1, cin);
      }
    }
  }

  lemma {:induction false} LoopsNothingShorter(c: Folder, left: Expr, toks: seq<Token>, k: nat, prec: int, cin: bool, n: nat)
    requires -1 <= prec <= 9 && k <= prec + 1 && Needed(left, Min(k, prec), cin) <= n
    ensures var r := Loops(c, left, toks, k, prec, cin);
      r.Some? ==> Needed(r.value.0, prec, cin) <= n + |toks| - |r.value.1|
    decreases |toks|, 10 - k
  {
    if k <= prec {
      if IsLevel(toks, k, cin) {
        NothingShorter(c, toks[1..], k - 1, cin);
        var right := Parse(c, toks[1..], k - 1, cin);
        if right.Some? {
          var e := ReduceBinary(c, toks[0].op, left, right.value.0);
          NeededTogether(c, toks[0].op, left, right.value.0, cin);
          LoopsNothingShorter(c, e, right.value.1, k, prec, cin, n + 1 + |toks[1..]| - |right.value.1|);
        }
      } else {
        LooserPlaceNeedsLess(left, k, Min(k + 1, prec), cin);
        LoopsNothingShorter(c, left, toks, k + 1, prec, cin, n);
      }
    }
  }

  lemma NeededBehind(c: Folder, op: UnOp, x: Expr, cin: bool)
    ensures Needed(ReduceUnary(c, op, x), -1, cin) <= 1 + Needed(x, -1, cin)
  {
    assert |Print(Unary(op, x), -1, true)| == 1 + |Print(x, -1, true)|;
    if ReduceUnary(c, op, x).Number? {
      LiteralNeeds(ReduceUnary(c, op, x), -1, cin);
    }
  }

  lemma NeededTogether(c: Folder, op: BinOp, l: Expr, r: Expr, cin: bool)
    requires op == IN ==> cin
    ensures var k: int := Level(op);
      Needed(ReduceBinary(c, op, l, r), k, cin) <= Needed(l, k, cin) + 1 + Needed(r, k - 1, cin)
  {
    var k: int := Level(op);
    PrintedTogether(op, l, r);
    SomeToken(l, k);
    hide Print, PrintBare, FoldNumbers;
    if ReduceBinary(c, op, l, r) != Binary(op, l, r) {
      LiteralNeeds(ReduceBinary(c, op, l, r), k, cin);
    }
  }

  lemma PrintedTogether(op: BinOp, l: Expr, r: Expr)
    ensures var k: int := Level(op); |Print(Binary(op, l, r), k, true)| == |Print(l, k, true)| + 1 + |Print(r, k - 1, true)|
  {
    var k: int := Level(op);
    assert Print(Binary(op, l, r), k, true) == PrintBare(Binary(op, l, r), true);
    assert PrintBare(Binary(op, l, r), true) == Print(l, k, true) + [Op(op)] + Print(r, k - 1, true);
    hide Print, PrintBare;
  }

  lemma LiteralNeeds(e: Expr, prec: int, cin: bool)
    requires -1 <= prec <= 9 && (e.Number? || e.String? || e.Name?)
    ensures Needed(e, prec, cin) == 1
  {
    assert |Print(e, prec, true)| == 1;
  }

  lemma {:induction false} SomeToken(e: Expr, prec: int)
    requires -1 <= prec <= 9
    ensures |Print(e, prec, true)| > 0
  {
  }

  /** Every tree that is read has been folded. */
  lemma {:induction false} ReadIsFolded(c: Folder, toks: seq<Token>, prec: int, cin: bool)
    requires -1 <= prec <= 9
    ensures var r := Parse(c, toks, prec, cin); r.Some? ==> Fold(c, r.value.0) == r.value.0
    decreases |toks|, 20
  {
    UnaryReadIsFolded(c, toks);
    var first := ParseUnary(c, toks);
    if first.Some? {
      LoopsReadIsFolded(c, first.value.0, first.value.1, 0, prec, cin);
    }
  }

  lemma {:induction false} UnaryReadIsFolded(c: Folder, toks: seq<Token>)
    ensures var r := ParseUnary(c, toks); r.Some? ==> Fold(c, r.value.0) == r.value.0
    decreases |toks|, 0
  {
    if toks != [] {
      if UnaryOf(toks[0]).Some? {
        UnaryReadIsFolded(c, toks[1..]);
      } else if toks[0] == LPAREN {
        ReadIsFolded(c, toks[1..], 9, true);
      }
    }
  }

  lemma {:induction false} LoopsReadIsFolded(c: Folder, left: Expr, toks: seq<Token>, k: nat, prec: int, cin: bool)
    requires -1 <= prec <= 9 && k <= 10 && Fold(c, left) == left
    ensures var r := Loops(c, left, toks, k, prec, cin); r.Some? ==> Fold(c, r.value.0) == r.value.0
    decreases |toks|, 10 - k
  {
    if k <= prec {
      if IsLevel(toks, k, cin) {
        ReadIsFolded(c, toks[1..], k - 1, cin);
        var right := Parse(c, toks[1..], k - 1, cin);
        if right.Some? {
          LoopsReadIsFolded(c, ReduceBinary(c, toks[0].op, left, right.value.0), right.value.1, k, prec, cin);
        }
      } else {
        LoopsReadIsFolded(c, left, toks, k + 1, prec, cin);
      }
    }
  }

  /** The tree is read from the tokens, with `rest` left over. */
  ghost predicate ReadFrom(c: Folder, toks: seq<Token>, prec: int, cin: bool, e: Expr, rest: seq<Token>)
    requires -1 <= prec <= 9
  {
    Parse(c, toks, prec, cin) == Some((e, rest))
  }

  /** No tokens from which the tree is read are fewer than the printed ones. */
  ghost predicate IsShortest(c: Folder, e: Expr, prec: int, cin: bool)
    requires -1 <= prec <= 9
  {
    forall toks, rest :: ReadFrom(c, toks, prec, cin, e, rest) ==> |Print(e, prec, cin)| <= |toks| - |rest|
  }

  /** The whole in parentheses, none of which is written for an `in` inside. */
  function Wrapped(e: Expr): seq<Token>
  {
    [LPAREN] + PrintBare(e, true) + [RPAREN]
  }

  lemma WrappedIsRead(c: Folder, e: Expr, prec: int, cin: bool)
    requires -1 <= prec <= 9
    ensures Parse(c, Wrapped(e), prec, cin) == Some((Fold(c, e), []))
  {
    var toks := Wrapped(e);
    assert toks[1..] == PrintBare(e, true) + [RPAREN];
    ReadsBare(c, e, 9, true, [RPAREN]);
    SkipLevels(c, Fold(c, e), [RPAREN], Loop(e), 10, 9, true);
    assert [RPAREN][1..] == [];
    assert ParseUnary(c, toks) == Some((Fold(c, e), []));
    SkipLevels(c, Fold(c, e), [], 0, prec + 1, prec, cin);
  }

  /**
   * The printed form is the shortest from which a readable tree is read, exactly when at most one pair of
   * parentheses is written only because of an `in`; otherwise a single pair around the whole is shorter.
   */
  lemma PrintIsShortest(c: Folder, e: Expr, prec: int, cin: bool)
    requires -1 <= prec <= 9
    ensures IsShortest(c, e, prec, cin) <==> cin || PairsForIn(e, prec) <= 1 || Fold(c, e) != e
  {
    PairsAreWritten(e, prec);
    assert PairsForIn(e, prec) > 0 ==> |Wrapped(e)| == |Print(e, prec, true)| + 2;
    hide Print, PrintBare, Wrapped, PairsForIn, Fold;
    forall toks, rest | ReadFrom(c, toks, prec, cin, e, rest)
      ensures Needed(e, prec, cin) <= |toks| - |rest| && Fold(c, e) == e
    {
      NothingShorter(c, toks, prec, cin);
      ReadIsFolded(c, toks, prec, cin);
    }
    if !cin && PairsForIn(e, prec) > 1 && Fold(c, e) == e {
      WrappedIsRead(c, e, prec, cin);
      assert ReadFrom(c, Wrapped(e), prec, cin, e, []);
    }
  }

  lemma NamesInNames(x: string, y: string, prec: int)
    requires 3 <= prec <= 9
    ensures |Print(Binary(IN, Name(x), Name(y)), prec, true)| == 3
  {
    assert Print(Name(x), 3, true) == [NAME(x)] && Print(Name(y), 2, true) == [NAME(y)];
  }

  /** (a in b) && (c in d), where no bare `in` is allowed: eleven tokens are printed, and nine would do. */
  lemma TwoPairsForIn(c: Folder)
    ensures var e := Binary(LOGICAL_AND, Binary(IN, Name("a"), Name("b")), Binary(IN, Name("c"), Name("d")));
      && |Print(e, 9, false)| == 11 && |Wrapped(e)| == 9
      && ReadFrom(c, Print(e, 9, false), 9, false, e, []) && ReadFrom(c, Wrapped(e), 9, false, e, [])
  {
    var l, r := Binary(IN, Name("a"), Name("b")), Binary(IN, Name("c"), Name("d"));
    var e := Binary(LOGICAL_AND, l, r);
    NamesInNames("a", "b", 8);
    NamesInNames("c", "d", 7);
    NamesFold(c, "a", "b");
    NamesFold(c, "c", "d");
    assert Fold(c, e) == e;
    TwoInside(l, r);
    hide Print, PrintBare, Fold, PairsForIn, Wrapped;
    WrappedIsRead(c, e, 9, false);
    RoundTrip(c, e, 9, false, []);
    assert Print(e, 9, false) + [] == Print(e, 9, false);
  }

  lemma NamesFold(c: Folder, x: string, y: string)
    ensures Fold(c, Binary(IN, Name(x), Name(y))) == Binary(IN, Name(x), Name(y))
  {
  }

  lemma TwoInside(l: Expr, r: Expr)
    requires l.Binary? && l.op == IN && r.Binary? && r.op == IN
    ensures var e := Binary(LOGICAL_AND, l, r); var n := |Print(l, 8, true)| + |Print(r, 7, true)|;
      |Print(e, 9, false)| == n + 5 && |Wrapped(e)| == n + 3
  {
    var e := Binary(LOGICAL_AND, l, r);
    PrintedTogether(LOGICAL_AND, l, r);
    PairsAreWritten(e, 9);
    assert Print(e, 9, true) == Print(e, 8, true) == PrintBare(e, true);
    assert PairsForIn(l, 8) == 1 && PairsForIn(r, 7) == 1;
    hide Print, PrintBare;
  }

  // ----- the `in` restriction -----

  /** Reads the tokens at a depth of parentheses; fails on `in` outside them and on an unmatched right parenthesis. */
  ghost function Scan(toks: seq<Token>, depth: nat): Option<nat>
  {
    if toks == [] then Some(depth)
    else if toks[0] == LPAREN then Scan(toks[1..], depth + 1)
    else if toks[0] == RPAREN then if depth == 0 then None else Scan(toks[1..], depth - 1)
    else if toks[0] == Op(IN) && depth == 0 then None
    else Scan(toks[1..], depth)
  }

  lemma {:induction false} ScanConcat(a: seq<Token>, b: seq<Token>, depth: nat)
    ensures Scan(a + b, depth) == if Scan(a, depth).None? then None else Scan(b, Scan(a, depth).value)
  {
    if a == [] {
      assert a + b == b;
    } else {
      assert (a + b)[1..] == a[1..] + b;
      if a[0] == LPAREN {
        ScanConcat(a[1..], b, depth + 1);
      } else if a[0] == RPAREN {
        if depth > 0 {
          ScanConcat(a[1..], b, depth - 1);
        }
      } else {
        ScanConcat(a[1..], b, depth);
      }
    }
  }

  /** What was read is a prefix of the tokens that keeps the depth and has no bare `in`. */
  ghost predicate ReadsWell(toks: seq<Token>, rest: seq<Token>, depth: nat)
  {
    exists n :: 0 <= n <= |toks| && toks[n..] == rest && Scan(toks[..n], depth) == Some(depth)
  }

  lemma ReadsWellThen(a: seq<Token>, b: seq<Token>, rest: seq<Token>, depth: nat)
    requires ReadsWell(a, b, depth) && ReadsWell(b, rest, depth)
    ensures ReadsWell(a, rest, depth)
  {
    var n :| 0 <= n <= |a| && a[n..] == b && Scan(a[..n], depth) == Some(depth);
    var m :| 0 <= m <= |b| && b[m..] == rest && Scan(b[..m], depth) == Some(depth);
    ScanConcat(a[..n], b[..m], depth);
    Slices(a, n, m);
  }

  lemma Slices<T>(a: seq<T>, n: nat, m: nat)
    requires n <= |a| && m <= |a| - n
    ensures a[..n + m] == a[..n] + a[n..][..m] && a[n + m..] == a[n..][m..]
  {
  }

  lemma ReadsOne(toks: seq<Token>, depth: nat)
    requires toks != [] && toks[0] != LPAREN && toks[0] != RPAREN && (toks[0] == Op(IN) ==> depth > 0)
    ensures ReadsWell(toks, toks[1..], depth)
  {
    var one := toks[..1];
    assert one[1..] == [] && one[0] == toks[0];
    assert Scan(one, depth) == Some(depth);
    assert toks[1..] == toks[|one|..];
  }

  /** Between parentheses, and everywhere when `in` is not allowed, only `in` inside parentheses is read. */
  lemma {:induction false} NoBareIn(c: Folder, toks: seq<Token>, prec: int, cin: bool, depth: nat)
    requires -1 <= prec <= 9 && (cin ==> depth > 0)
    ensures var r := Parse(c, toks, prec, cin);
      r.Some? ==> ReadsWell(toks, r.value.1, depth)
    decreases |toks|, 20
  {
    UnaryNoBareIn(c, toks, depth);
    var first := ParseUnary(c, toks);
    if first.Some? {
      LoopsNoBareIn(c, first.value.0, first.value.1, 0, prec, cin, depth);
      if Parse(c, toks, prec, cin).Some? {
        ReadsWellThen(toks, first.value.1, Parse(c, toks, prec, cin).value.1, depth);
      }
    }
  }

  lemma {:induction false} UnaryNoBareIn(c: Folder, toks: seq<Token>, depth: nat)
    ensures var r := ParseUnary(c, toks);
      r.Some? ==> ReadsWell(toks, r.value.1, depth)
    decreases |toks|, 0
  {
    var r := ParseUnary(c, toks);
    if r.Some? {
      if UnaryOf(toks[0]).Some? {
        ReadsOne(toks, depth);
        UnaryNoBareIn(c, toks[1..], depth);
        ReadsWellThen(toks, toks[1..], r.value.1, depth);
      } else if toks[0] == LPAREN {
        NoBareIn(c, toks[1..], 9, true, depth + 1);
        InParens(toks, Parse(c, toks[1..], 9, true).value.1, depth);
      } else {
        ReadsOne(toks, depth);
      }
    }
  }

  lemma InParens(toks: seq<Token>, rest: seq<Token>, depth: nat)
    requires toks != [] && toks[0] == LPAREN && rest != [] && rest[0] == RPAREN
    requires ReadsWell(toks[1..], rest, depth + 1)
    ensures ReadsWell(toks, rest[1..], depth)
  {
    var n :| 0 <= n <= |toks[1..]| && toks[1..][n..] == rest && Scan(toks[1..][..n], depth + 1) == Some(depth + 1);
    var all := toks[..n + 2];
    assert toks[n + 1] == rest[0];
    assert all[1..] == toks[1..][..n] + [RPAREN];
    ScanConcat(toks[1..][..n], [RPAREN], depth + 1);
    assert [RPAREN][1..] == [];
    assert Scan([RPAREN], depth + 1) == Some(depth);
    assert Scan(all, depth) == Some(depth);
    assert toks[n + 2..] == rest[1..];
  }

  lemma {:induction false} LoopsNoBareIn(c: Folder, left: Expr, toks: seq<Token>, k: nat, prec: int, cin: bool, depth: nat)
    requires -1 <= prec <= 9 && k <= 10 && (cin ==> depth > 0)
    ensures var r := Loops(c, left, toks, k, prec, cin);
      r.Some? ==> ReadsWell(toks, r.value.1, depth)
    decreases |toks|, 10 - k
  {
    var r := Loops(c, left, toks, k, prec, cin);
    if k > prec {
      assert toks[..0] == [];
    } else if IsLevel(toks, k, cin) {
      ReadsOne(toks, depth);
      NoBareIn(c, toks[1..], k - 1, cin, depth);
      var right := Parse(c, toks[1..], k - 1, cin);
      if r.Some? {
        ReadsWellThen(toks, toks[1..], right.value.1, depth);
        LoopsNoBareIn(c, ReduceBinary(c, toks[0].op, left, right.value.0), right.value.1, k, prec, cin, depth);
        ReadsWellThen(toks, right.value.1, r.value.1, depth);
      }
    } else {
      LoopsNoBareIn(c, left, toks, k + 1, prec, cin, depth);
    }
  }

  // ----- folding keeps the meaning -----

  datatype Value = NumberValue(number: Double) | StringValue(text: string) | OtherValue(id: int)

  /** What evaluation has looked at so far, in order; names and operators may depend on it. */
  type Trace = seq<string>

  datatype Machine = Machine(
    name: (string, Trace) -> (Value, Trace),
    unary: (UnOp, Value, Trace) -> (Value, Trace),
    binary: (BinOp, Value, Value, Trace) -> (Value, Trace),
    truth: Value -> bool)

  /** On literals the operators of the machine are those of sections 11.4.6 to 11.4.8, 11.6.1, 11.7 and 11.10 of ECMA-262. */
  ghost predicate FollowsStandard(m: Machine)
  {
    && (forall op, a, b, t :: OnWords(op).Some? ==>
          m.binary(op, NumberValue(a), NumberValue(b), t) == (NumberValue(Numbers.Standard(OnWords(op).value, a, b)), t))
    && (forall a, b, t :: m.binary(ADD, StringValue(a), StringValue(b), t) == (StringValue(a + b), t))
    && (forall a, t :: m.unary(PLUS, NumberValue(a), t) == (NumberValue(a), t))
    && (forall a, t :: m.unary(MINUS, NumberValue(a), t) == (NumberValue(Numbers.Negated(a)), t))
    && (forall a, t :: m.unary(BIT_NOT, NumberValue(a), t) == (NumberValue(Numbers.Standard(Numbers.WORD_NOT, a, a)), t))
  }

  /** The machine adds, subtracts, multiplies and divides doubles as the folder does. */
  ghost predicate Agrees(m: Machine, c: Folder)
  {
    forall op, a, b, t :: op in {ADD, SUB, MUL, DIV} ==>
      m.binary(op, NumberValue(a), NumberValue(b), t) == (NumberValue(c.arithmetic(op, a, b)), t)
  }

  /** Left operand first; the logical operators may leave out their right operand. */
  function Evaluate(m: Machine, e: Expr, t: Trace): (Value, Trace)
  {
    match e
    case Number(v) => (NumberValue(v), t)
    case String(s) => (StringValue(s), t)
    case Name(x) => m.name(x, t)
    case Unary(op, x) =>
      var (v, t1) := Evaluate(m, x, t);
      m.unary(op, v, t1)
    case Binary(op, l, r) =>
      var (v, t1) := Evaluate(m, l, t);
      if (op == LOGICAL_AND && !m.truth(v)) || (op == LOGICAL_OR && m.truth(v)) then (v, t1)
      else
        var (w, t2) := Evaluate(m, r, t1);
        if op == LOGICAL_AND || op == LOGICAL_OR then (w, t2) else m.binary(op, v, w, t2)
  }

  /** The folded tree has the same value and the same effects. */
  lemma {:induction false} FoldKeepsMeaning(c: Folder, m: Machine, e: Expr, t: Trace)
    requires FollowsStandard(m) && Agrees(m, c)
    ensures Evaluate(m, Fold(c, e), t) == Evaluate(m, e, t)
  {
    hide FollowsStandard, Agrees, ReduceUnary, ReduceBinary;
    match e {
      case Unary(op, x) =>
        FoldKeepsMeaning(c, m, x, t);
        ReducedUnaryMeans(c, m, op, Fold(c, x), t);
      case Binary(op, l, r) =>
        FoldKeepsMeaning(c, m, l, t);
        FoldKeepsMeaning(c, m, r, Evaluate(m, l, t).1);
        ReducedBinaryMeans(c, m, op, Fold(c, l), Fold(c, r), t);
      case _ =>
    }
  }

  lemma ReducedUnaryMeans(c: Folder, m: Machine, op: UnOp, x: Expr, t: Trace)
    requires FollowsStandard(m)
    ensures Evaluate(m, ReduceUnary(c, op, x), t) == Evaluate(m, Unary(op, x), t)
  {
    if x.Number? {
      Numbers.CarriedIsStandard(Numbers.WORD_NOT, x.value, x.value, c.stray);
    }
  }

  lemma ReducedBinaryMeans(c: Folder, m: Machine, op: BinOp, l: Expr, r: Expr, t: Trace)
    requires FollowsStandard(m) && Agrees(m, c)
    ensures Evaluate(m, ReduceBinary(c, op, l, r), t) == Evaluate(m, Binary(op, l, r), t)
  {
    hide Evaluate, FollowsStandard, Agrees, FoldNumbers, Foldable, OnWords;
    if c.reduce && l.Number? && r.Number? && Foldable(op) {
      FoldedNumbersMean(c, m, op, l.value, r.value, t);
    } else if c.reduce && op == ADD && l.String? && r.String? {
      JoinedStringsMean(m, l.text, r.text, t);
    }
  }

  lemma JoinedStringsMean(m: Machine, a: string, b: string, t: Trace)
    requires FollowsStandard(m)
    ensures Evaluate(m, String(a + b), t) == Evaluate(m, Binary(ADD, String(a), String(b)), t)
  {
  }

  lemma FoldedNumbersMean(c: Folder, m: Machine, op: BinOp, a: Double, b: Double, t: Trace)
    requires FollowsStandard(m) && Agrees(m, c) && Foldable(op)
    ensures Evaluate(m, Number(FoldNumbers(c, op, a, b)), t) == Evaluate(m, Binary(op, Number(a), Number(b)), t)
  {
    hide FollowsStandard, Agrees, Numbers.Carried, Numbers.Standard;
    if OnWords(op).Some? {
      MeansOnWords(m, op, a, b, t);
      Numbers.CarriedIsStandard(OnWords(op).value, a, b, c.stray);
    } else {
      MeansArithmetic(c, m, op, a, b, t);
    }
  }

  lemma MeansOnWords(m: Machine, op: BinOp, a: Double, b: Double, t: Trace)
    requires FollowsStandard(m) && OnWords(op).Some?
    ensures m.binary(op, NumberValue(a), NumberValue(b), t) == (NumberValue(Numbers.Standard(OnWords(op).value, a, b)), t)
  {
    hide OnWords, Numbers.Standard;
  }

  lemma MeansArithmetic(c: Folder, m: Machine, op: BinOp, a: Double, b: Double, t: Trace)
    requires Agrees(m, c) && op in {ADD, SUB, MUL, DIV}
    ensures m.binary(op, NumberValue(a), NumberValue(b), t) == (NumberValue(c.arithmetic(op, a, b)), t)
  {
  }

  /** Parsing the printed tree with folding on means what the tree means. */
  lemma ParsedMeaning(c: Folder, m: Machine, e: Expr, cin: bool, t: Trace)
    requires FollowsStandard(m) && Agrees(m, c)
    ensures var r := Parse(c, Print(e, 9, cin), 9, cin);
      r.Some? && r.value.1 == [] && Evaluate(m, r.value.0, t) == Evaluate(m, e, t)
  {
    assert Print(e, 9, cin) + [] == Print(e, 9, cin);
    RoundTrip(c, e, 9, cin, []);
    FoldKeepsMeaning(c, m, e, t);
  }

  function Size(e: Expr): nat
  {
    match e
    case Unary(_, x) => 1 + Size(x)
    case Binary(_, l, r) => 1 + Size(l) + Size(r)
    case _ => 1
  }

  /** Some unary plus has a number literal as its operand. */
  predicate HasPlusNumber(e: Expr)
  {
    match e
    case Unary(op, x) => (op == PLUS && x.Number?) || HasPlusNumber(x)
    case Binary(_, l, r) => HasPlusNumber(l) || HasPlusNumber(r)
    case _ => false
  }

  /** With reduction off the tree comes back as it was, except for a plus before a number literal. */
  lemma {:induction false} UnreducedTree(c: Folder, e: Expr)
    requires !c.reduce
    ensures Fold(c, e) == e <==> !HasPlusNumber(e)
    ensures HasPlusNumber(e) ==> Size(Fold(c, e)) < Size(e)
  {
    match e {
      case Unary(op, x) => UnreducedTree(c, x);
      case Binary(op, l, r) =>
        UnreducedTree(c, l);
        UnreducedTree(c, r);
      case _ =>
    }
  }

  /** No operation on literals is left that is carried out: all of them but the remainder, comparisons and logic. */
  predicate Reduced(e: Expr)
  {
    match e
    case Unary(op, x) => Reduced(x) && !(op in {PLUS, MINUS, BIT_NOT} && x.Number?)
    case Binary(op, l, r) =>
      && Reduced(l) && Reduced(r) && !(op == ADD && l.String? && r.String?)
      && !(op in {ADD, SUB, MUL, DIV, BIT_OR, BIT_AND, BIT_XOR, SHL, SHR, SAR} && l.Number? && r.Number?)
    case _ => true
  }

  lemma {:induction false} FoldReduces(c: Folder, e: Expr)
    requires c.reduce
    ensures Reduced(Fold(c, e)) && (Reduced(e) <==> Fold(c, e) == e)
    ensures !Reduced(e) ==> Size(Fold(c, e)) < Size(e)
  {
    match e {
      case Unary(op, x) => FoldReduces(c, x);
      case Binary(op, l, r) =>
        FoldReduces(c, l);
        FoldReduces(c, r);
      case _ =>
    }
  }
}
