/**
 * Number values and their conversion to 32-bit integers, and the operators on such integers that
 * the parser carries out on literals: what the code computes with casts, remainders and machine
 * words is what sections 9.5, 9.6, 11.4.8, 11.7 and 11.10 of ECMA-262 say, bit by bit.
 */
module Numbers {
  import opened Naturals

  /** The zero among the finite values is the positive one. */
  datatype Number = NaN | Infinite(negative: bool) | MinusZero | Finite(value: real)

  const TWO31 := 0x8000_0000
  const TWO32 := 0x1_0000_0000

  type Int32 = i: int | -0x8000_0000 <= i < 0x8000_0000
  type UInt32 = i: int | 0 <= i < 0x1_0000_0000

  predicate IsFinite(d: Number)
  {
    d.Finite? || d.MinusZero?
  }

  function Real(d: Number): real
    requires IsFinite(d)
  {
    if d.MinusZero? then 0.0 else d.value
  }

  function Truncated(x: real): int
  {
    if x >= 0.0 then x.Floor else -(-x).Floor
  }

  function Ceiling(x: real): int
  {
    -(-x).Floor
  }

  function Negated(d: Number): Number
  {
    match d
    case NaN => NaN
    case Infinite(negative) => Infinite(!negative)
    case MinusZero => Finite(0.0)
    case Finite(v) => if v == 0.0 then MinusZero else Finite(-v)
  }

  /** Section 11.4.7: the value changes its sign, as zeros and infinities do, and NaN stays. */
  lemma NegatedIs(d: Number)
    ensures d == NaN <==> Negated(d) == NaN
    ensures IsFinite(d) <==> IsFinite(Negated(d))
    ensures IsFinite(d) ==> Real(Negated(d)) == -Real(d)
    ensures d == MinusZero <==> Negated(d) == Finite(0.0)
    ensures d == Finite(0.0) <==> Negated(d) == MinusZero
    ensures forall negative :: d == Infinite(negative) <==> Negated(d) == Infinite(!negative)
    ensures Negated(Negated(d)) == d
  {
  }

  // ----- conversion to 32 bits, as coded -----

  /** The cast of a double; beyond the range of the type the outcome is `stray`, whatever that is. */
  function CastToInt32(d: Number, stray: Int32): Int32
  {
    if IsFinite(d) && -TWO31 <= Truncated(Real(d)) < TWO31 then Truncated(Real(d)) else stray
  }

  /** The remainder with the sign of the dividend. */
  function Modulo(x: real, y: real): real
    requires y > 0.0
  {
    x - y * Truncated(x / y) as real
  }

  function DoubleToInt32(d: Number, stray: Int32): (r: Int32)
  {
    var i := CastToInt32(d, stray);
    if IsFinite(d) && i as real == Real(d) then i
    else if !IsFinite(d) || Real(d) == 0.0 then 0
    else
      InRange(Real(d));
      var rest := Reduce(Real(d));
      var whole := if rest >= 0.0 then rest.Floor else Ceiling(rest) + TWO32;
      if whole >= TWO31 then whole - TWO32 else whole
  }

  function Reduce(x: real): real
  {
    if x < 0.0 || x >= TWO32 as real then Modulo(x, TWO32 as real) else x
  }

  function DoubleToUInt32(d: Number, stray: Int32): UInt32
  {
    DoubleToInt32(d, stray) % TWO32
  }

  // ----- sections 9.5 and 9.6 of ECMA-262 -----

  /** sign(number) * floor(abs(number)), modulo 2^32. */
  function ToUint32(d: Number): UInt32
  {
    if !IsFinite(d) then 0
    else
      var x := Real(d);
      (if x < 0.0 then -((-x).Floor) else x.Floor) % TWO32
  }

  function ToInt32(d: Number): Int32
  {
    Signed(ToUint32(d))
  }

  /** The 32-bit number with these bits in two's complement. */
  function Signed(w: UInt32): Int32
  {
    if w >= TWO31 then w - TWO32 else w
  }

  /** Taking the remainder leaves less than 2^32 of the value, on its side of zero, and drops whole multiples. */
  lemma InRange(x: real)
    ensures -(TWO32 as real) < Reduce(x) < TWO32 as real
    ensures x >= 0.0 ==> Reduce(x) >= 0.0 && Reduce(x).Floor == x.Floor % TWO32
    ensures x < 0.0 ==> Reduce(x) <= 0.0 && (-Reduce(x)).Floor == (-x).Floor % TWO32
  {
    var n := TWO32 as real;
    if x >= n {
      Remainder(x);
      assert Reduce(x) == x - n * (x / n).Floor as real;
    } else if x < 0.0 {
      Remainder(-x);
      assert x / n == -(-x / n);
      assert Reduce(x) == -(-x - n * (-x / n).Floor as real);
    }
  }

  lemma Remainder(x: real)
    requires x >= 0.0
    ensures var r := x - TWO32 as real * (x / TWO32 as real).Floor as real;
      0.0 <= r < TWO32 as real && r.Floor == x.Floor % TWO32
  {
    var q := (x / TWO32 as real).Floor;
    var r := x - TWO32 as real * q as real;
    assert x.Floor == TWO32 * q + r.Floor;
    DivModUnique(x.Floor, TWO32, q, r.Floor);
  }

  /** The coded conversion is the standard's, for every value and whatever a cast out of range gives. */
  lemma DoubleToInt32Is(d: Number, stray: Int32)
    ensures DoubleToInt32(d, stray) == ToInt32(d)
    ensures DoubleToUInt32(d, stray) == ToUint32(d)
  {
    SignedBack(ToUint32(d));
    if IsFinite(d) {
      if Real(d) >= 0.0 {
        ConvertsPositive(d, stray);
      } else {
        ConvertsNegative(d, stray);
      }
    }
  }

  lemma SignedBack(w: UInt32)
    ensures Signed(w) % TWO32 == w
  {
  }

  lemma ConvertsPositive(d: Number, stray: Int32)
    requires IsFinite(d) && Real(d) >= 0.0
    ensures DoubleToInt32(d, stray) == ToInt32(d)
  {
    InRange(Real(d));
    hide Reduce;
  }

  lemma ConvertsNegative(d: Number, stray: Int32)
    requires IsFinite(d) && Real(d) < 0.0
    ensures DoubleToInt32(d, stray) == ToInt32(d)
  {
    InRange(Real(d));
    hide Reduce;
    NegativeModulo((-Real(d)).Floor);
  }

  lemma NegativeModulo(n: int)
    ensures (-n) % TWO32 == if n % TWO32 == 0 then 0 else TWO32 - n % TWO32
  {
  }

  // ----- operators on 32-bit integers, as coded -----

  /** The complement has one operand, which stands on the left. */
  datatype WordOp = WORD_OR | WORD_AND | WORD_XOR | WORD_NOT | SHIFT_LEFT | SHIFT_RIGHT | SHIFT_RIGHT_ZERO

  function Word(x: int): UInt32 { x % TWO32 }

  function FromInteger(x: int): Number { Finite(x as real) }

  /** The shift count is masked out of an integer of 32 bits. */
  function ShiftCount(y: Int32): nat { And(Word(y), 0x1F) }

  /** What the code puts in place of number literals; `stray` is what casts out of range give. */
  function Carried(op: WordOp, l: Number, r: Number, stray: Number -> Int32): Number
  {
    OnIntegers(op, DoubleToInt32(l, stray(l)), DoubleToInt32(r, stray(r)), DoubleToUInt32(l, stray(l)))
  }

  /** u is the left operand without a sign. */
  function OnIntegers(op: WordOp, x: Int32, y: Int32, u: UInt32): Number
  {
    Fits(Word(x), Word(y));
    match op
    case WORD_OR => FromInteger(Signed(Or(Word(x), Word(y))))
    case WORD_AND => FromInteger(Signed(And(Word(x), Word(y))))
    case WORD_XOR => FromInteger(Signed(Xor(Word(x), Word(y))))
    case WORD_NOT => FromInteger(-1 - x)
    case SHIFT_LEFT => FromInteger(Signed(Word(Word(x) * Pow(2, ShiftCount(y)))))
    case SHIFT_RIGHT => FromInteger(x / Pow(2, ShiftCount(y)))
    case SHIFT_RIGHT_ZERO => FromInteger(u / Pow(2, ShiftCount(y)))
  }

  lemma Fits(x: UInt32, y: UInt32)
    ensures Or(x, y) < TWO32 && And(x, y) < TWO32 && Xor(x, y) < TWO32
  {
    Power32();
    StaysBelow(x, y, 32);
  }

  lemma Power32()
    ensures Pow(2, 5) == 32 && Pow(2, 31) == TWO31 && Pow(2, 32) == TWO32
  {
    assert Pow(2, 1) == 2 && Pow(2, 3) == 8 && Pow(2, 5) == 32;
    PowAdd(2, 5, 5);
    PowAdd(2, 10, 5);
    PowAdd(2, 15, 15);
  }

  lemma {:induction false} StaysBelow(x: nat, y: nat, n: nat)
    requires x < Pow(2, n) && y < Pow(2, n)
    ensures Or(x, y) < Pow(2, n) && And(x, y) < Pow(2, n) && Xor(x, y) < Pow(2, n)
  {
    if n > 0 {
      StaysBelow(x / 2, y / 2, n - 1);
    }
  }

  // ----- sections 11.4.8, 11.7 and 11.10 of ECMA-262, bit by bit -----

  /** Bit i of an integer in two's complement. */
  function Bit(x: int, i: nat): (b: int)
    ensures 0 <= b <= 1
  {
    x / Pow(2, i) % 2
  }

  function If(b: bool): int { if b then 1 else 0 }

  /** Bit i of the result of an operator on x and y, or on x and the shift count k. */
  function ResultBit(op: WordOp, x: int, y: int, k: nat, i: nat): (b: int)
    ensures 0 <= b <= 1
  {
    match op
    case WORD_OR => If(Bit(x, i) == 1 || Bit(y, i) == 1)
    case WORD_AND => If(Bit(x, i) == 1 && Bit(y, i) == 1)
    case WORD_XOR => If(Bit(x, i) != Bit(y, i))
    case WORD_NOT => If(Bit(x, i) == 0)
    case SHIFT_LEFT => if i < k then 0 else Bit(x, i - k)
    case SHIFT_RIGHT => if i + k < 32 then Bit(x, i + k) else Bit(x, 31)
    case SHIFT_RIGHT_ZERO => if i + k < 32 then Bit(x, i + k) else 0
  }

  /** The 32-bit number with these bits from place i on. */
  function Assembled(op: WordOp, x: int, y: int, k: nat, i: nat): (w: nat)
    requires i <= 32
    ensures w + Pow(2, i) <= Pow(2, 32)
    decreases 32 - i
  {
    if i == 32 then 0 else ResultBit(op, x, y, k, i) * Pow(2, i) + Assembled(op, x, y, k, i + 1)
  }

  /** The operator on the converted operands; only the unsigned shift takes and gives an unsigned number. */
  function Stated(op: WordOp, x: Int32, y: Int32, u: UInt32, k: nat): Number
  {
    Power32();
    if op == SHIFT_RIGHT_ZERO then FromInteger(Assembled(op, u, 0, k, 0)) else FromInteger(Signed(Assembled(op, x, y, k, 0)))
  }

  /** Both operands are converted, and the count is the right one as an unsigned number, modulo 32. */
  function Standard(op: WordOp, l: Number, r: Number): Number
  {
    Stated(op, ToInt32(l), ToInt32(r), ToUint32(l), ToUint32(r) % 32)
  }

  /** A word with the right bits is the assembled one. */
  lemma {:induction false} Assembles(op: WordOp, x: int, y: int, k: nat, w: nat, i: nat)
    requires i <= 32 && w < Pow(2, 32)
    requires forall j :: i <= j < 32 ==> Bit(w, j) == ResultBit(op, x, y, k, j)
    ensures Assembled(op, x, y, k, i) == w / Pow(2, i) * Pow(2, i)
    decreases 32 - i
  {
    if i == 32 {
      DivModUnique(w, Pow(2, 32), 0, w);
    } else {
      Assembles(op, x, y, k, w, i + 1);
      HalfAgain(w, Pow(2, i));
      Regrouped(w / Pow(2, i + 1), Bit(w, i), Pow(2, i));
    }
  }

  lemma HalfAgain(x: int, p: nat)
    requires p > 0
    ensures x / p == 2 * (x / (2 * p)) + x / p % 2
  {
    var h, b := x / p / 2, x / p % 2;
    DivModUnique(x, 2 * p, h, p * b + x % p);
  }

  lemma Regrouped(h: int, b: int, p: int)
    ensures (2 * h + b) * p == b * p + h * (2 * p)
  {
  }

  /** Bits of the bitwise operators. */
  lemma {:induction false} OperatorBits(x: nat, y: nat, i: nat)
    ensures Bit(Or(x, y), i) == If(Bit(x, i) == 1 || Bit(y, i) == 1)
    ensures Bit(And(x, y), i) == If(Bit(x, i) == 1 && Bit(y, i) == 1)
    ensures Bit(Xor(x, y), i) == If(Bit(x, i) != Bit(y, i))
  {
    Halves(x, y);
    hide Or, And, Xor, Bit;
    if i == 0 {
      LowestBit(x);
      LowestBit(y);
      LowestBit(Or(x, y));
      LowestBit(And(x, y));
      LowestBit(Xor(x, y));
    } else {
      OperatorBits(x / 2, y / 2, i - 1);
      NextBit(x, i);
      NextBit(y, i);
      NextBit(Or(x, y), i);
      NextBit(And(x, y), i);
      NextBit(Xor(x, y), i);
    }
  }

  lemma Halves(x: nat, y: nat)
    ensures Or(x, y) / 2 == Or(x / 2, y / 2) && Or(x, y) % 2 == If(x % 2 == 1 || y % 2 == 1)
    ensures And(x, y) / 2 == And(x / 2, y / 2) && And(x, y) % 2 == If(x % 2 == 1 && y % 2 == 1)
    ensures Xor(x, y) / 2 == Xor(x / 2, y / 2) && Xor(x, y) % 2 == If(x % 2 != y % 2)
  {
  }

  lemma LowestBit(x: int)
    ensures Bit(x, 0) == x % 2
  {
    assert Pow(2, 0) == 1;
  }

  lemma NextBit(x: int, i: nat)
    requires i > 0
    ensures Bit(x, i) == Bit(x / 2, i - 1)
  {
    DivTwice(x, 2, Pow(2, i - 1));
  }

  lemma DivTwice(x: int, p: nat, q: nat)
    requires p > 0 && q > 0
    ensures p * q > 0 && x / (p * q) == x / p / q
  {
    var h := x / p;
    var r := p * (h % q) + x % p;
    MulStrict(p, 0, q);
    MulMonotone(p, h % q, q - 1);
    assert p * (q - 1) == p * q - p;
    assert x == (p * q) * (h / q) + r by {
      Assoc(p, q, h / q);
      assert p * h == p * (q * (h / q)) + p * (h % q);
    }
    DivModUnique(x, p * q, h / q, r);
  }

  /** The low bits do not change when the number is taken modulo 2^32. */
  lemma WordBits(x: int, i: nat)
    requires i < 32
    ensures Bit(Word(x), i) == Bit(x, i)
  {
    var p, q := Pow(2, i), Pow(2, 31 - i);
    Power32();
    PowAdd(2, i, 31 - i);
    hide Pow;
    WholeWords(x, p, q);
    Multiples(Word(x), p, 2 * (q * (x / TWO32)));
  }

  lemma WholeWords(x: int, p: nat, q: nat)
    requires p * q == TWO31
    ensures x == Word(x) + p * (2 * (q * (x / TWO32)))
  {
    Assoc(p, q, x / TWO32);
    Twice(p, q * (x / TWO32));
  }

  lemma Twice(p: int, n: int)
    ensures p * (2 * n) == 2 * (p * n)
  {
  }

  lemma Multiples(w: int, p: nat, m: int)
    requires p > 0
    ensures (w + p * m) / p == w / p + m
  {
    DivModUnique(w + p * m, p, w / p + m, w % p);
  }

  lemma ShiftedUp(w: int, k: nat, i: nat)
    ensures Bit(w * Pow(2, k), i) == if i < k then 0 else Bit(w, i - k)
  {
    if i < k {
      var p, q := Pow(2, i), Pow(2, k - i - 1);
      PowAdd(2, i, k - i);
      assert Pow(2, k - i) == 2 * q;
      hide Pow;
      assert w * (p * (2 * q)) == p * (2 * (w * q)) by { Assoc(p, 2 * q, w); Assoc(2, q, w); }
      Multiples(0, p, 2 * (w * q));
    } else {
      PowAdd(2, k, i - k);
      DivTwice(w * Pow(2, k), Pow(2, k), Pow(2, i - k));
      DivModUnique(w * Pow(2, k), Pow(2, k), w, 0);
    }
  }

  lemma ShiftedDown(x: int, k: nat, i: nat)
    ensures Bit(x / Pow(2, k), i) == Bit(x, i + k)
  {
    PowAdd(2, k, i);
    DivTwice(x, Pow(2, k), Pow(2, i));
  }

  /** The sign fills all higher places. */
  lemma SignBits(x: Int32, i: nat)
    requires i >= 31
    ensures Bit(x, i) == Bit(x, 31) == If(x < 0)
  {
    Power32();
    PowMonotone(2, 31, i);
    hide Pow;
    SignQuotient(x, Pow(2, 31));
    SignQuotient(x, Pow(2, i));
  }

  lemma SignQuotient(x: Int32, p: nat)
    requires p >= TWO31
    ensures x / p == -If(x < 0)
  {
    DivModUnique(x, p, -If(x < 0), if x < 0 then x + p else x);
  }

  /** The words the coded operators make. */
  lemma IsAssembled(op: WordOp, x: int, y: int, k: nat, w: UInt32)
    requires forall i :: 0 <= i < 32 ==> Bit(w, i) == ResultBit(op, x, y, k, i)
    ensures Assembled(op, x, y, k, 0) == w
  {
    Power32();
    Assembles(op, x, y, k, w, 0);
    assert Pow(2, 0) == 1;
  }

  lemma BitwiseWords(x: Int32, y: Int32, k: nat)
    ensures Assembled(WORD_OR, x, y, k, 0) == Or(Word(x), Word(y))
    ensures Assembled(WORD_AND, x, y, k, 0) == And(Word(x), Word(y))
    ensures Assembled(WORD_XOR, x, y, k, 0) == Xor(Word(x), Word(y))
  {
    Fits(Word(x), Word(y));
    forall i | 0 <= i < 32
      ensures Bit(Word(x), i) == Bit(x, i) && Bit(Word(y), i) == Bit(y, i)
      ensures Bit(Or(Word(x), Word(y)), i) == ResultBit(WORD_OR, x, y, k, i)
      ensures Bit(And(Word(x), Word(y)), i) == ResultBit(WORD_AND, x, y, k, i)
      ensures Bit(Xor(Word(x), Word(y)), i) == ResultBit(WORD_XOR, x, y, k, i)
    {
      hide Bit, Or, And, Xor, Word;
      WordBits(x, i);
      WordBits(y, i);
      OperatorBits(Word(x), Word(y), i);
    }
    hide Bit, Or, And, Xor, Word, ResultBit, Assembled;
    IsAssembled(WORD_OR, x, y, k, Or(Word(x), Word(y)));
    IsAssembled(WORD_AND, x, y, k, And(Word(x), Word(y)));
    IsAssembled(WORD_XOR, x, y, k, Xor(Word(x), Word(y)));
  }

  lemma FlippedQuotient(x: int, p: nat)
    requires p > 0
    ensures (-1 - x) / p == -1 - x / p
  {
    var q, low := x / p, x % p;
    assert -1 - x == p * (-1 - q) + (p - 1 - low);
    DivModUnique(-1 - x, p, -1 - q, p - 1 - low);
  }

  lemma FlippedBit(x: int, i: nat)
    ensures Bit(-1 - x, i) == If(Bit(x, i) == 0)
  {
    FlippedQuotient(x, Pow(2, i));
    hide Pow;
  }

  lemma FlippedWord(x: Int32, y: int, k: nat)
    ensures Assembled(WORD_NOT, x, y, k, 0) == Word(-1 - x)
  {
    forall i | 0 <= i < 32
      ensures Bit(Word(-1 - x), i) == ResultBit(WORD_NOT, x, y, k, i)
    {
      hide Word, Bit;
      WordBits(-1 - x, i);
      FlippedBit(x, i);
    }
    hide Bit, ResultBit, Assembled;
    IsAssembled(WORD_NOT, x, y, k, Word(-1 - x));
  }

  lemma LeftWord(x: Int32, y: int, k: nat)
    ensures Assembled(SHIFT_LEFT, x, y, k, 0) == Word(Word(x) * Pow(2, k))
  {
    forall i | 0 <= i < 32
      ensures Bit(Word(Word(x) * Pow(2, k)), i) == ResultBit(SHIFT_LEFT, x, y, k, i)
    {
      hide Word, Bit, Pow;
      WordBits(Word(x) * Pow(2, k), i);
      ShiftedUp(Word(x), k, i);
      if i >= k {
        WordBits(x, i - k);
      }
    }
    hide Bit, ResultBit, Assembled;
    IsAssembled(SHIFT_LEFT, x, y, k, Word(Word(x) * Pow(2, k)));
  }

  lemma RightWord(x: Int32, y: int, k: nat)
    requires k < 32
    ensures Assembled(SHIFT_RIGHT, x, y, k, 0) == Word(x / Pow(2, k))
    ensures -TWO31 <= x / Pow(2, k) < TWO31
  {
    SmallerQuotient(x, Pow(2, k));
    forall i | 0 <= i < 32
      ensures Bit(Word(x / Pow(2, k)), i) == ResultBit(SHIFT_RIGHT, x, y, k, i)
    {
      hide Word, Bit, Pow;
      WordBits(x / Pow(2, k), i);
      ShiftedDown(x, k, i);
      if i + k >= 32 {
        SignBits(x, i + k);
      }
    }
    hide Bit, ResultBit, Assembled, Pow;
    IsAssembled(SHIFT_RIGHT, x, y, k, Word(x / Pow(2, k)));
  }

  lemma SmallerQuotient(x: int, p: nat)
    requires p > 0
    ensures x >= 0 ==> 0 <= x / p <= x
    ensures x < 0 ==> x <= x / p < 0
  {
    var q := x / p;
    assert x == p * q + x % p && 0 <= x % p < p;
    if x >= 0 {
      if q < 0 {
        MulMonotone(p, q, -1);
      }
      MulMonotone(q, 1, p);
    } else {
      if q >= 0 {
        MulMonotone(p, 0, q);
      }
      MulMonotone(-q - 1, 1, p);
    }
  }

  lemma FilledWord(u: UInt32, k: nat)
    requires k < 32
    ensures Assembled(SHIFT_RIGHT_ZERO, u, 0, k, 0) == u / Pow(2, k)
  {
    SmallerQuotient(u, Pow(2, k));
    forall i | 0 <= i < 32
      ensures Bit(u / Pow(2, k), i) == ResultBit(SHIFT_RIGHT_ZERO, u, 0, k, i)
    {
      ShiftedDown(u, k, i);
      if i + k >= 32 {
        Power32();
        PowMonotone(2, 32, i + k);
        DivModUnique(u, Pow(2, i + k), 0, u);
      }
    }
    hide Bit, ResultBit, Assembled, Pow;
    IsAssembled(SHIFT_RIGHT_ZERO, u, 0, k, u / Pow(2, k));
  }

  /** The mask on the converted count is the standard's on the unsigned one. */
  lemma CountIs(r: Number)
    ensures ShiftCount(ToInt32(r)) == ToUint32(r) % 32
  {
    SignedBack(ToUint32(r));
    Power32();
    AndMask(ToUint32(r), 5);
  }

  lemma SignedWord(x: Int32)
    ensures Signed(Word(x)) == x
  {
  }

  /** What the code carries out is the standard's operator, for all number values. */
  lemma CarriedIsStandard(op: WordOp, l: Number, r: Number, stray: Number -> Int32)
    ensures Carried(op, l, r, stray) == Standard(op, l, r)
  {
    DoubleToInt32Is(l, stray(l));
    DoubleToInt32Is(r, stray(r));
    CountIs(r);
    hide *;
    IntegersAreStandard(op, ToInt32(l), ToInt32(r), ToUint32(l), ToUint32(r) % 32);
    CarriedFrom(op, l, r, stray);
    StandardFrom(op, l, r);
  }

  lemma CarriedFrom(op: WordOp, l: Number, r: Number, stray: Number -> Int32)
    ensures Carried(op, l, r, stray) ==
      OnIntegers(op, DoubleToInt32(l, stray(l)), DoubleToInt32(r, stray(r)), DoubleToUInt32(l, stray(l)))
  {
  }

  lemma StandardFrom(op: WordOp, l: Number, r: Number)
    ensures Standard(op, l, r) == Stated(op, ToInt32(l), ToInt32(r), ToUint32(l), ToUint32(r) % 32)
  {
  }

  lemma IntegersAreStandard(op: WordOp, x: Int32, y: Int32, u: UInt32, k: nat)
    requires k == ShiftCount(y) < 32
    ensures OnIntegers(op, x, y, u) == Stated(op, x, y, u, k)
  {
    hide Word, Signed, ShiftCount, Or, And, Xor, Pow, Assembled;
    match op {
      case WORD_OR | WORD_AND | WORD_XOR => BitwiseWords(x, y, k);
      case WORD_NOT =>
        FlippedWord(x, y, k);
        SignedWord(-1 - x);
      case SHIFT_LEFT => LeftWord(x, y, k);
      case SHIFT_RIGHT =>
        RightWord(x, y, k);
        SignedWord(x / Pow(2, k));
      case SHIFT_RIGHT_ZERO => FilledWord(u, k);
    }
  }
}
