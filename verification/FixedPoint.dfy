/**
 * The conversion to a fixed number of digits, from the estimate of the logarithm on: what is
 * written is the value rounded to a unit 10^u, the larger of two equally near multiples being
 * taken (sections 15.7.4.5 to 15.7.4.7 of ECMA-262), also when no digit or only a carry is left.
 */
module FixedPoint {
  import opened Naturals
  import opened Words
  import opened BigNum
  import opened Quotient
  import opened Decimals
  import opened DigitLoops
  import opened Scaling

  datatype Mode = SIGNIFICANT_FIGURES | DECIMAL_PLACES

  /** c * 2^e / 10^u is Above / Below. */
  function Above(c: nat, e: int, u: int): nat { c * (Pow(2, Plus(e)) * Pow(10, Minus(u))) }

  function Below(e: int, u: int): nat { Pow(2, Minus(e)) * Pow(10, Plus(u)) }

  /** n is nearest to c * 2^e in units of 10^u, and the larger one of two that are equally near. */
  ghost predicate NearestMultiple(c: nat, e: int, u: int, n: nat)
  {
    NearestOrLarger(Above(c, e, u), Below(e, u), 0, n)
  }

  /** The digits, read as d0.d1d2... * 10^k, are n * 10^u; zero is written as 0 * 10^0. */
  ghost predicate Writes(d: seq<Digit>, k: int, u: int, n: nat)
  {
    if n == 0 then d == [0] && k == 0
    else Significant(d) && u <= k - |d| + 1 && n == Num(d) * Pow(10, k - |d| + 1 - u)
  }

  // ----- rounding a quotient rounds the value -----

  /** What is rounded half up in the scaled quotient is nearest to the value itself. */
  lemma QuotientRounds(a: nat, s: nat, c: nat, e: int, u: int, n: nat)
    requires IsScaled(a, s, c, e, u) && s > 0
    requires 2 * (n * s) <= 2 * a + s && 2 * a < 2 * (n * s) + s
    ensures NearestMultiple(c, e, u, n)
  {
    var x, d := Above(c, e, u), Below(e, u);
    MulStrict(Pow(2, Minus(e)), 0, Pow(10, Plus(u)));
    assert a * d == s * x;
    CrossRounds(a, s, x, d, n);
    AtUnits(x);
    HalfUpIsNearest(x, d, 0, n);
  }

  lemma AtUnits(x: nat)
    ensures x * Pow(10, 0) == x
  {
  }

  lemma CrossRounds(a: nat, s: nat, x: nat, d: nat, n: nat)
    requires a * d == s * x && s > 0 && d > 0
    requires 2 * (n * s) <= 2 * a + s && 2 * a < 2 * (n * s) + s
    ensures 2 * (n * d) <= 2 * x + d && 2 * x < 2 * (n * d) + d
  {
    CrossAtMost(2 * (n * s), 2 * a + s, d);
    CrossLess(2 * a, 2 * (n * s) + s, d);
    assert (2 * (n * s)) * d == s * (2 * (n * d)) by { Regroup(n, s, d); }
    assert (2 * a + s) * d == s * (2 * x + d);
    assert (2 * a) * d == s * (2 * x);
    assert (2 * (n * s) + s) * d == s * (2 * (n * d) + d) by { Regroup(n, s, d); }
    hide *;
    CancelOrder(s, 2 * (n * d), 2 * x + d);
    CancelOrder(s, 2 * x, 2 * (n * d) + d);
  }

  lemma CrossAtMost(x: int, y: int, d: nat)
    requires x <= y
    ensures x * d <= y * d
  {
  }

  lemma CrossLess(x: int, y: int, d: nat)
    requires x < y && d > 0
    ensures x * d < y * d
  {
  }

  lemma Regroup(n: nat, s: nat, d: nat)
    ensures (2 * (n * s)) * d == s * (2 * (n * d))
  {
    assert (n * s) * d == s * (n * d);
  }

  lemma CancelOrder(s: nat, x: int, y: int)
    requires s > 0
    ensures s * x <= s * y ==> x <= y
    ensures s * x < s * y ==> x < y
  {
    if x > y {
      MulStrict(s, y, x);
    } else if x < y {
      MulStrict(s, x, y);
    }
  }

  /** f places more are a factor 10^f. */
  lemma {:induction false} ScaledPlaces(a: nat, s: nat, c: nat, e: int, k: int, f: nat)
    requires IsScaled(a, s, c, e, k)
    ensures IsScaled(a * Pow(10, f), s, c, e, k - f)
  {
    if f > 0 {
      hide IsScaled;
      ScaledPlaces(a, s, c, e, k, f - 1);
      ScaledTen(a * Pow(10, f - 1), s, c, e, k - f + 1);
      Rotate(a, Pow(10, f - 1), 10);
    }
  }

  lemma {:induction false} ScaledCoarser(a: nat, s: nat, c: nat, e: int, k: int, f: nat)
    requires IsScaled(a, s, c, e, k)
    ensures IsScaled(a, s * Pow(10, f), c, e, k + f)
  {
    if f > 0 {
      hide IsScaled;
      ScaledCoarser(a, s, c, e, k, f - 1);
      ScaledTen(a, s * Pow(10, f - 1), c, e, k + f - 1);
      Rotate(s, Pow(10, f - 1), 10);
    }
  }

  // ----- the three ways a conversion ends -----

  /** ilim digits were produced. */
  lemma DigitsWritten(v: nat, s: nat, c: nat, e: int, k: int, ilim: nat, d: seq<Digit>, k': int) returns (n: nat)
    requires IsScaled(v, s, c, e, k) && s > 0 && ilim >= 1 && k' >= k && RoundedTo(v, s, ilim, d, k' - k)
    ensures NearestMultiple(c, e, k - ilim + 1, n) && n > 0 && Writes(d, k', k - ilim + 1, n)
  {
    n := Num(d) * Pow(10, ilim - |d| + (k' - k));
    SignificantPositive(d);
    MulStrict(Num(d), 0, Pow(10, ilim - |d| + (k' - k)));
    ScaledPlaces(v, s, c, e, k, ilim - 1);
    QuotientRounds(v * Pow(10, ilim - 1), s, c, e, k - (ilim - 1), n);
  }

  lemma SignificantPositive(d: seq<Digit>)
    requires Significant(d)
    ensures Num(d) > 0
  {
    NumBounds(d);
  }

  /** The place asked for lies just in front of the value: it is rounded to nothing, or to one unit. */
  lemma CarryOnly(v: nat, s: nat, c: nat, e: int, k: int)
    requires IsScaled(v, s, c, e, k) && 0 < s <= v < 10 * s
    ensures v >= 5 * s ==> NearestMultiple(c, e, k + 1, 1) && Writes([1], k + 1, k + 1, 1)
    ensures v < 5 * s ==> NearestMultiple(c, e, k + 1, 0) && Writes([0], 0, k + 1, 0)
  {
    ScaledTen(v, s, c, e, k);
    TenIsOneDigit(Interval(v, s, v, v, true));
    assert Num([1]) * Pow(10, 0) == 1;
    hide IsScaled, NearestMultiple, Num, Pow;
    QuotientRounds(v, s * 10, c, e, k + 1, if v >= 5 * s then 1 else 0);
  }

  /** The place asked for lies further in front. */
  lemma NothingLeft(v: nat, s: nat, c: nat, e: int, k: int, u: int)
    requires IsScaled(v, s, c, e, k) && 0 < s <= v < 10 * s && u >= k + 2
    ensures NearestMultiple(c, e, u, 0) && Writes([0], 0, u, 0)
  {
    ScaledCoarser(v, s, c, e, k, u - k);
    PowMonotone(10, 2, u - k);
    assert Pow(10, 2) == 100 by { assert Pow(10, 1) == 10; }
    MulMonotone(s, 100, Pow(10, u - k));
    hide IsScaled, NearestMultiple, Pow;
    QuotientRounds(v, s * Pow(10, u - k), c, e, u, 0);
  }

  // ----- the operands -----

  /** b multiplied out over the denominator S. */
  method Numerator(b: BigInt, b2: nat, b5: nat, cache: Pow5Cache)
    requires Operand(b) && Val(b.words) > 0 && cache.Valid() && b !in cache.list
    modifies b, cache
    ensures cache.Valid() && cache.Extends(old(cache.list))
    ensures Operand(b) && Val(b.words) == Mono(old(Val(b.words)), b2, b5) > 0
  {
    ghost var c := Val(b.words);
    One();
    MonoFive(c, b5);
    MonoTwo(c, 0, b5, b2);
    MonoPositive(c, 0, b5);
    MonoPositive(c, b2, b5);
    assert c == Mono(c, 0, 0);
    hide Pow, Mono, Val;
    if b5 > 0 {
      b.Pow5Multi(b5, cache);
    }
    if b2 > 0 {
      b.ShiftLeft(b2);
    }
  }

  /** The scaled quotient lies between 1 and 10 once the estimate of k has been corrected. */
  method Scale(b: BigInt, be: int, kEst: int, kCheck: bool, cache: Pow5Cache) returns (S: BigInt, k: int)
    requires Operand(b) && Val(b.words) > 0 && cache.Valid() && b !in cache.list
    requires GoodEstimate(Val(b.words), be, kEst) && (!kCheck ==> AtLeastTenTo(Val(b.words), be, kEst))
    modifies b, cache
    ensures cache.Valid() && b !in cache.list && fresh(S) && S !in cache.list
    ensures Operand(b) && Operand(S) && 0x800_0000 <= S.words[|S.words| - 1] < 0x1000_0000
    ensures IsScaled(Val(b.words), Val(S.words), old(Val(b.words)), be, k)
    ensures 0 < Val(S.words) <= Val(b.words) < 10 * Val(S.words)
    ensures k == kEst || k == kEst - 1
    ensures AtLeastTenTo(old(Val(b.words)), be, k) && !AtLeastTenTo(old(Val(b.words)), be, k + 1)
  {
    hide Pow, Mono, Val, IsScaled, AtLeastTenTo;
    ghost var c := Val(b.words);
    var b2, m2, s2, b5, s5 := Exponents(be, kEst, 0, false);
    var i;
    S, i := Divisor(s5, s2, cache);
    b2, s2 := b2 + i, s2 + i;
    Numerator(b, b2, b5, cache);
    ghost var v, s := Val(b.words), Val(S.words);
    MonoScaled(c, b2, b5, s2, s5, be, kEst);
    ScaledTen(v, s, c, be, kEst);
    ScaledOrder(v, s, c, be, kEst);
    ScaledOrder(v, s * 10, c, be, kEst + 1);
    ScaledOrder(v * 10, s, c, be, kEst - 1);
    k := kEst;
    if kCheck {
      var order := b.Compare(S);
      if order < 0 {
        k := k - 1;
        b.MultiAdd(10, 0);
      }
    }
  }

  /**
   * The conversion to ndigits significant figures or ndigits decimal places of the value
   * c * 2^be, c being the number in b: it is written as n units of 10^u.
   */
  method FixedConversion(b: BigInt, be: int, mode: Mode, ndigits: int, kEst: int, kCheck: bool, cache: Pow5Cache)
      returns (digits: seq<Digit>, k: int, ghost u: int, ghost n: nat)
    requires Operand(b) && Val(b.words) > 0 && cache.Valid() && b !in cache.list
    requires GoodEstimate(Val(b.words), be, kEst) && (!kCheck ==> AtLeastTenTo(Val(b.words), be, kEst))
    modifies b, cache
    ensures cache.Valid() && NearestMultiple(old(Val(b.words)), be, u, n) && Writes(digits, k, u, n)
    ensures mode == DECIMAL_PLACES ==> u == -ndigits
    ensures mode == SIGNIFICANT_FIGURES ==>
      var top := u + (if ndigits <= 0 then 1 else ndigits) - 1;
      AtLeastTenTo(old(Val(b.words)), be, top) && !AtLeastTenTo(old(Val(b.words)), be, top + 1)
  {
    hide Pow, Val, IsScaled, AtLeastTenTo, NearestMultiple, Writes, RoundedTo, NearestOrLarger;
    ghost var c := Val(b.words);
    var figures := if ndigits <= 0 then 1 else ndigits;
    var S;
    S, k := Scale(b, be, kEst, kCheck, cache);
    ghost var v, s := Val(b.words), Val(S.words);
    var ilim := if mode == SIGNIFICANT_FIGURES then figures else ndigits + kEst + 1;
    if k < kEst && mode == DECIMAL_PLACES {
      ilim := ilim - 1;
    }
    u := k - ilim + 1;
    if ilim <= 0 {
      if ilim < 0 {
        NothingLeft(v, s, c, be, k, u);
        return [0], 0, u, 0;
      }
      CarryOnly(v, s, c, be, k);
      S.MultiAdd(5, 0);
      var order := b.Compare(S);
      if order < 0 {
        return [0], 0, u, 0;
      }
      return [1], k + 1, u, 1;
    }
    ghost var place := k;
    digits, k := FixedDigits(b, S, ilim, k);
    n := DigitsWritten(v, s, c, be, place, ilim, digits, k);
  }
}
