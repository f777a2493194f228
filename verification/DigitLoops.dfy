/** The two digit generators and the round-off tail, run on big integers. */
module DigitLoops {
  import opened Naturals
  import opened Words
  import opened BigNum
  import opened Quotient
  import opened Decimals

  /** What the round-off tail computes: one more in the last place, trailing nines dropped. */
  function RoundedUp(d: seq<Digit>): (r: (seq<Digit>, nat))
  {
    if d == [] then ([1], 1)
    else
      var init, last := d[..|d| - 1], d[|d| - 1];
      if last == 9 then RoundedUp(init) else (init + [last + 1], 0)
  }

  function WithoutTrailingZeros(d: seq<Digit>): (r: seq<Digit>)
  {
    if d != [] && d[|d| - 1] == 0 then WithoutTrailingZeros(d[..|d| - 1]) else d
  }

  lemma {:induction false} RoundedUpVal(d: seq<Digit>)
    requires d == [] || d[0] != 0
    ensures var (r, bump) := RoundedUp(d);
      && Significant(r) && |r| <= |d| + bump
      && Num(r) * Pow(10, |d| - |r| + bump) == Num(d) + 1
  {
    if d == [] {
      assert [1][..0] == [] && Num([1]) == 1;
    } else {
      var init, last := d[..|d| - 1], d[|d| - 1];
      if last == 9 {
        RoundedUpVal(init);
        var (r, bump) := RoundedUp(init);
        Tenfold(Num(r), |init| - |r| + bump);
      } else {
        NumAppend(init, last + 1);
      }
    }
  }

  lemma Tenfold(x: int, e: nat)
    ensures x * Pow(10, e + 1) == 10 * (x * Pow(10, e))
  {
    Rotate(x, Pow(10, e), 10);
  }

  lemma {:induction false} WithoutTrailingZerosVal(d: seq<Digit>)
    requires d != [] && d[0] != 0
    ensures var r := WithoutTrailingZeros(d);
      Significant(r) && |r| <= |d| && Num(r) * Pow(10, |d| - |r|) == Num(d)
  {
    if d[|d| - 1] == 0 {
      WithoutTrailingZerosVal(d[..|d| - 1]);
      var r := WithoutTrailingZeros(d);
      Tenfold(Num(r), |d| - 1 - |r|);
    }
  }

  /** Round off the digits in the buffer upwards; a string of nines becomes 1 with a larger exponent. */
  method RoundOff(buf: seq<Digit>, k: int) returns (digits: seq<Digit>, k': int)
    requires buf != []
    ensures digits == RoundedUp(buf).0 && k' == k + RoundedUp(buf).1
  {
    var s := |buf| - 1;
    assert buf[..s + 1] == buf;
    while buf[s] == 9
      decreases s
      invariant 0 <= s < |buf| && RoundedUp(buf[..s + 1]) == RoundedUp(buf)
    {
      assert buf[..s + 1][..s] == buf[..s];
      if s == 0 {
        return [1], k + 1;
      }
      s := s - 1;
    }
    assert buf[..s + 1][..s] == buf[..s];
    return buf[..s] + [buf[s] + 1], k;
  }

  method StripZeros(buf: seq<Digit>) returns (digits: seq<Digit>)
    requires buf != [] && buf[0] != 0
    ensures digits == WithoutTrailingZeros(buf)
  {
    var s := |buf| - 1;
    assert buf[..s + 1] == buf;
    while buf[s] == 0
      decreases s
      invariant 0 <= s < |buf| && WithoutTrailingZeros(buf[..s + 1]) == WithoutTrailingZeros(buf)
    {
      assert buf[..s + 1][..s] == buf[..s];
      s := s - 1;
    }
    return buf[..s + 1];
  }

  /** Tested by the source as `b[0] || b.size() > 1`. */
  predicate NonZero(s: seq<Word>)
  {
    |s| > 1 || (|s| == 1 && s[0] != 0)
  }

  ghost predicate Operand(x: BigInt)
    reads x
  {
    Normal(x.words)
  }

  ghost function IntervalOf(b: BigInt, S: BigInt, mlo: BigInt, mhi: BigInt, even: bool): Interval
    reads b, S, mlo, mhi
  {
    Interval(Val(b.words), Val(S.words), Val(mlo.words), Val(mhi.words), even)
  }

  /**
   * The one situation in which the shortest digits are not the nearest ones: the first
   * digit q is 9 with remainder r, the upper endpoint is exactly 10, and 9 is inside and nearer.
   */
  predicate OvershootsNine(I: Interval, q: nat, r: nat)
  {
    I.closed && q == 9 && r + I.hi == I.s && r <= I.lo && r < I.hi
  }

  /** r / s below and (s - r) / s above: are the two grid neighbours inside? */
  predicate LowInside(r: nat, lo: nat, closed: bool)
  {
    r < lo || (closed && r == lo)
  }

  predicate HighInside(r: nat, s: nat, hi: nat, closed: bool)
  {
    s < r + hi || (closed && s == r + hi)
  }

  /**
   * The two comparisons after a digit: the remainder against mlo, and against S - mhi.
   * Against the empty vector, an exact zero, the second reports "below" even at equality.
   */
  method CompareRemainder(b: BigInt, S: BigInt, mlo: BigInt, mhi: BigInt) returns (j: int, j1: int)
    requires b.words == [] || Operand(b)
    requires Operand(S) && Operand(mlo) && Operand(mhi) && Val(mlo.words) > 0
    ensures (j < 0 <==> Val(b.words) < Val(mlo.words)) && (j == 0 <==> Val(b.words) == Val(mlo.words))
    ensures j1 > 0 <==> Val(S.words) < Val(b.words) + Val(mhi.words)
    ensures j1 == 0 <==> Val(S.words) == Val(b.words) + Val(mhi.words) && b.words != []
  {
    j := b.Compare(mlo);
    var delta := S.Diff(mhi);
    j1 := 1;
    if delta.sign == 0 {
      j1 := b.Compare(delta);
    }
  }

  /**
   * The body of the shortest-digits loop up to its exits. On `stop`, dig is the last digit,
   * 10 standing for "round a nine up"; otherwise dig is emitted and the loop goes on.
   */
  method NextShortestDigit(b: BigInt, S: BigInt, mlo: BigInt, mhi: BigInt, even: bool)
      returns (dig: int, stop: bool, ghost q: nat, ghost r: nat)
    requires b != S && b != mlo && b != mhi
    requires Operand(b) && Operand(mlo) && Operand(mhi) && GoodDivisor(S.words)
    requires |b.words| <= |S.words| && Val(b.words) < 10 * Val(S.words)
    requires 0 < Val(mlo.words) <= Val(mhi.words)
    modifies b`words
    ensures q <= 9 && r < Val(S.words) && Divides(Val(old(b.words)), Val(S.words), q, r)
    ensures !stop ==> dig == q && Val(b.words) == r && Operand(b)
    ensures stop <==> LowInside(r, Val(mlo.words), even) || HighInside(r, Val(S.words), Val(mhi.words), even)
    ensures stop ==> dig == q || dig == q + 1
    ensures stop && dig == q ==> LowInside(r, Val(mlo.words), even)
    ensures stop && dig == q && HighInside(r, Val(S.words), Val(mhi.words), even) ==> 2 * r <= Val(S.words)
    ensures stop && dig > q ==> HighInside(r, Val(S.words), Val(mhi.words), even)
    ensures stop && dig > q && LowInside(r, Val(mlo.words), even) ==>
      2 * r >= Val(S.words) || (even && q == 9 && r + Val(mhi.words) == Val(S.words))
    ensures even && q == 9 && r + Val(mhi.words) == Val(S.words) ==>
      dig == if r == 0 && |S.words| == 1 then 9 else 10
  {
    dig := Quorem(b, S);
    q, r := dig, Val(b.words);
    assert Divides(Val(old(b.words)), Val(S.words), q, r);
    assert Pow(2, 1) == 2;
    hide Val, Divides;
    var j, j1 := CompareRemainder(b, S, mlo, mhi);
    if j1 == 0 && even {
      if dig == 9 {
        return 10, true, q, r;
      }
      if j > 0 {
        dig := dig + 1;
      }
      return dig, true, q, r;
    }
    if j < 0 || (j == 0 && even) {
      if NonZero(b.words) && j1 > 0 {
        b.ShiftLeft(1);
        j1 := b.Compare(S);
        if j1 > 0 || (j1 == 0 && dig % 2 == 1) {
          dig := dig + 1;
        }
      }
      return dig, true, q, r;
    }
    if j1 > 0 {
      return dig + 1, true, q, r;
    }
    return dig, false, q, r;
  }

  /** The digits are the nearest of the shortest, except when 9 is overshot; `kept` says the nine was kept. */
  ghost predicate NearestUnlessNine(I: Interval, d: seq<Digit>, bump: nat, singleWord: bool)
    requires d != []
  {
    forall q: nat, r: nat :: Divides(I.v, I.s, q, r) ==>
      (Closest(I, Num(d) * Pow(10, bump), |d| - 1) <==> !OvershootsNine(I, q, r) || (r == 0 && singleWord))
  }

  /** No first division overshoots nine. */
  ghost predicate NeverOvershoots(I: Interval)
  {
    forall q: nat, r: nat :: Divides(I.v, I.s, q, r) ==> !OvershootsNine(I, q, r)
  }

  lemma FirstProgress(I: Interval)
    requires Proper(I)
    ensures Progress(I, [], I.v, I.lo, I.hi)
  {
  }

  /** The first division is the one of v by s, and that quotient and remainder are unique. */
  lemma FirstDivision(I: Interval, v: nat, lo: nat, hi: nat, q: nat, r: nat)
    requires Proper(I) && Progress(I, [], v, lo, hi) && Divides(v, I.s, q, r)
    ensures v == I.v && lo == I.lo && hi == I.hi
    ensures forall q', r' :: Divides(I.v, I.s, q', r') ==> q' == q && r' == r
  {
    assert Pow(10, 0) == 1 && Num([]) * I.s == 0;
    forall q', r' | Divides(I.v, I.s, q', r')
      ensures q' == q && r' == r
    {
      SameDivision(I.s, q, r, q', r');
    }
  }

  lemma SameDivision(s: nat, q: nat, r: nat, q': nat, r': nat)
    requires s * q + r == s * q' + r' && r < s && r' < s
    ensures q == q' && r == r'
  {
    if q < q' {
      MulMonotone(s, q + 1, q');
    } else if q' < q {
      MulMonotone(s, q' + 1, q);
    }
  }

  /** Neither neighbour is inside: the loop goes on, and a first digit of 9 was not overshot. */
  lemma NotYetShortest(I: Interval, d: seq<Digit>, v: nat, lo: nat, hi: nat, q: nat, r: nat)
    requires Proper(I) && Progress(I, d, v, lo, hi) && Divides(v, I.s, q, r)
    requires !LowInside(r, lo, I.closed) && !HighInside(r, I.s, hi, I.closed)
    requires d != [] ==> NeverOvershoots(I)
    ensures q <= 9 && r < I.s && Progress(I, d + [q], r * 10, lo * 10, hi * 10) && NeverOvershoots(I)
  {
    if d == [] {
      FirstDivision(I, v, lo, hi, q, r);
    }
    hide Within, Progress;
    StoppingTests(I, d, v, lo, hi, q, r);
    GoOn(I, d, v, lo, hi, q, r);
  }

  /** The next decimal place: all three operands move together. */
  method TimesTen(b: BigInt, mlo: BigInt, mhi: BigInt)
    requires Operand(b) && Operand(mlo) && Operand(mhi) && b != mlo && b != mhi && mlo != mhi
    modifies b`words, mlo`words, mhi`words
    ensures Operand(b) && Operand(mlo) && Operand(mhi)
    ensures Val(b.words) == Val(old(b.words)) * 10
    ensures Val(mlo.words) == Val(old(mlo.words)) * 10 && Val(mhi.words) == Val(old(mhi.words)) * 10
  {
    b.MultiAdd(10, 0);
    mlo.MultiAdd(10, 0);
    mhi.MultiAdd(10, 0);
  }

  /** The exits of the loop with a last digit below ten. */
  lemma FinishPlain(I: Interval, d: seq<Digit>, v: nat, lo: nat, hi: nat, q: nat, r: nat, dig: nat)
    requires Proper(I) && Progress(I, d, v, lo, hi) && Divides(v, I.s, q, r) && q <= dig < 10
    requires dig == q ==> LowInside(r, lo, I.closed)
    requires dig == q && HighInside(r, I.s, hi, I.closed) ==> 2 * r <= I.s
    requires dig > q ==> dig == q + 1 && HighInside(r, I.s, hi, I.closed)
    requires dig > q && LowInside(r, lo, I.closed) ==> 2 * r >= I.s
    ensures Shortest(I, d + [dig], 0) && Closest(I, Num(d + [dig]) * Pow(10, 0), |d|)
  {
    hide Within, Closest, Shortest, Progress, Divides, Num;
    StoppingTests(I, d, v, lo, hi, q, r);
    NearestNeighbour(I, 10 * Num(d) + q, |d|, r);
    Emit(I, d, v, lo, hi, q, r, dig);
  }

  /** The exit that rounds a nine up. */
  lemma FinishNine(I: Interval, d: seq<Digit>, v: nat, lo: nat, hi: nat, r: nat)
    requires Proper(I) && Progress(I, d, v, lo, hi) && Divides(v, I.s, 9, r)
    requires HighInside(r, I.s, hi, I.closed)
    requires LowInside(r, lo, I.closed) ==> 2 * r >= I.s || (I.closed && r + hi == I.s)
    ensures d == [] && Shortest(I, [1], 1) && RoundedUp(d + [9]) == ([1], 1)
    ensures v == I.v && (Closest(I, Num([1]) * Pow(10, 1), 0) <==> !OvershootsNine(I, 9, r))
  {
    hide Within, Closest, Shortest, Progress, Divides, Num, Pow, RoundedUp;
    StoppingTests(I, d, v, lo, hi, 9, r);
    EmitNine(I, d, v, lo, hi);
    FirstDivision(I, v, lo, hi, 9, r);
    NumEmpty();
    NearestNeighbour(I, 9, 0, r);
  }

  lemma NumEmpty()
    ensures Num([]) == 0 && RoundedUp([] + [9]) == ([1], 1)
  {
    assert [9][..0] == [] && [] + [9] == [9];
  }

  /** All exits: the result is shortest, and nearest but for the one exception. */
  lemma FinishShortest(I: Interval, d: seq<Digit>, v: nat, lo: nat, hi: nat, q: nat, r: nat, dig: nat, singleWord: bool)
    requires Proper(I) && Progress(I, d, v, lo, hi) && Divides(v, I.s, q, r) && q <= 9 && q <= dig
    requires dig == q ==> LowInside(r, lo, I.closed)
    requires dig == q && HighInside(r, I.s, hi, I.closed) ==> 2 * r <= I.s
    requires dig > q ==> dig == q + 1 && HighInside(r, I.s, hi, I.closed)
    requires dig > q && LowInside(r, lo, I.closed) ==> 2 * r >= I.s || (I.closed && q == 9 && r + hi == I.s)
    requires I.closed && q == 9 && r + hi == I.s ==> dig == if r == 0 && singleWord then 9 else 10
    requires d != [] ==> NeverOvershoots(I)
    ensures dig < 10 ==> Shortest(I, d + [dig], 0) && NearestUnlessNine(I, d + [dig], 0, singleWord)
    ensures dig == 10 ==> RoundedUp(d + [9]) == ([1], 1)
    ensures dig == 10 ==> Shortest(I, [1], 1) && NearestUnlessNine(I, [1], 1, singleWord)
  {
    if d == [] {
      FirstDivision(I, v, lo, hi, q, r);
    }
    hide Within, Closest, Shortest, Progress, Num;
    if dig == 10 {
      FinishNine(I, d, v, lo, hi, r);
    } else {
      FinishPlain(I, d, v, lo, hi, q, r, dig);
    }
  }

  /** A last digit of ten is a nine that is rounded off. */
  method LastDigit(d: seq<Digit>, dig: nat, k: int) returns (digits: seq<Digit>, k': int)
    requires dig <= 10 && (dig == 10 ==> RoundedUp(d + [9]) == ([1], 1))
    ensures if dig == 10 then digits == [1] && k' == k + 1 else digits == d + [dig] && k' == k
  {
    if dig == 10 {
      digits, k' := RoundOff(d + [9], k);
    } else {
      digits, k' := d + [dig], k;
    }
  }

  /**
   * The shortest-digits loop, from already scaled operands. S has a few leading zero bits.
   */
  method ShortestDigits(b: BigInt, S: BigInt, mlo: BigInt, mhi: BigInt, even: bool, k: int)
      returns (digits: seq<Digit>, k': int)
    requires b != S && b != mlo && b != mhi && S != mlo && S != mhi && mlo != mhi
    requires Operand(b) && Operand(mlo) && Operand(mhi) && GoodDivisor(S.words)
    requires S.words[|S.words| - 1] < 0x1000_0000
    requires Proper(IntervalOf(b, S, mlo, mhi, even))
    modifies b, mlo, mhi
    ensures k' >= k && Shortest(old(IntervalOf(b, S, mlo, mhi, even)), digits, k' - k)
    ensures NearestUnlessNine(old(IntervalOf(b, S, mlo, mhi, even)), digits, k' - k, |S.words| == 1)
  {
    ghost var I := IntervalOf(b, S, mlo, mhi, even);
    digits, k' := [], k;
    FirstProgress(I);
    hide Within, Closest, Shortest, Progress, OvershootsNine, Num, NearestUnlessNine, NeverOvershoots,
         RoundedUp, Val, Pow, Divides, Normal;
    var stop := false;
    while !stop
      invariant S.words == old(S.words)
      invariant !stop ==> k' == k && Underway(I, b, S, mlo, mhi, digits)
      invariant stop ==> k' >= k && Shortest(I, digits, k' - k) && NearestUnlessNine(I, digits, k' - k, |S.words| == 1)
      decreases !stop, if Val(mlo.words) < I.s then I.s - Val(mlo.words) else 0
    {
      digits, k', stop := NextPlace(I, b, S, mlo, mhi, even, digits, k');
    }
  }

  /** 370 / 40 with 10 / 40 below and 30 / 40 above: 9 and 10 are the ends of the interval, and 9 is nearer. */
  const OVERSHOT := Interval(370, 40, 10, 30, true)

  lemma OvershotInterval()
    ensures Proper(OVERSHOT) && Divides(370, 40, 9, 10) && OvershootsNine(OVERSHOT, 9, 10)
    ensures Within(OVERSHOT, 9, 0) && Within(OVERSHOT, 10, 0)
    ensures Closest(OVERSHOT, 9, 0) && !Closest(OVERSHOT, 10, 0)
  {
    assert Pow(10, 0) == 1;
    assert Distance(OVERSHOT, 9, 0) == 10 && Distance(OVERSHOT, 10, 0) == 30;
  }

  /** The loop on these operands, which no binary value has, gives shortest digits that are not the nearest. */
  method OvershotRun() returns (digits: seq<Digit>, k: int)
    ensures k >= 0 && Shortest(OVERSHOT, digits, k) && !Closest(OVERSHOT, Num(digits) * Pow(10, k), |digits| - 1)
  {
    OvershotInterval();
    hide Within, Closest, Shortest, Progress, OvershootsNine, Num, Pow, Divides;
    var b := new BigInt(370);
    var S := new BigInt(40);
    var mlo := new BigInt(10);
    var mhi := new BigInt(30);
    digits, k := ShortestDigits(b, S, mlo, mhi, true, 0);
  }

  /** The state of the loop in front of a decimal place. */
  ghost predicate Underway(I: Interval, b: BigInt, S: BigInt, mlo: BigInt, mhi: BigInt, d: seq<Digit>)
    reads b, S, mlo, mhi
  {
    && Operand(b) && Operand(mlo) && Operand(mhi) && Val(S.words) == I.s
    && Progress(I, d, Val(b.words), Val(mlo.words), Val(mhi.words))
    && 0 < Val(mlo.words) <= Val(mhi.words) && Val(b.words) < 10 * I.s
    && (d != [] ==> NeverOvershoots(I))
  }

  method NextPlace(ghost I: Interval, b: BigInt, S: BigInt, mlo: BigInt, mhi: BigInt, even: bool, d: seq<Digit>, k: int)
      returns (digits: seq<Digit>, k': int, stop: bool)
    requires b != S && b != mlo && b != mhi && S != mlo && S != mhi && mlo != mhi
    requires GoodDivisor(S.words) && S.words[|S.words| - 1] < 0x1000_0000 && Proper(I) && I.closed == even
    requires Underway(I, b, S, mlo, mhi, d)
    modifies b, mlo, mhi
    ensures stop ==> k' >= k && Shortest(I, digits, k' - k) && NearestUnlessNine(I, digits, k' - k, |S.words| == 1)
    ensures !stop ==> k' == k && Underway(I, b, S, mlo, mhi, digits)
    ensures !stop ==> old(Val(mlo.words)) < I.s && Val(mlo.words) == 10 * old(Val(mlo.words)) > 0
  {
    hide Within, Closest, Shortest, Progress, OvershootsNine, Num, NearestUnlessNine, NeverOvershoots,
         RoundedUp, Val, Pow, Divides;
    ghost var v, lo, hi := Val(b.words), Val(mlo.words), Val(mhi.words);
    FitsDivisor(b.words, S.words);
    var dig;
    ghost var q, r;
    dig, stop, q, r := NextShortestDigit(b, S, mlo, mhi, even);
    if stop {
      FinishShortest(I, d, v, lo, hi, q, r, dig, |S.words| == 1);
      digits, k' := LastDigit(d, dig, k);
    } else {
      NotYetShortest(I, d, v, lo, hi, q, r);
      digits, k' := d + [dig], k;
      TimesTen(b, mlo, mhi);
    }
  }

  /** A divisor with a small top word: dividends below ten times it are not longer. */
  lemma FitsDivisor(b: seq<Word>, s: seq<Word>)
    requires Normal(b) && GoodDivisor(s) && s[|s| - 1] < 0x1000_0000 && Val(b) < 10 * Val(s)
    ensures |b| <= |s|
  {
    if |b| > |s| {
      LongerIsBigger(s, []);
      ValBound(s);
      TopWord(b);
      TopWord(s);
      PowMonotone(BASE, |s|, |b| - 1);
      var w := Pow(BASE, |s| - 1);
      assert Pow(BASE, |s|) == BASE * w;
      MulMonotone(w, s[|s| - 1] as int + 1, 0x1000_0000);
      MulMonotone(Pow(BASE, |b| - 1), 1, b[|b| - 1]);
    }
  }

  /** Rounding the last place by comparing twice the remainder with S. */
  lemma RoundLastPlace(v: nat, s: nat, d: seq<Digit>, r: nat)
    requires s > 0 && r < s && d != [] && d[0] != 0 && Num(d) * s + r == v * Pow(10, |d| - 1)
    ensures 2 * r >= s ==> RoundedUp(d).1 <= 1 && RoundedTo(v, s, |d|, RoundedUp(d).0, RoundedUp(d).1)
    ensures 2 * r < s ==> RoundedTo(v, s, |d|, WithoutTrailingZeros(d), 0)
  {
    hide RoundsTo, Num, Pow, RoundedUp, WithoutTrailingZeros;
    RoundedUpVal(d);
    RoundedUpLength(d);
    WithoutTrailingZerosVal(d);
    NeighboursRound(v, s, |d| - 1, Num(d), r);
  }

  lemma {:induction false} RoundedUpLength(d: seq<Digit>)
    requires d != []
    ensures |RoundedUp(d).0| <= |d| && RoundedUp(d).1 <= 1
  {
    if |d| > 1 {
      RoundedUpLength(d[..|d| - 1]);
    }
  }

  /**
   * The fixed-precision loop and its round-off: b / S to ilim digits, half up, trailing
   * zeros dropped; a carry out of the first digit adds one to k.
   */
  method FixedDigits(b: BigInt, S: BigInt, ilim: int, k: int) returns (digits: seq<Digit>, k': int)
    requires b != S && Operand(b) && GoodDivisor(S.words) && S.words[|S.words| - 1] < 0x1000_0000
    requires Val(S.words) <= Val(b.words) < 10 * Val(S.words) && ilim >= 1
    modifies b
    ensures k' >= k && RoundedTo(old(Val(b.words)), Val(S.words), ilim, digits, k' - k)
    ensures NearestOrLarger(old(Val(b.words)), Val(S.words), ilim - 1,
                            Num(digits) * Pow(10, ilim - |digits| + (k' - k)))
  {
    ghost var v, s := Val(b.words), Val(S.words);
    LongerIsBigger(S.words, []);
    digits := [];
    FirstRunning(v, s);
    hide Running, RoundedTo, NearestOrLarger, RoundsTo, Val, Pow, Divides, Num;
    var i := 1;
    while true
      invariant i == |digits| + 1 <= ilim && Operand(b) && 0 < Val(b.words) < 10 * s
      invariant Running(v, s, digits, Val(b.words))
      decreases ilim - i
    {
      ghost var before := Val(b.words);
      var done;
      digits, done := NextDigit(b, S, v, digits);
      if done {
        FinishExact(v, s, ilim, digits);
        return digits, k;
      }
      if i >= ilim {
        break;
      }
      b.MultiAdd(10, 0);
      i := i + 1;
    }
    FinishRounded(v, s, digits, Val(b.words));
    PowOne();
    b.ShiftLeft(1);
    var j := b.Compare(S);
    if j >= 0 {
      digits, k' := RoundOff(digits, k);
    } else {
      digits := StripZeros(digits);
      k' := k;
    }
  }

  lemma PowOne()
    ensures Pow(2, 1) == 2
  {
  }

  lemma FirstRunning(v: nat, s: nat)
    requires 0 < s <= v < 10 * s
    ensures Running(v, s, [], v)
  {
  }

  lemma FinishExact(v: nat, s: nat, ilim: nat, d: seq<Digit>)
    requires s > 0 && Significant(d) && |d| <= ilim && Num(d) * s == v * Pow(10, |d| - 1)
    ensures RoundedTo(v, s, ilim, d, 0)
    ensures NearestOrLarger(v, s, ilim - 1, Num(d) * Pow(10, ilim - |d| + 0))
  {
    ExactDigits(v, s, ilim, d);
    HalfUpIsNearest(v, s, ilim - 1, Num(d) * Pow(10, ilim - |d|));
  }

  lemma FinishRounded(v: nat, s: nat, d: seq<Digit>, r: nat)
    requires s > 0 && r < s && d != [] && d[0] != 0 && Num(d) * s + r == v * Pow(10, |d| - 1)
    ensures 2 * r >= s ==>
      var (u, bump) := RoundedUp(d);
      && RoundedTo(v, s, |d|, u, bump) && |u| <= |d|
      && NearestOrLarger(v, s, |d| - 1, Num(u) * Pow(10, |d| - |u| + bump))
    ensures 2 * r < s ==>
      var z := WithoutTrailingZeros(d);
      && RoundedTo(v, s, |d|, z, 0) && |z| <= |d|
      && NearestOrLarger(v, s, |d| - 1, Num(z) * Pow(10, |d| - |z| + 0))
  {
    hide RoundsTo, NearestOrLarger, Num, Pow, RoundedUp, WithoutTrailingZeros;
    RoundLastPlace(v, s, d, r);
    if 2 * r >= s {
      var (u, bump) := RoundedUp(d);
      HalfUpIsNearest(v, s, |d| - 1, Num(u) * Pow(10, |d| - |u| + bump));
    } else {
      var z := WithoutTrailingZeros(d);
      HalfUpIsNearest(v, s, |d| - 1, Num(z) * Pow(10, |d| - |z|));
    }
  }

  /** One digit; `done` when the remainder is zero. */
  method NextDigit(b: BigInt, S: BigInt, ghost v: nat, d: seq<Digit>) returns (d': seq<Digit>, done: bool)
    requires b != S && Operand(b) && GoodDivisor(S.words) && S.words[|S.words| - 1] < 0x1000_0000
    requires 0 < Val(b.words) < 10 * Val(S.words) && Running(v, Val(S.words), d, Val(b.words))
    modifies b`words
    ensures |d'| == |d| + 1 && d'[0] != 0 && Num(d') * Val(S.words) + Val(b.words) == v * Pow(10, |d|)
    ensures done ==> Significant(d') && Val(b.words) == 0
    ensures !done ==> Operand(b) && 0 < Val(b.words) < Val(S.words)
    ensures !done ==> Running(v, Val(S.words), d', Val(b.words) * 10)
  {
    FitsDivisor(b.words, S.words);
    ghost var before := Val(b.words);
    var dig := Quorem(b, S);
    NextFixedDigit(v, Val(S.words), d, before, dig, Val(b.words));
    NonZeroVal(b.words);
    d' := d + [dig];
    done := !NonZero(b.words);
  }

  lemma NonZeroVal(s: seq<Word>)
    requires s == [] || Normal(s)
    ensures NonZero(s) <==> Val(s) > 0
  {
    if s != [] {
      NormalZero(s);
    }
  }
}
