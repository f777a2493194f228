/**
 * Doubles: the two words of one are split into mantissa and exponent, and the shortest
 * conversion of the value they denote is stated in terms of that value alone.
 */
module Doubles {
  import opened Naturals
  import opened Words
  import opened BigNum
  import opened Quotient
  import opened Decimals
  import opened DigitLoops
  import opened Scaling
  import FixedPoint

  // ----- the value as a double -----

  /** m * 2^q is a positive finite double: 53 bits, fewer only at the smallest exponent. */
  predicate IsDouble(m: nat, q: int)
  {
    0 < m < 0x20_0000_0000_0000 && q >= -1074 && (m < 0x10_0000_0000_0000 ==> q == -1074)
  }

  /** A double that is twice as far from the next one as from the one before. */
  predicate IsPowerOfTwo(m: nat, q: int)
  {
    m == 0x10_0000_0000_0000 && q > -1074
  }

  lemma BitLengthUnique(v: nat, n: nat, n': nat)
    requires HasBits(v, n) && HasBits(v, n')
    ensures n == n'
  {
    if n < n' {
      PowMonotone(2, n, n' - 1);
    } else if n' < n {
      PowMonotone(2, n', n - 1);
    }
  }

  lemma DoubleBits(m: nat)
    requires 0x10_0000_0000_0000 <= m < 0x20_0000_0000_0000
    ensures HasBits(m, 53)
  {
    Twos();
    PowAdd(2, 4, 16);
    PowAdd(2, 20, 16);
    PowAdd(2, 36, 16);
  }

  /** The half gap is half a unit of the last place of the double. */
  lemma HalfUnit(m: nat, q: int, c: nat, be: int, bbits: nat, denorm: bool)
    requires IsDouble(m, q) && be >= q && m == c * Pow(2, be - q) && HasBits(c, bbits)
    requires denorm <==> m < 0x10_0000_0000_0000
    ensures be - GapBits(be, bbits, denorm) == q - 1
  {
    if !denorm {
      DoubleBits(m);
      ShiftedBits(c, bbits, be - q);
      BitLengthUnique(m, 53, bbits + (be - q));
    }
  }

  /** An estimate is as good for one way of writing the value as for another. */
  lemma SameEstimate(c: nat, be: int, m: nat, q: int, k: int)
    requires be >= q && m == c * Pow(2, be - q)
    ensures AtLeastTenTo(c, be, k) <==> AtLeastTenTo(m, q, k)
  {
    var a, s := c * (Pow(2, Plus(be)) * Pow(10, Minus(k))), Pow(2, Minus(be)) * Pow(10, Plus(k));
    MulStrict(Pow(2, Minus(be)), 0, Pow(10, Plus(k)));
    assert IsScaled(a, s, c, be, k);
    ScaledLower(a, s, c, be, k, be - q);
    hide IsScaled, AtLeastTenTo;
    ScaledOrder(a, s, c, be, k);
    ScaledOrder(a, s, m, q, k);
  }

  /**
   * d0.d1d2... * 10^k are the shortest digits for m * 2^q, and the nearest of those: I, which is over 10^kk,
   * reaches half a unit of the last place up and down, or half as far down from a power of two.
   */
  ghost predicate ShortestFor(m: nat, q: int, digits: seq<Digit>, k: int, I: Interval, kk: int)
  {
    && (I.closed <==> m % 2 == 0)
    && Represents(I, m, q, kk, if m == 0x10_0000_0000_0000 && q > -1074 then q - 2 else q - 1, q - 1)
    && k >= kk && Shortest(I, digits, k - kk)
    && Closest(I, Num(digits) * Pow(10, k - kk), |digits| - 1)
  }

  /** The whole of the shortest conversion from the logarithm estimate on, for a double split as c * 2^be. */
  method ShortestConversion(b: BigInt, be: int, bbits: nat, denorm: bool, special: bool, even: bool,
                            kEst: int, kCheck: bool, cache: Pow5Cache, ghost m: nat, ghost q: int)
      returns (digits: seq<Digit>, k: int, ghost I: Interval, ghost kk: int)
    requires Operand(b) && cache.Valid() && b !in cache.list
    requires IsDouble(m, q) && be >= q && m == Val(b.words) * Pow(2, be - q) && HasBits(Val(b.words), bbits)
    requires denorm <==> m < 0x10_0000_0000_0000
    requires special <==> IsPowerOfTwo(m, q)
    requires even <==> m % 2 == 0
    requires GoodEstimate(m, q, kEst) && (!kCheck ==> AtLeastTenTo(m, q, kEst))
    modifies b, cache
    ensures cache.Valid() && ShortestFor(m, q, digits, k, I, kk)
  {
    ghost var c := Val(b.words);
    HalfUnit(m, q, c, be, bbits, denorm);
    SameEstimates(c, be, m, q, kEst);
    assert c > 0 by { assert 0 * Pow(2, be - q) == 0; }
    hide *;
    digits, k, I, kk := DigitsFromEstimate(b, be, bbits, denorm, special, even, kEst, kCheck, cache);
    SameValue(I, c, be, m, q, kk, if special then q - 2 else q - 1, q - 1);
  }

  lemma SameEstimates(c: nat, be: int, m: nat, q: int, k: int)
    requires be >= q && m == c * Pow(2, be - q)
    ensures AtLeastTenTo(c, be, k) <==> AtLeastTenTo(m, q, k)
    ensures GoodEstimate(c, be, k) <==> GoodEstimate(m, q, k)
  {
    SameEstimate(c, be, m, q, k - 1);
    SameEstimate(c, be, m, q, k);
    SameEstimate(c, be, m, q, k + 1);
  }

  lemma SameValue(I: Interval, c: nat, be: int, m: nat, q: int, k: int, low: int, high: int)
    requires Represents(I, c, be, k, low, high) && be >= q && m == c * Pow(2, be - q)
    ensures Represents(I, m, q, k, low, high)
  {
    ScaledLower(I.v, I.s, c, be, k, be - q);
  }

  // ----- the words of a double -----

  /** The fields of section 3.4 of IEEE 754: eleven bits of exponent behind the sign, then 52 of fraction. */
  function ExponentField(w0: Word): nat { w0 / 0x10_0000 % 0x800 }

  function Fraction(w0: Word, w1: Word): nat { w0 % 0x10_0000 * 0x1_0000_0000 + w1 }

  /** The denoted value is Significand * 2^LastPlace, with a hidden bit unless the exponent field is zero. */
  function Significand(w0: Word, w1: Word): (m: nat)
    ensures m < 0x20_0000_0000_0000
  {
    (if ExponentField(w0) == 0 then 0 else 0x10_0000_0000_0000) + Fraction(w0, w1)
  }

  function LastPlace(w0: Word): (q: int)
    ensures q >= -1074
  {
    if ExponentField(w0) == 0 then -1074 else ExponentField(w0) - 1075
  }

  lemma DenotesZero(w0: Word, w1: Word)
    ensures Significand(w0, w1) == 0 <==> w0 % 0x8000_0000 == 0 && w1 == 0
  {
  }

  lemma DenotesDouble(w0: Word, w1: Word)
    requires Significand(w0, w1) > 0
    ensures IsDouble(Significand(w0, w1), LastPlace(w0))
    ensures Significand(w0, w1) % 2 == w1 % 2
    ensures Significand(w0, w1) < 0x10_0000_0000_0000 <==> w0 / 0x10_0000 % 0x800 == 0
    ensures IsPowerOfTwo(Significand(w0, w1), LastPlace(w0)) <==>
      w1 == 0 && w0 % 0x10_0000 == 0 && w0 / 0x20_0000 % 0x400 != 0
  {
  }

  /** Number of trailing zero bits; the word is shifted by it. */
  method Low0Bits(word: Word) returns (k: nat, y: Word)
    ensures word == 0 ==> k == 32 && y == 0
    ensures word > 0 ==> k < 32 && y % 2 == 1 && word == y * Pow(2, k)
  {
    if word % 8 != 0 {
      SmallShifts(word);
      hide *;
      if word % 2 != 0 {
        return 0, word;
      }
      if word % 4 != 0 {
        return 1, word / 2;
      }
      return 2, word / 4;
    }
    k, y := CountByHalving(word);
  }

  lemma SmallShifts(word: Word)
    ensures word == word * Pow(2, 0)
    ensures word % 2 == 0 ==> word == word / 2 * Pow(2, 1)
    ensures word % 4 == 0 ==> word == word / 4 * Pow(2, 2)
    ensures word % 4 == 2 ==> word / 2 % 2 == 1
    ensures word % 8 == 4 ==> word / 4 % 2 == 1
  {
    Twos();
  }

  method CountByHalving(word: Word) returns (k: nat, y: Word)
    ensures word == 0 ==> k == 32 && y == 0
    ensures word > 0 ==> k < 32 && y % 2 == 1 && word == y * Pow(2, k)
  {
    Twos();
    hide Pow;
    k, y := HalveOnce(word, word, 0, 16, 0x1_0000);
    k, y := HalveOnce(word, y, k, 8, 0x100);
    k, y := HalveOnce(word, y, k, 4, 0x10);
    k, y := HalveOnce(word, y, k, 2, 4);
    k, y := HalveOnce(word, y, k, 1, 2);
    NothingHalved(y, Pow(2, k));
    if y == 0 {
      k := 32;
    }
  }

  /** If the lowest n bits of what is left are zero, they are shifted out and counted. */
  method HalveOnce(ghost word: Word, x: Word, k: nat, n: nat, p: Word) returns (k': nat, y: Word)
    requires word == x * Pow(2, k) && p == Pow(2, n) && (x % (p * p) == 0 ==> x == 0)
    ensures word == y * Pow(2, k') && k <= k' <= k + n && (y % p == 0 ==> y == 0)
  {
    k', y := k, x;
    if x % p == 0 {
      Halved(word, x, k, n, p);
      SmallerWord(x, p);
      k', y := k + n, x / p;
    }
  }

  lemma NothingHalved(x: nat, p: nat)
    requires p > 0
    ensures x * p == 0 <==> x == 0
  {
  }

  /** The lower half of the bits that may be set is zero and is shifted out. */
  lemma Halved(word: nat, x: nat, k: nat, n: nat, p: nat)
    requires word == x * Pow(2, k) && p == Pow(2, n) && x % p == 0
    ensures word == x / p * Pow(2, k + n)
    ensures (x % (p * p) == 0 ==> x == 0) ==> x / p % p == 0 ==> x == 0
  {
    PowAdd(2, k, n);
    var h := x / p;
    assert x == p * h;
    Assoc(h, p, Pow(2, k));
    if h % p == 0 {
      hide Pow;
      HalvedAgain(x, h / p, p);
    }
  }

  lemma HalvedAgain(x: nat, q: nat, p: nat)
    requires x == p * (p * q) && p > 0
    ensures p * p > 0 && x % (p * p) == 0
  {
    MulStrict(p, 0, p);
    Assoc(p, p, q);
    DivModUnique(x, p * p, q, 0);
  }

  /** Splits a double that is not zero into an odd number and an exponent, with the number of bits. */
  method SplitDouble(w0: Word, w1: Word) returns (b: BigInt, be: int, bbits: nat)
    requires Significand(w0, w1) > 0
    ensures fresh(b) && Operand(b) && be >= LastPlace(w0)
    ensures Significand(w0, w1) == Val(b.words) * Pow(2, be - LastPlace(w0)) && HasBits(Val(b.words), bbits)
  {
    var z: Word := w0 % 0x10_0000;
    var de := w0 % 0x8000_0000 / 0x10_0000;
    if de != 0 {
      z := z + 0x10_0000;
    }
    assert de == ExponentField(w0) && Significand(w0, w1) == z * 0x1_0000_0000 + w1;
    ghost var m := Significand(w0, w1);
    var k;
    b, k := Shifted(z, w1);
    if de != 0 {
      be := de - 1023 - 52 + k;
      DoubleBits(m);
      BitsLess(Val(b.words), k, 53);
      bbits := 53 - k;
    } else {
      be := de - 1023 - 52 + 1 + k;
      var top := b.words[|b.words| - 1];
      NonZero(b.words, k);
      var zeros := Hi0Bits(top);
      BitsOfWord(top, zeros);
      BitsFromTop(b.words, 32 - zeros);
      bbits := 32 * |b.words| - zeros;
    }
  }

  lemma NonZero(w: seq<Word>, k: nat)
    requires Normal(w) && Val(w) * Pow(2, k) > 0
    ensures w[|w| - 1] != 0
  {
    NothingHalved(Val(w), Pow(2, k));
    LeadingNonZero(w);
  }

  lemma BitsLess(v: nat, k: nat, n: nat)
    requires HasBits(v * Pow(2, k), n)
    ensures k < n && HasBits(v, n - k)
  {
    NothingHalved(v, Pow(2, k));
    AtLeastOnce(v, Pow(2, k));
    if k < n {
      PowAdd(2, n - k, k);
      PowAdd(2, n - k - 1, k);
      hide Pow;
      CancelBounds(v, Pow(2, k), Pow(2, n - k - 1), Pow(2, n - k));
    } else {
      PowMonotone(2, n, k);
    }
  }

  lemma AtLeastOnce(v: nat, p: nat)
    ensures v > 0 ==> v * p >= p
  {
    if v > 0 {
      MulMonotone(p, 1, v);
    }
  }

  /** The two words without the zero bits below. */
  method Shifted(z: Word, w1: Word) returns (b: BigInt, k: nat)
    requires z < 0x20_0000 && (z > 0 || w1 > 0)
    ensures fresh(b) && Operand(b) && Val(b.words) * Pow(2, k) == z * 0x1_0000_0000 + w1
  {
    b := new BigInt(0);
    if w1 != 0 {
      b.words, k := BothWords(z, w1);
    } else {
      var x;
      k, x := Low0Bits(z);
      b.words := [x];
      WholeWord(x, k);
      k := k + 32;
    }
  }

  lemma WholeWord(x: Word, k: nat)
    ensures Val([x]) == x && x * Pow(2, k + 32) == x * Pow(2, k) * BASE
  {
    PowAdd(2, k, 32);
    PowWord();
    hide Pow;
    Assoc(x, Pow(2, k), BASE);
    assert [x][1..] == [];
  }

  method BothWords(z: Word, w1: Word) returns (words: seq<Word>, k: nat)
    requires z < 0x20_0000 && w1 > 0
    ensures Normal(words) && Val(words) * Pow(2, k) == z * BASE + w1
  {
    var y;
    k, y := Low0Bits(w1);
    var low, rest := y, z;
    if k != 0 {
      low, rest := ShiftedWord(z, y, k);
    } else {
      One();
    }
    WordsValue(z, y, k, low, rest);
    hide *;
    words := if rest != 0 then [low, rest] else [low];
  }

  /** The low word takes in the bits that leave the high one. */
  method ShiftedWord(z: Word, y: Word, k: nat) returns (low: Word, rest: Word)
    requires 0 < k < 32 && y * Pow(2, k) < BASE
    ensures low == (z * Pow(2, 32 - k)) % BASE + y && rest == z / Pow(2, k)
  {
    LowPart(y, k);
    SmallerWord(z, Pow(2, k));
    low, rest := ShlLow(z, 32 - k, y), z / Pow(2, k);
  }

  lemma WordsValue(z: Word, y: Word, k: nat, low: Word, rest: Word)
    requires k < 32 && rest == z / Pow(2, k) && low == if k == 0 then y else (z * Pow(2, 32 - k)) % BASE + y
    ensures var w := if rest != 0 then [low, rest] else [low];
      Normal(w) && Val(w) * Pow(2, k) == z * BASE + y * Pow(2, k)
  {
    var w := if rest != 0 then [low, rest] else [low];
    ShiftedValue(z, y * Pow(2, k), y, k, rest, w);
  }

  lemma SmallerWord(z: nat, p: nat)
    requires p > 0
    ensures z / p <= z
  {
    DivideWord(z, p);
    MulMonotone(z / p, 1, p);
  }

  lemma LowPart(y: Word, k: nat)
    requires 0 < k < 32 && y * Pow(2, k) < BASE
    ensures y < Pow(2, 32 - k)
  {
    PowAdd(2, 32 - k, k);
    PowWord();
    hide Pow;
    LowPartBy(y, Pow(2, k), Pow(2, 32 - k));
  }

  lemma LowPartBy(y: nat, p: nat, r: nat)
    requires r * p == BASE && y * p < BASE
    ensures y < r
  {
    if y >= r {
      MulMonotone(p, r, y);
    }
  }

  lemma ShiftedValue(z: Word, w1: nat, y: Word, k: nat, rest: Word, w: seq<Word>)
    requires k < 32 && w1 == y * Pow(2, k) && rest == z / Pow(2, k)
    requires w != [] && w[0] == (if k == 0 then y else (z * Pow(2, 32 - k)) % BASE + y) && w[1..] == if rest == 0 then [] else [rest]
    ensures Val(w) * Pow(2, k) == z * BASE + w1
  {
    OneWordMore(w, rest);
    var p := Pow(2, k);
    hide Val;
    if k == 0 {
      assert p == 1;
    } else {
      ShiftSplit(z, 32 - k);
      PowAdd(2, 32 - k, k);
      PowWord();
      hide Pow;
      DivideWord(z, p);
      Together(z, z % p, rest, p, Pow(2, 32 - k), y);
    }
  }

  lemma DivideWord(z: nat, p: nat)
    requires p > 0
    ensures z == p * (z / p) + z % p
  {
  }

  lemma OneWordMore(w: seq<Word>, rest: Word)
    requires w != [] && w[1..] == if rest == 0 then [] else [rest]
    ensures Val(w) == w[0] + BASE * rest
  {
    assert [rest][1..] == [] && Val([rest]) == rest;
    if rest == 0 {
      assert Val(w[1..]) == 0;
    }
  }

  lemma Together(z: nat, low: nat, rest: nat, p: nat, r: nat, y: nat)
    requires z == p * rest + low && r * p == BASE
    ensures (low * r + y + BASE * rest) * p == z * BASE + y * p
  {
    assert (low * r) * p == low * BASE by { Assoc(low, r, p); }
    assert (BASE * rest) * p == (p * rest) * BASE;
    assert (low * r + y + BASE * rest) * p == (low * r) * p + y * p + (BASE * rest) * p;
  }

  /** The shortest conversion of the double in the words w0 and w1. */
  method ShortestOfWords(w0: Word, w1: Word, kEst: int, kCheck: bool, cache: Pow5Cache)
      returns (negative: bool, digits: seq<Digit>, k: int, ghost I: Interval, ghost kk: int)
    requires ExponentField(w0) < 0x7FF && cache.Valid()
    requires Significand(w0, w1) > 0 ==>
      && GoodEstimate(Significand(w0, w1), LastPlace(w0), kEst)
      && (!kCheck ==> AtLeastTenTo(Significand(w0, w1), LastPlace(w0), kEst))
    modifies cache
    ensures cache.Valid()
    ensures Significand(w0, w1) == 0 ==> !negative && digits == [0] && k == 0
    ensures Significand(w0, w1) > 0 ==>
      var m, q := Significand(w0, w1), LastPlace(w0);
      (negative <==> w0 >= 0x8000_0000) && ShortestFor(m, q, digits, k, I, kk)
  {
    hide *;
    negative, digits, k, I, kk := false, [0], 0, Interval(0, 0, 0, 0, false), 0;
    DenotesZero(w0, w1);
    if w0 % 0x8000_0000 != 0 || w1 != 0 {
      DenotesDouble(w0, w1);
      var denorm := w0 / 0x10_0000 % 0x800 == 0;
      var special := w1 == 0 && w0 % 0x10_0000 == 0 && w0 / 0x20_0000 % 0x400 != 0;
      var even := w1 % 2 == 0;
      ghost var m, q := Significand(w0, w1), LastPlace(w0);
      negative := w0 >= 0x8000_0000;
      digits, k, I, kk := ConvertWords(w0, w1, denorm, special, even, kEst, kCheck, cache, m, q);
    }
  }

  method ConvertWords(w0: Word, w1: Word, denorm: bool, special: bool, even: bool,
                      kEst: int, kCheck: bool, cache: Pow5Cache, ghost m: nat, ghost q: int)
      returns (digits: seq<Digit>, k: int, ghost I: Interval, ghost kk: int)
    requires cache.Valid() && m == Significand(w0, w1) > 0 && q == LastPlace(w0) && IsDouble(m, q)
    requires denorm <==> m < 0x10_0000_0000_0000
    requires special <==> IsPowerOfTwo(m, q)
    requires even <==> m % 2 == 0
    requires GoodEstimate(m, q, kEst) && (!kCheck ==> AtLeastTenTo(m, q, kEst))
    modifies cache
    ensures cache.Valid() && ShortestFor(m, q, digits, k, I, kk)
  {
    hide Represents, Shortest, Closest, Significand, LastPlace, IsDouble, IsPowerOfTwo, GoodEstimate, AtLeastTenTo, Val, HasBits, Pow, Num;
    var b, be, bbits := SplitDouble(w0, w1);
    digits, k, I, kk := ShortestConversion(b, be, bbits, denorm, special, even, kEst, kCheck, cache, m, q);
  }

  // ----- the fixed conversion of a double -----

  /** What is nearest, or the larger of two, is rounded half up. */
  lemma NearestIsRounded(x: nat, d: nat, n: nat)
    requires d > 0 && NearestOrLarger(x, d, 0, n)
    ensures 2 * (n * d) <= 2 * x + d && 2 * x < 2 * (n * d) + d
  {
    assert x * Pow(10, 0) == x;
    assert GridDistanceTo(x, d, 0, n) < GridDistanceTo(x, d, 0, n + 1);
    assert (n + 1) * d == n * d + d;
    if n > 0 {
      assert GridDistanceTo(x, d, 0, n) <= GridDistanceTo(x, d, 0, n - 1);
      assert (n - 1) * d == n * d - d;
    }
  }

  /** Rounding does not depend on how the value is written. */
  lemma SameNearest(c: nat, be: int, m: nat, q: int, u: int, n: nat)
    requires be >= q && m == c * Pow(2, be - q) && FixedPoint.NearestMultiple(c, be, u, n)
    ensures FixedPoint.NearestMultiple(m, q, u, n)
  {
    var a, s := FixedPoint.Above(c, be, u), FixedPoint.Below(be, u);
    MulStrict(Pow(2, Minus(be)), 0, Pow(10, Plus(u)));
    assert IsScaled(a, s, c, be, u);
    NearestIsRounded(a, s, n);
    ScaledLower(a, s, c, be, u, be - q);
    hide *;
    FixedPoint.QuotientRounds(a, s, m, q, u, n);
  }

  /** n units of 10^u are what is written for m * 2^q, with so many decimal places or significant figures. */
  ghost predicate FixedFor(m: nat, q: int, mode: FixedPoint.Mode, ndigits: int, digits: seq<Digit>, k: int, u: int, n: nat)
  {
    && FixedPoint.NearestMultiple(m, q, u, n) && FixedPoint.Writes(digits, k, u, n)
    && (mode == FixedPoint.DECIMAL_PLACES ==> u == -ndigits)
    && (mode == FixedPoint.SIGNIFICANT_FIGURES ==>
          var top := u + (if ndigits <= 0 then 1 else ndigits) - 1;
          AtLeastTenTo(m, q, top) && !AtLeastTenTo(m, q, top + 1))
  }

  /** The fixed conversion of the double in the words w0 and w1. */
  method FixedOfWords(w0: Word, w1: Word, mode: FixedPoint.Mode, ndigits: int, kEst: int, kCheck: bool, cache: Pow5Cache)
      returns (negative: bool, digits: seq<Digit>, k: int, ghost u: int, ghost n: nat)
    requires ExponentField(w0) < 0x7FF && cache.Valid()
    requires Significand(w0, w1) > 0 ==>
      && GoodEstimate(Significand(w0, w1), LastPlace(w0), kEst)
      && (!kCheck ==> AtLeastTenTo(Significand(w0, w1), LastPlace(w0), kEst))
    modifies cache
    ensures cache.Valid()
    ensures Significand(w0, w1) == 0 ==> !negative && digits == [0] && k == 0
    ensures Significand(w0, w1) > 0 ==>
      (negative <==> w0 >= 0x8000_0000) && FixedFor(Significand(w0, w1), LastPlace(w0), mode, ndigits, digits, k, u, n)
  {
    hide *;
    negative, digits, k, u, n := false, [0], 0, 0, 0;
    DenotesZero(w0, w1);
    if w0 % 0x8000_0000 != 0 || w1 != 0 {
      ghost var m, q := Significand(w0, w1), LastPlace(w0);
      negative := w0 >= 0x8000_0000;
      digits, k, u, n := FixWords(w0, w1, mode, ndigits, kEst, kCheck, cache, m, q);
    }
  }

  method FixWords(w0: Word, w1: Word, mode: FixedPoint.Mode, ndigits: int,
                  kEst: int, kCheck: bool, cache: Pow5Cache, ghost m: nat, ghost q: int)
      returns (digits: seq<Digit>, k: int, ghost u: int, ghost n: nat)
    requires cache.Valid() && m == Significand(w0, w1) > 0 && q == LastPlace(w0)
    requires GoodEstimate(m, q, kEst) && (!kCheck ==> AtLeastTenTo(m, q, kEst))
    modifies cache
    ensures cache.Valid() && FixedFor(m, q, mode, ndigits, digits, k, u, n)
  {
    hide Significand, LastPlace, GoodEstimate, AtLeastTenTo, Val, HasBits, Pow, FixedPoint.NearestMultiple, FixedPoint.Writes;
    var b, be, bbits := SplitDouble(w0, w1);
    ghost var c := Val(b.words);
    SameEstimates(c, be, m, q, kEst);
    NothingHalved(c, Pow(2, be - q));
    digits, k, u, n := FixedPoint.FixedConversion(b, be, mode, ndigits, kEst, kCheck, cache);
    SameNearest(c, be, m, q, u, n);
    ghost var top := u + (if ndigits <= 0 then 1 else ndigits) - 1;
    SameEstimate(c, be, m, q, top);
    SameEstimate(c, be, m, q, top + 1);
  }

  // ----- the ends of the interval are the midpoints to the neighbours -----

  /** m * 2^q in units of 2^-1076, a quarter of the smallest double. */
  function Units(m: nat, q: int): nat
    requires q >= -1076
  {
    m * Pow(2, q + 1076)
  }

  /** Between m * 2^q and (m + 1) * 2^q there is no double, nor between m * 2^q and the one before. */
  lemma NoDoubleBetween(m: nat, q: int, m': nat, q': int)
    requires IsDouble(m, q) && IsDouble(m', q')
    ensures Units(m', q') > Units(m, q) ==> Units(m', q') >= Units(m + 1, q)
    ensures Units(m', q') < Units(m, q) ==>
      Units(m', q') <= if IsPowerOfTwo(m, q) then Units(2 * m - 1, q - 1) else Units(m - 1, q)
  {
    if q' >= q {
      var p, u := Pow(2, q' - q), Pow(2, q + 1076);
      PowAdd(2, q' - q, q + 1076);
      Assoc(m', p, u);
      assert q > -1076 && u == 2 * Pow(2, q + 1075);
      CoarserApart(m, m' * p, u, Pow(2, q + 1075));
    } else {
      var p, u := Pow(2, q - 1 - q'), Pow(2, q' + 1076);
      PowAdd(2, q - 1 - q', q' + 1076);
      assert Pow(2, q + 1076) == 2 * Pow(2, q + 1075) == 2 * (p * u);
      MulMonotone(u, 1, p);
      FinerApart(m, m', u, p * u, 0x10_0000_0000_0000);
    }
  }

  lemma CoarserApart(m: nat, n: nat, u: nat, half: nat)
    requires u == 2 * half && half > 0 && m > 0
    ensures n * u > m * u ==> n * u >= (m + 1) * u
    ensures n * u < m * u ==> n * u <= (m - 1) * u <= (2 * m - 1) * half
  {
    if n > m {
      MulMonotone(u, m + 1, n);
    } else if n < m {
      MulMonotone(u, n, m - 1);
    }
    OneLess(m, half);
  }

  lemma OneLess(m: int, half: nat)
    ensures (m - 1) * (2 * half) == m * (2 * half) - 2 * half
    ensures (2 * m - 1) * half == m * (2 * half) - half
    ensures (m + 1) * (2 * half) == m * (2 * half) + 2 * half
  {
  }

  lemma FinerApart(m: nat, m': nat, u: nat, half: nat, least: nat)
    requires 0 < u <= half && m' < 2 * least && m >= least
    ensures m' * u < m * (2 * half)
    ensures m' * u <= if m == least then (2 * m - 1) * half else (m - 1) * (2 * half)
  {
    MulMonotone(m', u, half);
    OneLess(m, half);
    if m == least {
      MulMonotone(half, m', 2 * m - 1);
    } else {
      MulMonotone(half, m', 2 * (m - 1));
      Twofold(m - 1, half);
    }
  }

  /** Half a unit above, and half or a quarter of a unit below, lie the midpoints to those neighbours. */
  lemma Midpoints(m: nat, q: int)
    requires IsDouble(m, q)
    ensures 2 * (Units(m, q) + Units(1, q - 1)) == Units(m, q) + Units(m + 1, q)
    ensures IsPowerOfTwo(m, q) ==> 2 * (Units(m, q) - Units(1, q - 2)) == Units(m, q) + Units(2 * m - 1, q - 1)
    ensures !IsPowerOfTwo(m, q) ==> 2 * (Units(m, q) - Units(1, q - 1)) == Units(m, q) + Units(m - 1, q)
  {
    var half := Pow(2, q + 1075);
    assert Pow(2, q + 1076) == 2 * half && half == 2 * Pow(2, q + 1074);
    hide Pow;
    OneLess(m, half);
  }
}
