/**
 * From a binary floating-point value to the scaled operands of the digit loops: the powers
 * of 2 and 5 are distributed so that b / S is the value over 10^k, exactly, and mlo / S and
 * mhi / S are half the gaps to its neighbours.
 */
module Scaling {
  import opened Naturals
  import opened Words
  import opened BigNum
  import opened Quotient
  import opened Decimals
  import opened DigitLoops

  function Plus(z: int): nat { if z > 0 then z else 0 }

  function Minus(z: int): nat { if z < 0 then -z else 0 }

  /** a / s == c * 2^e / 10^k, without fractions. */
  ghost predicate IsScaled(a: nat, s: nat, c: nat, e: int, k: int)
  {
    a * (Pow(2, Minus(e)) * Pow(10, Plus(k))) == s * (c * (Pow(2, Plus(e)) * Pow(10, Minus(k))))
  }

  /** c * 2^e >= 10^k. */
  ghost predicate AtLeastTenTo(c: nat, e: int, k: int)
  {
    c * (Pow(2, Plus(e)) * Pow(10, Minus(k))) >= Pow(2, Minus(e)) * Pow(10, Plus(k))
  }

  function Mono(c: nat, x: nat, y: nat): nat
  {
    c * (Pow(2, x) * Pow(5, y))
  }

  lemma MonoMul(c: nat, x: nat, y: nat, x': nat, y': nat)
    ensures Mono(c, x, y) * (Pow(2, x') * Pow(5, y')) == Mono(c, x + x', y + y')
  {
    PowAdd(2, x, x');
    PowAdd(5, y, y');
    Shuffle(Pow(2, x), Pow(5, y), Pow(2, x'), Pow(5, y'));
    assert (Pow(2, x) * Pow(5, y)) * (Pow(2, x') * Pow(5, y')) == Pow(2, x + x') * Pow(5, y + y');
    Assoc(c, Pow(2, x) * Pow(5, y), Pow(2, x') * Pow(5, y'));
  }

  lemma TenTo(x: nat, z: nat)
    ensures Pow(2, x) * Pow(10, z) == Pow(2, x + z) * Pow(5, z)
  {
    PowMul(2, 5, z);
    PowAdd(2, x, z);
    Assoc(Pow(2, x), Pow(2, z), Pow(5, z));
  }

  /** Two monomials whose exponents differ by the exponents of the value are in its ratio. */
  lemma MonoScaled(c: nat, x: nat, y: nat, s2: nat, s5: nat, e: int, k: int)
    requires x - s2 == e - k && y - s5 == -k
    ensures IsScaled(Mono(c, x, y), Mono(1, s2, s5), c, e, k)
  {
    TenTo(Minus(e), Plus(k));
    TenTo(Plus(e), Minus(k));
    hide Pow;
    MonoOne(s2, s5);
    MonoOfTens(c, Plus(e), Minus(k));
    hide Mono;
    MonoMul(c, x, y, Minus(e) + Plus(k), Plus(k));
    MonoMul(c, Plus(e) + Minus(k), Minus(k), s2, s5);
  }

  lemma MonoOne(x: nat, y: nat)
    ensures Mono(1, x, y) == Pow(2, x) * Pow(5, y)
  {
  }

  lemma MonoOfTens(c: nat, x: nat, z: nat)
    ensures c * (Pow(2, x) * Pow(10, z)) == Mono(c, x + z, z)
  {
    TenTo(x, z);
  }

  lemma ScaledOrder(a: nat, s: nat, c: nat, e: int, k: int)
    requires IsScaled(a, s, c, e, k) && s > 0
    ensures a >= s <==> AtLeastTenTo(c, e, k)
  {
    var p := Pow(2, Minus(e)) * Pow(10, Plus(k));
    var q := c * (Pow(2, Plus(e)) * Pow(10, Minus(k)));
    MulStrict(Pow(2, Minus(e)), 0, Pow(10, Plus(k)));
    CrossOrder(a, s, p, q);
  }

  lemma CrossOrder(a: nat, s: nat, p: nat, q: nat)
    requires a * p == s * q && s > 0 && p > 0
    ensures a >= s <==> q >= p
  {
    if a >= s && q < p {
      MulStrict(s, q, p);
      MulMonotone(p, s, a);
    } else if a < s && q >= p {
      MulStrict(p, a, s);
      MulMonotone(s, p, q);
    }
  }

  /** Lowering k by one multiplies the ratio by ten. */
  lemma ScaledTen(a: nat, s: nat, c: nat, e: int, k: int)
    requires IsScaled(a, s, c, e, k)
    ensures IsScaled(a * 10, s, c, e, k - 1)
    ensures IsScaled(a, s * 10, c, e, k + 1)
  {
    TenShift(Pow(2, Minus(e)), k - 1);
    TenShift(Pow(2, Plus(e)), -k);
    TenShift(Pow(2, Minus(e)), k);
    TenShift(Pow(2, Plus(e)), -k - 1);
    TenCross(a, s, c, Pow(2, Minus(e)) * Pow(10, Plus(k)), Pow(2, Plus(e)) * Pow(10, Minus(k)));
    if k > 0 {
      TenCrossLow(a, s, c, Pow(2, Minus(e)) * Pow(10, Plus(k - 1)), Pow(2, Plus(e)) * Pow(10, Minus(k)));
    }
    if k < 0 {
      TenCrossHigh(a, s, c, Pow(2, Minus(e)) * Pow(10, Plus(k)), Pow(2, Plus(e)) * Pow(10, Minus(k + 1)));
    }
  }

  lemma TenShift(x: nat, k: int)
    ensures k >= 0 ==> x * Pow(10, Plus(k + 1)) == 10 * (x * Pow(10, Plus(k)))
    ensures k < 0 ==> Plus(k + 1) == Plus(k) == 0
  {
    if k >= 0 {
      Rotate(x, Pow(10, k), 10);
    }
  }

  lemma TenCross(a: nat, s: nat, c: nat, p: nat, q: nat)
    requires a * p == s * (c * q)
    ensures (a * 10) * p == s * (c * (10 * q)) && a * (10 * p) == (s * 10) * (c * q)
  {
    assert c * (10 * q) == 10 * (c * q);
  }

  lemma TenCrossLow(a: nat, s: nat, c: nat, p: nat, q: nat)
    requires a * (10 * p) == s * (c * q)
    ensures (a * 10) * p == s * (c * q)
  {
  }

  lemma TenCrossHigh(a: nat, s: nat, c: nat, p: nat, q: nat)
    requires a * p == s * (c * (10 * q))
    ensures a * p == (s * 10) * (c * q)
  {
    assert c * (10 * q) == 10 * (c * q);
  }

  // ----- the divisor's leading zero bits -----

  lemma Doubled(word: nat, x: nat, k: nat, n: nat)
    requires x == word * Pow(2, k)
    ensures x * Pow(2, n) == word * Pow(2, k + n)
  {
    PowAdd(2, k, n);
    Assoc(word, Pow(2, k), Pow(2, n));
  }

  lemma Twos()
    ensures Pow(2, 0) == 1 && Pow(2, 1) == 2 && Pow(2, 2) == 4 && Pow(2, 4) == 0x10 && Pow(2, 8) == 0x100
    ensures Pow(2, 16) == 0x1_0000 && Pow(2, 31) == 0x8000_0000
  {
    assert Pow(2, 4) == 0x10;
    PowAdd(2, 4, 4);
    PowAdd(2, 8, 8);
    PowWord();
  }

  /** Number of leading zero bits, by halving. */
  method Hi0Bits(word: Word) returns (k: nat)
    ensures word == 0 ==> k == 32
    ensures word > 0 ==> k < 32 && Pow(2, 31 - k) <= word < Pow(2, 32 - k)
  {
    Twos();
    hide Pow;
    var x := word;
    k := 0;
    if x < 0x1_0000 {
      Doubled(word, x, k, 16);
      k := 16;
      x := x * 0x1_0000;
    }
    if x < 0x100_0000 {
      Doubled(word, x, k, 8);
      k := k + 8;
      x := x * 0x100;
    }
    if x < 0x1000_0000 {
      Doubled(word, x, k, 4);
      k := k + 4;
      x := x * 0x10;
    }
    if x < 0x4000_0000 {
      Doubled(word, x, k, 2);
      k := k + 2;
      x := x * 4;
    }
    if x < 0x8000_0000 {
      Doubled(word, x, k, 1);
      k := k + 1;
      if x < 0x4000_0000 {
        return 32;
      }
      BitsOf(word, x * 2, k);
    } else {
      BitsOf(word, x, k);
    }
  }

  lemma BitsOf(word: Word, x: nat, k: nat)
    requires x == word * Pow(2, k) && 0x8000_0000 <= x < BASE && k < 32
    ensures Pow(2, 31 - k) <= word < Pow(2, 32 - k)
  {
    PowAdd(2, 31 - k, k);
    PowAdd(2, 32 - k, k);
    Twos();
    PowWord();
    CancelBounds(word, Pow(2, k), Pow(2, 31 - k), Pow(2, 32 - k));
  }

  lemma CancelBounds(w: nat, p: nat, lo: nat, hi: nat)
    requires lo * p <= w * p < hi * p
    ensures lo <= w < hi
  {
    if w < lo {
      MulStrict(p, w, lo);
    }
    if w >= hi {
      MulMonotone(p, hi, w);
    }
  }

  /** The bit length of a number and the bit length of its top word. */
  ghost predicate HasBits(v: nat, n: nat)
  {
    n > 0 && Pow(2, n - 1) <= v < Pow(2, n)
  }

  lemma BitsFromTop(w: seq<Word>, t: nat)
    requires w != [] && HasBits(w[|w| - 1], t)
    ensures HasBits(Val(w), 32 * (|w| - 1) + t)
  {
    var n := |w| - 1;
    TopWord(w);
    PowBase(n);
    PowAdd(2, 32 * n, t);
    PowAdd(2, 32 * n, t - 1);
    MulMonotone(Pow(2, 32 * n), Pow(2, t - 1), w[n]);
    MulMonotone(Pow(2, 32 * n), w[n] as int + 1, Pow(2, t));
  }

  lemma ShiftedBits(v: nat, n: nat, k: nat)
    requires HasBits(v, n)
    ensures HasBits(v * Pow(2, k), n + k)
  {
    PowAdd(2, n, k);
    PowAdd(2, n - 1, k);
    ScaleBounds(Pow(2, n - 1), v, Pow(2, n), Pow(2, k));
  }

  lemma ScaleBounds(lo: nat, v: nat, hi: nat, p: nat)
    requires lo <= v < hi && p > 0
    ensures lo * p <= v * p < hi * p
  {
    MulMonotone(p, lo, v);
    MulStrict(p, v, hi);
  }

  /** When the bit length is 28 modulo 32, the top word has exactly four leading zeros. */
  lemma FourLeadingZeros(w: seq<Word>, n: nat)
    requires w != [] && w[|w| - 1] != 0 && HasBits(Val(w), n) && n % 32 == 28
    ensures 0x800_0000 <= w[|w| - 1] < 0x1000_0000
  {
    var q, m, top := |w| - 1, n / 32, w[|w| - 1];
    var unit := Pow(2, 32 * q);
    TopWord(w);
    PowBase(q);
    PowAdd(2, 32 * q, 32);
    PowWord();
    MulMonotone(unit, 1, top);
    MulMonotone(unit, top as int + 1, BASE);
    if n <= 32 * q {
      PowMonotone(2, n, 32 * q);
    } else if n - 1 >= 32 * q + 32 {
      PowMonotone(2, 32 * q + 32, n - 1);
    }
    assert q == m;
    PowAdd(2, 32 * q, 27);
    PowAdd(2, 32 * q, 28);
    TopWordBits(unit, Val(w), top);
  }

  lemma TopWordBits(unit: nat, v: nat, top: nat)
    requires unit > 0 && unit * top <= v < unit * (top + 1)
    requires unit * Pow(2, 27) <= v < unit * Pow(2, 28)
    ensures 0x800_0000 <= top < 0x1000_0000
  {
    PowAdd(2, 27, 4);
    PowAdd(2, 28, 4);
    Twos();
    if top + 1 <= Pow(2, 27) {
      MulMonotone(unit, top + 1, Pow(2, 27));
    }
    if top >= Pow(2, 28) {
      MulMonotone(unit, Pow(2, 28), top);
    }
  }

  /** The shift that leaves the divisor's top word with four leading zero bits. */
  method NormalizingShift(topBits: nat, s2: nat) returns (i: nat)
    ensures (topBits + s2 + i) % 32 == 28 && i < 32
  {
    i := (topBits + s2) % 32;
    if i != 0 {
      i := 32 - i;
    }
    if i > 4 {
      i := i - 4;
    } else if i < 4 {
      i := i + 28;
    } else {
      i := 0;
    }
  }

  // ----- setting up the operands of the shortest-digits loop -----

  /** Distance in bits from the value's lowest set bit down to half a unit in the last place. */
  function GapBits(be: int, bbits: int, denorm: bool): int
  {
    if denorm then be + 1075 else 54 - bbits
  }

  /** Exponents of 2 and 5 for b (b2, b5), for the half gap (m2, b5) and for S (s2, s5). */
  method Exponents(be: int, k: int, gap: nat, special: bool)
      returns (b2: nat, m2: nat, s2: nat, b5: nat, s5: nat)
    ensures b2 - s2 == be - k && b5 - s5 == -k && (b5 == 0 || s5 == 0)
    ensures m2 - s2 == be - k - gap - (if special then 1 else 0)
  {
    var j := -be;
    var x2, y2: int;
    if j >= 0 {
      x2, y2 := 0, j;
    } else {
      x2, y2 := -j, 0;
    }
    if k >= 0 {
      b5, s5 := 0, k;
      y2 := y2 + k;
    } else {
      x2 := x2 - k;
      b5, s5 := -k, 0;
    }
    var z2 := x2;
    x2, y2 := x2 + gap, y2 + gap;
    if z2 > 0 && y2 > 0 {
      var i := if z2 < y2 then z2 else y2;
      x2, z2, y2 := x2 - i, z2 - i, y2 - i;
    }
    if special {
      x2, y2 := x2 + 1, y2 + 1;
    }
    b2, m2, s2 := x2, z2, y2;
  }

  lemma MonoTwo(c: nat, x: nat, y: nat, n: nat)
    ensures Mono(c, x, y) * Pow(2, n) == Mono(c, x + n, y)
  {
    MonoMul(c, x, y, n, 0);
  }

  lemma MonoFive(c: nat, y: nat)
    ensures c * Pow(5, y) == Mono(c, 0, y)
  {
  }

  lemma MonoPositive(c: nat, x: nat, y: nat)
    requires c > 0
    ensures Mono(c, x, y) > 0
  {
    MulStrict(Pow(2, x), 0, Pow(5, y));
    MulStrict(c, 0, Pow(2, x) * Pow(5, y));
  }

  /** S before its shift, 5^s5, with the bit length of its top word. */
  method PowerOfFive(s5: nat, cache: Pow5Cache) returns (S: BigInt, topBits: nat)
    requires cache.Valid()
    modifies cache
    ensures cache.Valid() && cache.Extends(old(cache.list)) && fresh(S) && S !in cache.list
    ensures Val(S.words) == Mono(1, 0, s5) > 0 && Normal(S.words) && HasBits(S.words[|S.words| - 1], topBits)
  {
    S := new BigInt(1);
    topBits := 1;
    One();
    MonoFive(1, s5);
    MonoPositive(1, 0, s5);
    hide Pow, Mono, Val, HasBits;
    if s5 > 0 {
      S.Pow5Multi(s5, cache);
      LeadingNonZero(S.words);
      var zeros := Hi0Bits(S.words[|S.words| - 1]);
      topBits := 32 - zeros;
      BitsOfWord(S.words[|S.words| - 1], zeros);
    }
  }

  /** The shift is chosen so that the top word of S gets exactly four leading zero bits. */
  method Divisor(s5: nat, s2: nat, cache: Pow5Cache) returns (S: BigInt, i: nat)
    requires cache.Valid()
    modifies cache
    ensures cache.Valid() && cache.Extends(old(cache.list)) && fresh(S) && S !in cache.list
    ensures Val(S.words) == Mono(1, s2 + i, s5) > 0 && Operand(S)
    ensures 0x800_0000 <= S.words[|S.words| - 1] < 0x1000_0000
  {
    var topBits;
    S, topBits := PowerOfFive(s5, cache);
    i := NormalizingShift(topBits, s2);
    ghost var w := S.words;
    One();
    hide Pow, Mono, Val, HasBits;
    if s2 + i > 0 {
      S.ShiftLeft(s2 + i);
    }
    ShiftNormalizes(w, S.words, topBits, s2 + i, s5);
  }

  lemma ShiftNormalizes(w: seq<Word>, w': seq<Word>, topBits: nat, k: nat, s5: nat)
    requires Normal(w) && HasBits(w[|w| - 1], topBits) && Val(w) == Mono(1, 0, s5) && (topBits + k) % 32 == 28
    requires Normal(w') && Val(w') == Val(w) * Pow(2, k)
    ensures Val(w') == Mono(1, k, s5) > 0 && 0x800_0000 <= w'[|w'| - 1] < 0x1000_0000
  {
    assert w != [] && w' != [];
    hide *;
    var n := 32 * (|w| - 1) + topBits;
    SameRemainder(|w| - 1, topBits + k);
    BitsFromTop(w, topBits);
    ShiftedBits(Val(w), n, k);
    MonoTwo(1, 0, s5, k);
    MonoPositive(1, k, s5);
    LeadingNonZero(w');
    FourLeadingZeros(w', n + k);
  }

  lemma SameRemainder(words: nat, bits: nat)
    ensures (32 * words + bits) % 32 == bits % 32
  {
  }

  lemma One()
    ensures Mono(1, 0, 0) == 1 && HasBits(1, 1) && Pow(2, 0) == 1
  {
    assert Pow(2, 1) == 2;
  }

  lemma BitsOfWord(w: Word, zeros: nat)
    requires zeros < 32 && Pow(2, 31 - zeros) <= w < Pow(2, 32 - zeros)
    ensures HasBits(w, 32 - zeros)
  {
  }

  lemma LeadingNonZero(s: seq<Word>)
    requires Normal(s) && Val(s) > 0
    ensures s[|s| - 1] != 0
  {
    NormalZero(s);
  }

  /** 10^(k-1) <= c * 2^e < 10^(k+1): the logarithm estimate is right or one too large. */
  ghost predicate GoodEstimate(c: nat, e: int, k: int)
  {
    AtLeastTenTo(c, e, k - 1) && !AtLeastTenTo(c, e, k + 1)
  }

  /** What the operands must mean: the value over 10^k, and the half gaps on its two sides. */
  ghost predicate Represents(I: Interval, c: nat, e: int, k: int, lowGap: int, highGap: int)
  {
    && IsScaled(I.v, I.s, c, e, k)
    && IsScaled(I.lo, I.s, 1, lowGap, k)
    && IsScaled(I.hi, I.s, 1, highGap, k)
  }

  /** b and the half gap multiplied out over the denominator S. */
  method Numerators(b: BigInt, mhi: BigInt, b2: nat, b5: nat, cache: Pow5Cache)
    requires b != mhi && Operand(b) && Val(b.words) > 0 && mhi.words == [1]
    requires cache.Valid() && b !in cache.list && mhi !in cache.list
    modifies b, mhi, cache
    ensures cache.Valid() && cache.Extends(old(cache.list))
    ensures Operand(b) && Val(b.words) == Mono(old(Val(b.words)), b2, b5) > 0
    ensures Operand(mhi) && Val(mhi.words) == Mono(1, 0, b5) > 0
  {
    ghost var c := Val(b.words);
    One();
    MonoFive(1, b5);
    MonoFive(c, b5);
    MonoTwo(c, 0, b5, b2);
    MonoPositive(1, 0, b5);
    MonoPositive(c, 0, b5);
    MonoPositive(c, b2, b5);
    assert Val(mhi.words) == 1 && c == Mono(c, 0, 0);
    hide Pow, Mono, Val;
    if b5 > 0 {
      mhi.Pow5Multi(b5, cache);
      b.MulAssign(mhi);
    }
    if b2 > 0 {
      b.ShiftLeft(b2);
    }
  }

  /** The scaled operands mean what they should, after the estimate of k has been checked. */
  lemma OperandsRepresent(c: nat, e: int, k: int, v: nat, lo: nat, hi: nat, s: nat, lowGap: int, even: bool)
    requires IsScaled(v, s, c, e, k) && IsScaled(lo, s, 1, lowGap, k) && s > 0 && 0 < lo
    requires (hi == lo && IsScaled(hi, s, 1, lowGap, k)) || (hi == 2 * lo && IsScaled(hi, s, 1, lowGap + 1, k))
    requires GoodEstimate(c, e, k)
    ensures v >= s <==> AtLeastTenTo(c, e, k)
    ensures var highGap := if hi == lo then lowGap else lowGap + 1;
      && (v >= s ==> var I := Interval(v, s, lo, hi, even);
                     Proper(I) && Represents(I, c, e, k, lowGap, highGap))
      && (v < s ==> var I := Interval(v * 10, s, lo * 10, hi * 10, even);
                    Proper(I) && Represents(I, c, e, k - 1, lowGap, highGap))
  {
    hide IsScaled, AtLeastTenTo;
    var highGap := if hi == lo then lowGap else lowGap + 1;
    ScaledTen(v, s, c, e, k);
    ScaledTen(lo, s, 1, lowGap, k);
    ScaledTen(hi, s, 1, highGap, k);
    ScaledOrder(v, s, c, e, k);
    ScaledOrder(v, s * 10, c, e, k + 1);
    ScaledOrder(v * 10, s, c, e, k - 1);
  }

  /**
   * Sets up the shortest-digits loop for the value c * 2^be, c being the number in b, whose
   * neighbours are half a unit of the last of `bbits` bits away (half as far below an exact
   * power of 2, the special case). A too large estimate of k is corrected here.
   */
  method ScaleForShortest(b: BigInt, be: int, bbits: int, denorm: bool, special: bool, even: bool,
                          kEst: int, kCheck: bool, cache: Pow5Cache)
      returns (S: BigInt, mlo: BigInt, mhi: BigInt, k: int)
    requires Operand(b) && Val(b.words) > 0 && cache.Valid() && b !in cache.list
    requires GapBits(be, bbits, denorm) > 0
    requires GoodEstimate(Val(b.words), be, kEst)
    requires !kCheck ==> AtLeastTenTo(Val(b.words), be, kEst)
    modifies b, cache
    ensures cache.Valid() && b !in cache.list && mlo !in cache.list && mhi !in cache.list
    ensures fresh(S) && fresh(mlo) && fresh(mhi) && S != mlo && S != mhi && mlo != mhi
    ensures Operand(b) && Operand(S) && Operand(mlo) && Operand(mhi)
    ensures 0x800_0000 <= S.words[|S.words| - 1] < 0x1000_0000
    ensures var halfUnit := be - GapBits(be, bbits, denorm);
      && Proper(IntervalOf(b, S, mlo, mhi, even))
      && Represents(IntervalOf(b, S, mlo, mhi, even), old(Val(b.words)), be, k,
                    if special then halfUnit - 1 else halfUnit, halfUnit)
    ensures k == kEst || k == kEst - 1
  {
    hide Pow, Mono, Val, IsScaled, AtLeastTenTo, GoodEstimate, Represents, Proper;
    ghost var c, gap := Val(b.words), GapBits(be, bbits, denorm);
    var b2, m2, s2, b5, s5 := Exponents(be, kEst, GapBits(be, bbits, denorm), special);
    var i;
    S, i := Divisor(s5, s2, cache);
    b2, m2, s2 := b2 + i, m2 + i, s2 + i;
    mhi := new BigInt(1);
    Numerators(b, mhi, b2, b5, cache);
    GapOperands(c, be, kEst, b2, m2, s2, b5, s5, if special then gap + 1 else gap, special, even);
    mlo, k := CorrectEstimate(b, S, mhi, m2, special, kEst, kCheck);
  }

  /** A too large estimate costs one more factor of ten; then the half gap gets its powers of 2. */
  method CorrectEstimate(b: BigInt, S: BigInt, mhi: BigInt, m2: nat, special: bool, kEst: int, kCheck: bool)
      returns (mlo: BigInt, k: int)
    requires b != S && b != mhi && S != mhi && Operand(b) && Operand(S) && Operand(mhi)
    requires !kCheck ==> Val(b.words) >= Val(S.words)
    requires Val(mhi.words) > 0 && Val(b.words) > 0
    modifies b`words, mhi`words
    ensures fresh(mlo) && Operand(b) && Operand(mhi) && Operand(mlo)
    ensures k == if Val(old(b.words)) < Val(S.words) then kEst - 1 else kEst
    ensures Val(b.words) == if k == kEst then Val(old(b.words)) else Val(old(b.words)) * 10
    ensures Val(mlo.words) == (if k == kEst then Val(old(mhi.words)) else Val(old(mhi.words)) * 10) * Pow(2, m2)
    ensures Val(mhi.words) == if special then Val(mlo.words) * 2 else Val(mlo.words)
  {
    Twos();
    hide Pow, Val;
    k := kEst;
    if kCheck {
      var order := b.Compare(S);
      if order < 0 {
        k := k - 1;
        b.MultiAdd(10, 0);
        mhi.MultiAdd(10, 0);
      }
    }
    ghost var h := Val(mhi.words);
    MulStrict(h, 0, Pow(2, m2));
    if m2 > 0 {
      mhi.ShiftLeft(m2);
    }
    mlo := new BigInt(0);
    mlo.words := mhi.words;
    if special {
      mhi.ShiftLeft(1);
    }
  }

  lemma GapOperands(c: nat, be: int, k: int, b2: nat, m2: nat, s2: nat, b5: nat, s5: nat, gap: int, special: bool, even: bool)
    requires b2 - s2 == be - k && b5 - s5 == -k && m2 - s2 == be - k - gap
    requires c > 0 && GoodEstimate(c, be, k)
    ensures Pow(2, 0) == 1 && Pow(2, 1) == 2
    ensures var v, lo, s := Mono(c, b2, b5), Mono(1, 0, b5) * Pow(2, m2), Mono(1, s2, s5);
      var hi := if special then lo * 2 else lo;
      var highGap := if special then be - gap + 1 else be - gap;
      && lo > 0 && (v >= s <==> AtLeastTenTo(c, be, k))
      && (v >= s ==> var I := Interval(v, s, lo, hi, even);
                     Proper(I) && Represents(I, c, be, k, be - gap, highGap))
      && (v < s ==> var I := Interval(v * 10, s, lo * 10, hi * 10, even);
                    Proper(I) && Represents(I, c, be, k - 1, be - gap, highGap))
      && lo * 10 == (Mono(1, 0, b5) * 10) * Pow(2, m2)
  {
    hide Pow, Mono, IsScaled, AtLeastTenTo, GoodEstimate, Represents, Proper;
    MonoScaled(c, b2, b5, s2, s5, be, k);
    MonoScaled(1, m2, b5, s2, s5, be - gap, k);
    MonoScaled(1, m2 + 1, b5, s2, s5, be - gap + 1, k);
    MonoTwo(1, 0, b5, m2);
    MonoTwo(1, m2, b5, 1);
    MonoPositive(1, m2, b5);
    MonoPositive(1, s2, s5);
    Twos();
    var lo := Mono(1, m2, b5);
    OperandsRepresent(c, be, k, Mono(c, b2, b5), lo, if special then lo * 2 else lo, Mono(1, s2, s5), be - gap, even);
    TenLo(Mono(1, 0, b5), Pow(2, m2));
  }

  lemma TenLo(x: int, p: int)
    ensures (x * p) * 10 == (x * 10) * p
  {
  }

  // ----- for a binary value a first digit 9 is never overshot -----

  lemma {:induction false} OddPartUnique(a: nat, u: nat, b: nat, w: nat)
    requires u % 2 == 1 && w % 2 == 1 && Pow(2, a) * u == Pow(2, b) * w
    ensures a == b && u == w
  {
    HalfOf(a, u);
    HalfOf(b, w);
    hide Pow;
    if a > 0 && b > 0 {
      OddPartUnique(a - 1, u, b - 1, w);
    }
  }

  lemma HalfOf(a: nat, u: nat)
    ensures a == 0 ==> Pow(2, a) * u == u
    ensures a > 0 ==> Pow(2, a) * u == 2 * (Pow(2, a - 1) * u)
  {
    if a > 0 {
      Assoc(2, Pow(2, a - 1), u);
    }
  }

  /** A power of two has no odd factor but one. */
  lemma {:induction false} NoOddFactor(m: nat, x: nat, n: nat)
    requires m % 2 == 1 && m * x == Pow(2, n)
    ensures m == 1
  {
    if n == 0 {
      OneProduct(m, x);
    } else {
      EvenProduct(m, x, Pow(2, n - 1));
      NoOddFactor(m, x / 2, n - 1);
    }
  }

  lemma OneProduct(m: nat, x: nat)
    requires m * x == 1
    ensures m == 1
  {
    if x == 0 {
    } else if m >= 2 {
      MulMonotone(m, 1, x);
    }
  }

  lemma EvenProduct(m: nat, x: nat, y: nat)
    requires m % 2 == 1 && m * x == 2 * y
    ensures m * (x / 2) == y
  {
    var g := m / 2;
    assert m == 2 * g + 1;
    assert m * x == 2 * (g * x) + x;
    assert x % 2 == 0;
    assert m * (2 * (x / 2)) == 2 * (m * (x / 2));
  }

  lemma {:induction false} FiveIsOdd(n: nat)
    ensures Pow(5, n) % 2 == 1
  {
    if n > 0 {
      FiveIsOdd(n - 1);
    }
  }

  /** The lowest bit of the value may be taken lower, with a larger number of units. */
  lemma {:induction false} ScaledLower(a: nat, s: nat, c: nat, e: int, k: int, gap: nat)
    requires IsScaled(a, s, c, e, k)
    ensures IsScaled(a, s, c * Pow(2, gap), e - gap, k)
    decreases gap
  {
    if gap > 0 {
      ScaledHalf(a, s, c, e, k);
      hide IsScaled;
      ScaledLower(a, s, 2 * c, e - 1, k, gap - 1);
      Twofold(c, Pow(2, gap - 1));
    } else {
      assert Pow(2, 0) == 1;
    }
  }

  lemma Twofold(c: int, p: int)
    ensures (2 * c) * p == c * (2 * p)
  {
  }

  lemma ScaledHalf(a: nat, s: nat, c: nat, e: int, k: int)
    requires IsScaled(a, s, c, e, k)
    ensures IsScaled(a, s, 2 * c, e - 1, k)
  {
    var t, u := Pow(10, Plus(k)), Pow(10, Minus(k));
    if e > 0 {
      HalfUp(c, Pow(2, e - 1), u);
    } else {
      HalfDown(a, s, c, Pow(2, -e), t, Pow(2, Plus(e)) * u);
    }
  }

  lemma HalfUp(c: int, p: int, u: int)
    ensures c * ((2 * p) * u) == (2 * c) * (p * u)
  {
    Twofold(c, p * u);
    Assoc(2, p, u);
  }

  lemma HalfDown(a: int, s: int, c: int, p: int, t: int, n: int)
    requires a * (p * t) == s * (c * n)
    ensures a * ((2 * p) * t) == s * ((2 * c) * n)
  {
    Assoc(2, p, t);
    Assoc(2, c, n);
    Twofold(a, p * t);
    Twofold(s, c * n);
  }

  /** If v and hi are c and 1 units of 2^h, and together ten, then ten is an odd number of such units. */
  lemma TenUnits(v: nat, hi: nat, s: nat, c: nat, d: nat, n: nat)
    requires s > 0 && v + hi == 10 * s && v * d == s * (c * n) && hi * d == s * (1 * n)
    ensures 10 * d == (c + 1) * n
  {
    assert (v + hi) * d == s * (c * n) + s * n;
    assert s * (c * n) + s * n == s * ((c + 1) * n) by { assert (c + 1) * n == c * n + n; }
    assert (10 * s) * d == s * (10 * d);
    CancelEqual(s, 10 * d, (c + 1) * n);
  }

  lemma CancelEqual(s: nat, x: int, y: int)
    requires s > 0 && s * x == s * y
    ensures x == y
  {
    if x < y {
      MulStrict(s, x, y);
    } else if y < x {
      MulStrict(s, y, x);
    }
  }

  /** 2^(k+1) does not lie between 10^k / 2 and 10^k. */
  lemma NoUnitFits(hi: nat, s: nat, k: nat)
    requires s > 0 && hi * Pow(10, k) == s * Pow(2, k + 1)
    ensures hi > s || 2 * hi <= s
  {
    PowMul(2, 5, k);
    var p, f := Pow(2, k), Pow(5, k);
    assert Pow(2, k + 1) == p * 2;
    Assoc(hi, p, f);
    assert p * (hi * f) == p * (2 * s) by {
      assert hi * (p * f) == p * (hi * f);
      assert s * (p * 2) == p * (2 * s);
    }
    CancelEqual(p, hi * f, 2 * s);
    if k == 0 {
      assert f == 1;
    } else {
      PowMonotone(5, 1, k);
      assert Pow(5, 1) == 5;
      MulMonotone(hi, 5, f);
    }
  }

  lemma NineIsNotOvershot(I: Interval, c: nat, be: int, gap: nat, k: int, low: int, q: nat, r: nat)
    requires Proper(I) && c > 0 && gap > 0 && Represents(I, c, be, k, low, be - gap) && Divides(I.v, I.s, q, r)
    ensures !OvershootsNine(I, q, r)
  {
    if OvershootsNine(I, q, r) {
      var h, m := be - gap, c * Pow(2, gap) + 1;
      ScaledLower(I.v, I.s, c, be, k, gap);
      var d, n := Pow(2, Minus(h)) * Pow(10, Plus(k)), Pow(2, Plus(h)) * Pow(10, Minus(k));
      TenUnits(I.v, I.hi, I.s, c * Pow(2, gap), d, n);
      OddUnits(c, gap);
      assert 10 * d == m * n && I.hi * d == I.s * n;
      hide IsScaled, Divides;
      if k >= 0 {
        UnitOfTen(h, k, m);
        NoUnitFits(I.hi, I.s, k);
      } else {
        UnitBelow(h, k, m);
      }
      assert false;
    }
  }

  lemma OddUnits(c: nat, gap: nat)
    requires c > 0 && gap > 0
    ensures (c * Pow(2, gap) + 1) % 2 == 1 && c * Pow(2, gap) + 1 >= 3
  {
    Twofold(c, Pow(2, gap - 1));
    assert c * Pow(2, gap) == 2 * (c * Pow(2, gap - 1));
    MulMonotone(c, 1, Pow(2, gap - 1));
  }

  /** Ten being an odd number of units 2^h / 10^k, the unit is 2^(k+1) / 10^k. */
  lemma UnitOfTen(h: int, k: nat, m: nat)
    requires m % 2 == 1
    requires 10 * (Pow(2, Minus(h)) * Pow(10, Plus(k))) == m * (Pow(2, Plus(h)) * Pow(10, Minus(k)))
    ensures h == k + 1
  {
    assert Pow(10, Minus(k)) == 1;
    assert 10 * (Pow(2, Minus(h)) * Pow(10, k)) == Pow(2, Minus(h)) * Pow(10, k + 1) by {
      Rotate(Pow(2, Minus(h)), Pow(10, k), 10);
    }
    TenTo(Minus(h), k + 1);
    FiveIsOdd(k + 1);
    OddPartUnique(Minus(h) + k + 1, Pow(5, k + 1), Plus(h), m);
  }

  /** Below one, ten is no odd number of units but one. */
  lemma UnitBelow(h: int, k: int, m: nat)
    requires k < 0 && m % 2 == 1
    requires 10 * (Pow(2, Minus(h)) * Pow(10, Plus(k))) == m * (Pow(2, Plus(h)) * Pow(10, Minus(k)))
    ensures m == 1
  {
    assert Pow(10, Plus(k)) == 1;
    var x := Pow(2, Plus(h)) * Pow(10, -k - 1);
    assert Pow(2, Plus(h)) * Pow(10, -k) == 10 * x by { Rotate(Pow(2, Plus(h)), Pow(10, -k - 1), 10); }
    assert m * (10 * x) == 10 * (m * x);
    CancelEqual(10, Pow(2, Minus(h)), m * x);
    NoOddFactor(m, x, Minus(h));
  }

  /**
   * The shortest conversion of the value c * 2^be from the logarithm estimate on, for the half gaps
   * that come of `bbits`, `denorm` and `special`. I is their interval over 10^kk.
   */
  method DigitsFromEstimate(b: BigInt, be: int, bbits: int, denorm: bool, special: bool, even: bool,
                            kEst: int, kCheck: bool, cache: Pow5Cache)
      returns (digits: seq<Digit>, k: int, ghost I: Interval, ghost kk: int)
    requires Operand(b) && Val(b.words) > 0 && cache.Valid() && b !in cache.list
    requires GapBits(be, bbits, denorm) > 0
    requires GoodEstimate(Val(b.words), be, kEst)
    requires !kCheck ==> AtLeastTenTo(Val(b.words), be, kEst)
    modifies b, cache
    ensures cache.Valid() && I.closed == even
    ensures var halfUnit := be - GapBits(be, bbits, denorm);
      Represents(I, old(Val(b.words)), be, kk, if special then halfUnit - 1 else halfUnit, halfUnit)
    ensures k >= kk && Shortest(I, digits, k - kk)
    ensures Closest(I, Num(digits) * Pow(10, k - kk), |digits| - 1)
  {
    hide Val, IsScaled, AtLeastTenTo, GoodEstimate, Represents, Proper, Shortest, NearestUnlessNine, Closest;
    ghost var c := Val(b.words);
    var S, mlo, mhi;
    S, mlo, mhi, k := ScaleForShortest(b, be, bbits, denorm, special, even, kEst, kCheck, cache);
    I, kk := IntervalOf(b, S, mlo, mhi, even), k;
    ghost var single := |S.words| == 1;
    digits, k := ShortestDigits(b, S, mlo, mhi, even, k);
    assert digits != [] by { HasDigits(I, digits, k - kk); }
    ghost var gap := GapBits(be, bbits, denorm);
    DigitsAreNearest(I, c, be, gap, kk, if special then be - gap - 1 else be - gap, digits, k - kk, single);
  }

  lemma HasDigits(I: Interval, d: seq<Digit>, bump: int)
    requires Shortest(I, d, bump)
    ensures d != []
  {
  }

  lemma DigitsAreNearest(I: Interval, c: nat, be: int, gap: nat, k: int, low: int, d: seq<Digit>, bump: nat, single: bool)
    requires Proper(I) && c > 0 && gap > 0 && Represents(I, c, be, k, low, be - gap)
    requires d != [] && NearestUnlessNine(I, d, bump, single)
    ensures Closest(I, Num(d) * Pow(10, bump), |d| - 1)
  {
    hide OvershootsNine, Represents, Closest, Divides, Pow, Num;
    HasQuotient(I.v, I.s);
    NineIsNotOvershot(I, c, be, gap, k, low, I.v / I.s, I.v % I.s);
  }

  lemma HasQuotient(v: nat, s: nat)
    requires s > 0
    ensures Divides(v, s, v / s, v % s)
  {
  }
}
