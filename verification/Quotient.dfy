/** Division of a big integer by another when the quotient is a single decimal digit. */
module Quotient {
  import opened Naturals
  import opened Words
  import opened BigNum

  /** The divisor's top word leaves the estimate at most one too small. */
  predicate GoodDivisor(s: seq<Word>)
  {
    Normal(s) && 10 <= s[|s| - 1] < BASE - 1
  }

  /** The top-word estimate of b / s. */
  function Estimate(b: seq<Word>, s: seq<Word>): nat
    requires GoodDivisor(s) && |b| <= |s|
  {
    if |b| < |s| then 0 else b[|b| - 1] / (s[|s| - 1] + 1)
  }

  lemma TopWord(s: seq<Word>)
    requires s != []
    ensures Pow(BASE, |s| - 1) * s[|s| - 1] <= Val(s) < Pow(BASE, |s| - 1) * (s[|s| - 1] as int + 1)
  {
    var n := |s| - 1;
    assert s == s[..n] + [s[n]];
    ValConcat(s[..n], [s[n]]);
    ValBound(s[..n]);
    assert Val([s[n]]) == s[n];
    Factor(Pow(BASE, n), s[n], 1);
  }

  /** The estimate is never too big, at most one too small, and always one decimal digit. */
  lemma EstimateBound(b: seq<Word>, s: seq<Word>)
    requires GoodDivisor(s) && Normal(b) && |b| <= |s| && Val(b) < 10 * Val(s)
    ensures var q := Estimate(b, s); q <= 9 && q * Val(s) <= Val(b) < (q + 2) * Val(s)
  {
    if |b| < |s| {
      LongerIsBigger(s, b);
    } else {
      TopWord(b);
      TopWord(s);
      var w, t := Pow(BASE, |s| - 1), s[|s| - 1];
      EstimateArithmetic(Val(b), Val(s), w, b[|s| - 1], t, Estimate(b, s));
    }
  }

  lemma EstimateArithmetic(b: nat, s: nat, w: nat, tb: nat, t: nat, q: nat)
    requires t >= 10 && w > 0 && q == tb / (t + 1)
    requires w * tb <= b < w * (tb + 1) && w * t <= s < w * (t + 1) && b < 10 * s
    ensures q <= 9 && q * s <= b < (q + 2) * s
  {
    var d := t + 1;
    assert d * q <= tb < d * q + d by {
      assert tb == d * q + tb % d;
    }
    if q >= 10 {
      MulMonotone(d, 10, q);
      EstimateLow(b, s, w, tb, d, 10);
    }
    EstimateLow(b, s, w, tb, d, q);
    EstimateHigh(b, s, w, tb, t, q);
  }

  lemma EstimateLow(b: nat, s: nat, w: nat, tb: nat, d: nat, q: nat)
    requires d * q <= tb && w * tb <= b && s <= w * d
    ensures q * s <= b
  {
    MulMonotone(q, s, w * d);
    assert q * (w * d) == w * (d * q);
    MulMonotone(w, d * q, tb);
  }

  lemma EstimateHigh(b: nat, s: nat, w: nat, tb: nat, t: nat, q: nat)
    requires tb < (t + 1) * q + (t + 1) && q < t && b < w * (tb + 1) && w * t <= s
    ensures b < (q + 2) * s
  {
    assert (q + 2) * t == (t + 1) * q + (t + 1) + (t - q - 1);
    MulMonotone(w, tb + 1, (q + 2) * t);
    assert w * ((q + 2) * t) == (q + 2) * (w * t);
    MulMonotone(q + 2, w * t, s);
  }

  /** b - q * S in place, the carry of the product and the borrow running side by side. */
  method SubtractMultiple(b: BigInt, S: BigInt, q: Word)
    requires b != S && |b.words| == |S.words| && Val(S.words) * q <= Val(b.words)
    modifies b`words
    ensures |b.words| == |S.words| && Val(b.words) == Val(old(b.words)) - Val(S.words) * q
  {
    var s := S.words;
    ghost var was, result := b.words, SubMulWords(b.words, s, q, 0, 0);
    MultipleVal(s, q);
    SubMulVal(was, s, q, 0, 0);
    hide Val, Multiple, SubMulWords;
    var borrow := 0;
    var carry: Word := 0;
    var i := 0;
    assert was[0..] == was && s[0..] == s && result[0..] == result;
    while i < |s|
      invariant 0 <= i <= |s| == |b.words| && 0 <= borrow <= 1
      invariant forall j :: 0 <= j < |s| ==> b.words[j] == if j < i then result[j] else was[j]
      invariant SubMulWords(was[i..], s[i..], q, carry, borrow) == result[i..]
    {
      SubMulAt(was, s, i, q, carry, borrow, result);
      var ys := s[i] * q + carry;
      carry := ys / BASE;
      var y := (b.words[i] - ys % BASE - borrow) % UINT64;
      borrow := (y / BASE) % 2;
      b.words := b.words[i := y % BASE];
      i := i + 1;
    }
    assert b.words == result;
  }

  lemma SubMulAt(b: seq<Word>, s: seq<Word>, i: nat, q: Word, carry: Word, borrow: int, result: seq<Word>)
    requires i < |b| == |s| == |result| && 0 <= borrow <= 1
    requires SubMulWords(b[i..], s[i..], q, carry, borrow) == result[i..]
    ensures var ys := s[i] * q + carry;
      var y := (b[i] - ys % BASE - borrow) % UINT64;
      && 0 <= ys < UINT64 && 0 <= ys / BASE < BASE && 0 <= (y / BASE) % 2 <= 1
      && y % BASE == result[i]
      && SubMulWords(b[i + 1..], s[i + 1..], q, ys / BASE, (y / BASE) % 2) == result[i + 1..]
  {
    assert b[i..][1..] == b[i + 1..] && s[i..][1..] == s[i + 1..];
    assert result[i..][0] == result[i] && result[i..][1..] == result[i + 1..];
    MulAddFits(s[i], q, carry, 0);
    BorrowStep(b[i], (s[i] * q + carry) % BASE, borrow);
  }

  /**
   * Drops leading zero words but keeps word 0, unless the vector has one word to
   * begin with: then a zero is dropped too and the vector becomes empty.
   */
  method TrimRemainder(b: BigInt, top: nat)
    requires |b.words| == top + 1
    modifies b`words
    ensures Val(b.words) == Val(old(b.words)) && |b.words| <= |old(b.words)|
    ensures if top == 0 && Val(b.words) == 0 then b.words == [] else Normal(b.words)
  {
    var n := top;
    if b.words[n] == 0 {
      ValStrip(b.words);
      var e := n - 1;
      while e > 0 && b.words[e] == 0
        invariant 0 <= n <= top && e == n - 1 && (top > 0 ==> n > 0) && b.words == old(b.words)
        invariant Val(b.words[..n]) == Val(b.words)
      {
        ValStrip(b.words[..n]);
        assert b.words[..n][..n - 1] == b.words[..n - 1];
        n := n - 1;
        e := e - 1;
      }
      b.words := b.words[..n];
    }
    if |b.words| > 1 {
      LongerIsBigger(b.words, []);
    }
  }

  /**
   * Exact division: returns b / S, leaves b % S in b. When S is a single word that
   * divides b, the remainder zero is left as the empty vector.
   */
  method Quorem(b: BigInt, S: BigInt) returns (q: int)
    requires b != S && Normal(b.words) && GoodDivisor(S.words)
    requires |b.words| <= |S.words| && Val(b.words) < 10 * Val(S.words)
    modifies b`words
    ensures Val(S.words) > 0
    ensures Val(old(b.words)) == Val(S.words) * q + Val(b.words) && Val(b.words) < Val(S.words)
    ensures 0 <= q <= 9
    ensures b.words != [] ==> Normal(b.words)
    ensures b.words == [] <==> |S.words| == 1 && q > 0 && Val(b.words) == 0
  {
    var n := |S.words|;
    LongerIsBigger(S.words, []);
    QuotientFromEstimate(b.words, S.words);
    if |b.words| < n {
      LongerIsBigger(S.words, b.words);
      return 0;
    }
    n := n - 1;
    q := b.words[n] / ((S.words[n] + 1) % BASE);
    assert q == Estimate(b.words, S.words);
    hide Val, Estimate;
    if q > 0 {
      SubtractMultiple(b, S, q);
      TrimRemainder(b, n);
    }
    assert Val(b.words) == Val(old(b.words)) - Val(S.words) * q;
    var c := b.Compare(S);
    assert c >= 0 <==> Val(b.words) >= Val(S.words);
    if c >= 0 {
      q := q + 1;
      SubtractMultiple(b, S, 1);
      TrimRemainder(b, n);
    }
  }

  /** The estimate being at most one too small, one comparison settles the quotient. */
  lemma QuotientFromEstimate(b: seq<Word>, s: seq<Word>)
    requires GoodDivisor(s) && Normal(b) && |b| <= |s| && Val(b) < 10 * Val(s)
    ensures var q := Estimate(b, s);
      && q <= 9 && 0 <= Val(b) - Val(s) * q < 2 * Val(s)
      && Val(s) * (q + 1) == Val(s) * q + Val(s)
      && (Val(b) - Val(s) * q >= Val(s) ==> q < 9)
  {
    EstimateBound(b, s);
    Regrouped(Val(b), Val(s), Estimate(b, s));
  }

  lemma Regrouped(v: nat, s: nat, q: nat)
    requires q * s <= v < (q + 2) * s && v < 10 * s
    ensures 0 <= v - s * q < 2 * s && s * (q + 1) == s * q + s
    ensures v - s * q >= s ==> q < 9
  {
    assert (q + 2) * s == s * q + 2 * s;
    if q >= 9 {
      MulMonotone(s, 9, q);
    }
  }
}
