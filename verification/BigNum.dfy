/** The big-integer class: every loop against the natural number its words denote. */
module BigNum {
  import opened Naturals
  import opened Words

  /** Drops leading zero words; the number is unchanged and 0 becomes []. */
  function Strip(s: seq<Word>): (r: seq<Word>)
    ensures Stripped(r)
  {
    if s != [] && s[|s| - 1] == 0 then Strip(s[..|s| - 1]) else s
  }

  lemma {:induction false} StripVal(s: seq<Word>)
    ensures Val(Strip(s)) == Val(s)
  {
    if s != [] && s[|s| - 1] == 0 {
      ValStrip(s);
      StripVal(s[..|s| - 1]);
    }
  }

  lemma NormalZero(s: seq<Word>)
    requires Normal(s)
    ensures Val(s) == 0 <==> s == [0]
    ensures Stripped(s) <==> Val(s) > 0
  {
    if s[|s| - 1] != 0 {
      LongerIsBigger(s, []);
    } else {
      assert s == [0];
    }
  }

  class BigInt {
    var words: seq<Word>
    var sign: int

    constructor (i: Word)
      ensures words == [i] && sign == 0 && Val(words) == i && Normal(words)
    {
      words, sign := [i], 0;
    }

    /** The initializer used for results: a vector of `n` zero words. */
    constructor Sized(n: nat)
      ensures words == Zeros(n) && sign == 0
    {
      words, sign := Zeros(n), 0;
    }

    /** The inner loop of the product: adds a * y to the words from position j on. */
    method AddRow(a: seq<Word>, y: Word, j: nat)
      requires j + |a| < |words| && words[j + |a|] == 0
      modifies this`words
      ensures Val(words) == Val(old(words)) + Pow(BASE, j) * (Val(a) * y)
      ensures |words| == |old(words)|
      ensures forall i :: j + |a| < i < |words| ==> words[i] == old(words)[i]
    {
      var carry: Word := 0;
      var k := 0;
      while k < |a|
        invariant 0 <= k <= |a| && |words| == |old(words)|
        invariant forall i :: j + k <= i < |words| ==> words[i] == old(words)[i]
        invariant Val(words) + Pow(BASE, j + k) * (carry + Multiple(a[k..], y))
               == Val(old(words)) + Pow(BASE, j) * Multiple(a, y)
      {
        AddRowStep(words, j + k, a[k..], y, carry);
        assert a[k..][1..] == a[k + 1..];
        var z := a[k] * y + words[j + k] + carry;
        words := words[j + k := z % BASE];
        carry := z / BASE;
        k := k + 1;
      }
      ValUpdate(words, j + k, carry);
      MultipleVal(a, y);
      words := words[j + k := carry];
    }

    /** Drops the leading zero words; used where the source counts its size down. */
    method StripTop()
      modifies this`words
      ensures words == Strip(old(words)) && Stripped(words) && Val(words) == Val(old(words))
    {
      StripVal(words);
      var wc := |words|;
      assert words[..wc] == words;
      while wc > 0 && words[wc - 1] == 0
        invariant 0 <= wc <= |words|
        invariant Strip(words[..wc]) == Strip(words)
      {
        wc := wc - 1;
        assert words[..wc + 1][..wc] == words[..wc];
      }
      words := words[..wc];
    }

    /** The outer loop of the product: one row per word of b, rows of zero words skipped. */
    method AddRows(a: seq<Word>, b: seq<Word>)
      requires words == Zeros(|a| + |b|)
      modifies this`words
      ensures Val(words) == Val(a) * Val(b)
    {
      ValZeros(|a| + |b|);
      ghost var total := Val(a) * Val(b);
      var j := 0;
      while j < |b|
        invariant 0 <= j <= |b| && |words| == |a| + |b|
        invariant forall i :: |a| + j <= i < |words| ==> words[i] == 0
        invariant Val(words) + Pow(BASE, j) * (Val(a) * Val(b[j..])) == total
      {
        ghost var before := Val(words);
        if b[j] != 0 {
          AddRow(a, b[j], j);
        }
        MulRowStep(Val(a), b, j, before, Val(words), total);
        j := j + 1;
      }
    }

    static method Mul(lhs: BigInt, rhs: BigInt) returns (c: BigInt)
      ensures fresh(c) && c.sign == 0
      ensures Val(c.words) == Val(lhs.words) * Val(rhs.words)
      ensures Normal(c.words) <==> Val(lhs.words) > 0 && Val(rhs.words) > 0
      decreases |lhs.words| < |rhs.words|
    {
      if |lhs.words| < |rhs.words| {
        c := Mul(rhs, lhs);
        return;
      }
      c := new BigInt.Sized(|lhs.words| + |rhs.words|);
      c.AddRows(lhs.words, rhs.words);
      c.StripTop();
      ProductNormal(c.words, Val(lhs.words), Val(rhs.words));
    }

    method MulAssign(rhs: BigInt)
      modifies this
      ensures Val(words) == Val(old(words)) * Val(old(rhs.words)) && sign == 0
      ensures Normal(words) <==> Val(old(words)) > 0 && Val(old(rhs.words)) > 0
    {
      var c := Mul(this, rhs);
      words, sign := c.words, c.sign;
    }

    /** Multiply by m and add a. */
    method MultiAdd(m: Word, a: Word)
      requires Normal(words)
      modifies this`words
      ensures Val(words) == Val(old(words)) * m + a
      ensures m > 0 ==> Normal(words)
    {
      var carry: Word := a;
      var i := 0;
      while i < |words|
        invariant 0 <= i <= |words| == |old(words)| && words[i..] == old(words)[i..]
        invariant words[..i] + MulAddWords(words[i..], m, carry) == MulAddWords(old(words), m, a)
      {
        MulAddFits(words[i], m, carry, 0);
        var y := words[i] * m + carry;
        assert y < UINT64;
        assert words[i..][1..] == words[i + 1..];
        carry := y / BASE;
        words := words[i := y % BASE];
        i := i + 1;
      }
      if carry != 0 {
        words := words + [carry];
      }
      assert words == MulAddWords(old(words), m, a);
      MulAddVal(old(words), m, a);
      if m > 0 {
        MulAddNormal(old(words), m, a);
      }
    }

    method ShiftLeft(k: nat)
      requires Normal(words)
      modifies this`words
      ensures Val(words) == Val(old(words)) * Pow(2, k)
      ensures Normal(words) <==> Val(old(words)) > 0 || k < 32
    {
      ShiftLeftResult(words, k);
      hide Val, Normal, Pow, Shifted, Zeros;
      if k % 32 != 0 {
        ShiftAndTrim(k / 32, k % 32);
      } else {
        ShiftWholeWords(k / 32);
        NotShifted(words[k / 32..]);
      }
      ClearLow(k / 32);
    }

    lemma NotShifted(s: seq<Word>)
      ensures Shifted(s, 0) == s
    {
    }

    /** A top word that came out zero is dropped. */
    method ShiftAndTrim(n: nat, bits: nat)
      requires 0 < bits < 32
      modifies this`words
      ensures |words| >= n && words[n..] == Shifted(old(words), bits)
    {
      var top := |words| + n;
      ShiftBits(n, bits);
      ghost var whole := words[n..];
      words := words[..top + (if words[top] != 0 then 1 else 0)];
      assert words[n..] == if whole[|whole| - 1] != 0 then whole else whole[..|whole| - 1];
    }

    /** The top-down loop for a shift by n words and some bits: reads stay below writes. */
    method ShiftBits(n: nat, bits: nat)
      requires 0 < bits < 32
      modifies this`words
      ensures |words| == |old(words)| + n + 1 && words[n..] == ShlWords(old(words), bits, 0)
    {
      ghost var low, shifted := words, ShlWords(words, bits, 0);
      var original := |words|;
      words := words + Zeros(n + 1);
      var src, dst := original - 1, n + original;
      var hi: Word := 0;
      while src >= 0
        invariant -1 <= src < original && dst == src + n + 1 && |words| == original + n + 1
        invariant hi == if src + 1 < original then ShlKept(low[src + 1], bits) else 0
        invariant forall i :: 0 <= i <= src ==> words[i] == low[i]
        invariant forall i :: dst < i < |words| ==> words[i] == shifted[i - n]
      {
        ShlAt(low, bits, 0, src + 1);
        words := words[dst := Or(hi, ShlOut(words[src], bits))];
        dst := dst - 1;
        hi := ShlKept(words[src], bits);
        src := src - 1;
      }
      ShlAt(low, bits, 0, 0);
      if original > 0 {
        OrZero(ShlKept(low[0], bits));
      }
      words := words[dst := hi];
    }

    method ShiftWholeWords(n: nat)
      modifies this`words
      ensures |words| >= n && words[n..] == old(words)
    {
      var original := |words|;
      words := words + Zeros(n);
      var src, dst := original - 1, n + original;
      while src >= 0
        invariant -1 <= src < original && dst == src + n + 1 && |words| == original + n
        invariant forall i :: 0 <= i <= src ==> words[i] == old(words)[i]
        invariant forall i :: dst <= i < |words| ==> words[i] == old(words)[i - n]
      {
        dst := dst - 1;
        words := words[dst := words[src]];
        src := src - 1;
      }
    }

    method ClearLow(n: nat)
      requires n <= |words|
      modifies this`words
      ensures words == Zeros(n) + old(words[n..])
    {
      var dst := n;
      while dst != 0
        invariant 0 <= dst <= n <= |words| && words[n..] == old(words[n..])
        invariant forall i :: dst <= i < n ==> words[i] == 0
      {
        dst := dst - 1;
        words := words[dst := 0];
      }
      assert words == Zeros(n) + words[n..];
    }

    /** Negative, zero or positive as this number is below, equal to or above rhs. */
    method Compare(rhs: BigInt) returns (r: int)
      requires |words| + |rhs.words| > 0
      ensures Normal(words) && Normal(rhs.words) ==>
                (r < 0 <==> Val(words) < Val(rhs.words)) && (r == 0 <==> Val(words) == Val(rhs.words))
      ensures |words| != |rhs.words| ==> r == |words| - |rhs.words|
    {
      var i, j := |words|, |rhs.words|;
      if i != j {
        SizeDecides(words, rhs.words);
        return i - j;
      }
      while j > 0
        invariant 0 <= j <= |words| && words[j..] == rhs.words[j..]
      {
        j := j - 1;
        if words[j] != rhs.words[j] {
          if words[j] < rhs.words[j] {
            HighestDifferenceDecides(words, rhs.words, j);
            return -1;
          }
          HighestDifferenceDecides(rhs.words, words, j);
          return 1;
        }
        assert words[j..] == [words[j]] + words[j + 1..];
      }
      return 0;
    }

    /** The absolute difference; `sign` tells which operand was the larger. */
    method Diff(rhs: BigInt) returns (c: BigInt)
      requires Normal(words) && Normal(rhs.words)
      ensures fresh(c) && Normal(c.words)
      ensures Val(words) < Val(rhs.words) ==> c.sign == 1 && Val(c.words) == Val(rhs.words) - Val(words)
      ensures Val(words) >= Val(rhs.words) ==> c.sign == 0 && Val(c.words) == Val(words) - Val(rhs.words)
    {
      var i := Compare(rhs);
      if i == 0 {
        c := new BigInt(0);
        return;
      }
      var a, b := words, rhs.words;
      if i < 0 {
        a, b := b, a;
      }
      if |a| < |b| {
        LongerIsBigger(b, a);
      }
      c := new BigInt.Sized(|a|);
      c.sign := if i < 0 then 1 else 0;
      c.FillDifference(a, b);
      c.StripTop();
      StrippedZero(c.words);
    }

    /** The two borrow loops: words both operands have, then words only a has. */
    method FillDifference(a: seq<Word>, b: seq<Word>)
      requires |words| == |a| >= |b| && Val(a) >= Val(b)
      modifies this`words
      ensures Val(words) == Val(a) - Val(b)
    {
      ghost var result := SubMulWords(a, b, 1, 0, 0);
      var borrow := 0;
      var i := 0;
      while i < |b|
        invariant 0 <= i <= |b| && |words| == |a| && 0 <= borrow <= 1
        invariant forall j :: 0 <= j < i ==> words[j] == result[j]
        invariant SubMulWords(a[i..], b[i..], 1, 0, borrow) == result[i..]
      {
        DiffStep(a, b, i, borrow);
        var y := (a[i] - b[i] - borrow) % UINT64;
        borrow := (y / BASE) % 2;
        words := words[i := y % BASE];
        i := i + 1;
      }
      assert b[i..] == [];
      while i < |a|
        invariant |b| <= i <= |a| && |words| == |a| && 0 <= borrow <= 1
        invariant forall j :: 0 <= j < i ==> words[j] == result[j]
        invariant SubMulWords(a[i..], [], 1, 0, borrow) == result[i..]
      {
        BorrowOnlyStep(a, i, borrow);
        var y := (a[i] - borrow) % UINT64;
        borrow := (y / BASE) % 2;
        words := words[i := y % BASE];
        i := i + 1;
      }
      assert words == result;
      MultipleVal(b, 1);
      SubMulVal(a, b, 1, 0, 0);
    }

    /** Multiplies by 5^k, extending the shared table of powers 5^(4 * 2^i) as needed. */
    method Pow5Multi(k: nat, cache: Pow5Cache)
      requires cache.Valid() && this !in cache.list && Normal(words)
      modifies this, cache
      ensures cache.Valid() && cache.Extends(old(cache.list))
      ensures Val(words) == Val(old(words)) * Pow(5, k)
      ensures Normal(words) <==> Val(old(words)) > 0 || k < 4
    {
      var p05: seq<Word> := [5, 25, 125];
      SmallPowers(k % 4);
      PowSplit(k, Val(words));
      if k % 4 != 0 {
        MultiAdd(p05[k % 4 - 1], 0);
      }
      if k / 4 != 0 {
        MulPow625(k / 4, cache);
      }
    }

    /** Binary exponentiation by the table, entry i holding 625^(2^i). */
    method MulPow625(k: nat, cache: Pow5Cache)
      requires k > 0 && cache.Valid() && this !in cache.list
      modifies this, cache
      ensures cache.Valid() && cache.Extends(old(cache.list))
      ensures Val(words) == Val(old(words)) * Pow(625, k)
      ensures Normal(words) <==> Val(old(words)) > 0
    {
      cache.Ensure(0);
      var it, n := 0, k;
      while true
        invariant 0 <= it < |cache.list| && n > 0
        invariant cache.Valid() && this !in cache.list && cache.Extends(old(cache.list))
        invariant Val(words) * Pow(Val(cache.list[it].words), n) == Val(old(words)) * Pow(625, k)
        invariant Val(words) > 0 <==> Val(old(words)) > 0
        decreases n
      {
        PowSquare(Val(words), Val(cache.list[it].words), n);
        if n % 2 == 1 {
          ProductSign(Val(words), Val(cache.list[it].words));
          MulAssign(cache.list[it]);
        }
        n := n / 2;
        if n == 0 {
          break;
        }
        NextPower(it);
        it := it + 1;
        cache.Ensure(it);
      }
    }
  }

  /** The table of powers that all conversions share. */
  class Pow5Cache {
    var list: seq<BigInt>

    constructor ()
      ensures Valid() && list == []
    {
      list := [];
    }

    ghost predicate Valid()
      reads this, list
    {
      forall i :: 0 <= i < |list| ==> Normal(list[i].words) && Val(list[i].words) == Pow(5, 4 * Pow(2, i))
    }

    /** The table starts with `before`; what follows did not exist then. */
    twostate predicate Extends(before: seq<BigInt>)
      reads this
    {
      before <= list && forall i :: |before| <= i < |list| ==> fresh(list[i])
    }

    /** Appends the next entry, 625 or the square of the last one, when `it` is the end of the table. */
    method Ensure(it: nat)
      requires Valid() && it <= |list|
      modifies this
      ensures Valid() && it < |list| && old(list) <= list
      ensures forall i :: |old(list)| <= i < |list| ==> fresh(list[i])
    {
      SmallPowers(0);
      if it == |list| {
        if it == 0 {
          var first := new BigInt(625);
          list := [first];
        } else {
          NextPower(it - 1);
          var square := BigInt.Mul(list[it - 1], list[it - 1]);
          list := list + [square];
        }
      }
    }
  }

  lemma NextPower(i: nat)
    ensures Pow(5, 4 * Pow(2, i)) > 0
    ensures Pow(5, 4 * Pow(2, i + 1)) == Pow(5, 4 * Pow(2, i)) * Pow(5, 4 * Pow(2, i))
  {
    PowAdd(5, 4 * Pow(2, i), 4 * Pow(2, i));
  }

  lemma SmallPowers(r: nat)
    requires r < 4
    ensures Pow(5, r) == if r == 0 then 1 else if r == 1 then 5 else if r == 2 then 25 else 125
    ensures Pow(5, 4) == Pow(5, 4 * Pow(2, 0)) == 625
  {
    assert Pow(5, 1) == 5 && Pow(5, 2) == 25 && Pow(5, 3) == 125;
  }

  lemma PowSplit(k: nat, v: nat)
    ensures v * Pow(5, k) == v * Pow(5, k % 4) * Pow(625, k / 4)
  {
    PowAdd(5, k % 4, 4 * (k / 4));
    PowPow(5, 4, k / 4);
    SmallPowers(0);
    Assoc(v, Pow(5, k % 4), Pow(625, k / 4));
  }

  lemma ProductSign(x: nat, y: nat)
    requires y > 0
    ensures x * y > 0 <==> x > 0
  {
  }

  /** One step of binary exponentiation. */
  lemma PowSquare(v: nat, w: nat, n: nat)
    requires n > 0
    ensures n % 2 == 1 ==> v * Pow(w, n) == (v * w) * Pow(w * w, n / 2)
    ensures n % 2 == 0 ==> v * Pow(w, n) == v * Pow(w * w, n / 2)
    ensures Pow(w * w, 0) == 1
  {
    var h := n / 2;
    PowTwice(w, h);
    if n % 2 == 1 {
      assert n == 2 * h + 1 && Pow(w, n) == w * Pow(w, 2 * h);
      Assoc(v, w, Pow(w, 2 * h));
    } else {
      assert n == 2 * h;
    }
  }

  lemma {:induction false} PowTwice(w: nat, h: nat)
    ensures Pow(w, 2 * h) == Pow(w * w, h)
  {
    if h > 0 {
      PowTwice(w, h - 1);
      Assoc(w, w, Pow(w, 2 * (h - 1)));
    }
  }

  lemma SizeDecides(s: seq<Word>, t: seq<Word>)
    requires |s| != |t|
    ensures Normal(s) && Normal(t) ==> (Val(s) < Val(t) <==> |s| < |t|) && Val(s) != Val(t)
  {
    if Normal(s) && Normal(t) {
      if |s| > |t| {
        LongerIsBigger(s, t);
      } else {
        LongerIsBigger(t, s);
      }
    }
  }

  lemma DiffStep(a: seq<Word>, b: seq<Word>, i: nat, borrow: int)
    requires i < |b| <= |a| && 0 <= borrow <= 1
    ensures var y := (a[i] - b[i] - borrow) % UINT64;
      && 0 <= (y / BASE) % 2 <= 1
      && SubMulWords(a[i..], b[i..], 1, 0, borrow)[0] == y % BASE
      && SubMulWords(a[i..], b[i..], 1, 0, borrow)[1..] == SubMulWords(a[i + 1..], b[i + 1..], 1, 0, (y / BASE) % 2)
  {
    assert a[i..][1..] == a[i + 1..] && b[i..][1..] == b[i + 1..];
    BorrowStep(a[i], b[i], borrow);
    assert (b[i] * 1 + 0) % BASE == b[i] && (b[i] * 1 + 0) / BASE == 0;
  }

  lemma BorrowOnlyStep(a: seq<Word>, i: nat, borrow: int)
    requires i < |a| && 0 <= borrow <= 1
    ensures var y := (a[i] - borrow) % UINT64;
      && 0 <= (y / BASE) % 2 <= 1
      && SubMulWords(a[i..], [], 1, 0, borrow)[0] == y % BASE
      && SubMulWords(a[i..], [], 1, 0, borrow)[1..] == SubMulWords(a[i + 1..], [], 1, 0, (y / BASE) % 2)
  {
    assert a[i..][1..] == a[i + 1..];
    BorrowStep(a[i], 0, borrow);
  }

  /** What the shift loops leave above the zero words. */
  function Shifted(s: seq<Word>, bits: nat): (r: seq<Word>)
    requires bits < 32
  {
    if bits == 0 then s
    else
      var r := ShlWords(s, bits, 0);
      if r[|s|] != 0 then r else r[..|s|]
  }

  lemma ShiftedVal(s: seq<Word>, bits: nat)
    requires Normal(s) && bits < 32
    ensures Val(Shifted(s, bits)) == Val(s) * Pow(2, bits)
    ensures Val(s) > 0 ==> Normal(Shifted(s, bits))
    ensures Val(s) == 0 ==> Shifted(s, bits) == [0]
  {
    NormalZero(s);
    if bits != 0 {
      var r := ShlWords(s, bits, 0);
      ShlVal(s, bits, 0);
      if r[|s|] == 0 {
        ValStrip(r);
      }
      if s[|s| - 1] != 0 {
        ShlTop(s, bits, 0);
      } else {
        assert s == [0] && s[1..] == [];
      }
    }
  }

  lemma ShiftLeftResult(s: seq<Word>, k: nat)
    requires Normal(s)
    ensures Val(Zeros(k / 32) + Shifted(s, k % 32)) == Val(s) * Pow(2, k)
    ensures Normal(Zeros(k / 32) + Shifted(s, k % 32)) <==> Val(s) > 0 || k < 32
  {
    var n, bits := k / 32, k % 32;
    var high := Shifted(s, bits);
    ShiftedVal(s, bits);
    ValShiftWords(high, n);
    PowAdd(2, 32 * n, bits);
    Regroup(Pow(2, 32 * n), Val(s), Pow(2, bits));
    assert n == 0 ==> Zeros(n) + high == high;
  }

  lemma Regroup(x: int, y: int, z: int)
    ensures x * (y * z) == y * (x * z)
  {
  }

  lemma ProductNormal(s: seq<Word>, x: nat, y: nat)
    requires Stripped(s) && Val(s) == x * y
    ensures Normal(s) <==> x > 0 && y > 0
  {
    StrippedZero(s);
  }

  lemma MulAddNormal(s: seq<Word>, m: Word, a: Word)
    requires Normal(s) && m > 0
    ensures Normal(MulAddWords(s, m, a))
  {
    if s[|s| - 1] != 0 {
      MulAddStripped(s, m, a);
    } else {
      assert s == [0] && s[1..] == [];
    }
  }

  lemma MulRowStep(v: nat, b: seq<Word>, j: nat, before: nat, after: nat, total: int)
    requires j < |b|
    requires before + Pow(BASE, j) * (v * Val(b[j..])) == total
    requires after == if b[j] == 0 then before else before + Pow(BASE, j) * (v * b[j])
    ensures after + Pow(BASE, j + 1) * (v * Val(b[j + 1..])) == total
  {
    assert b[j..][1..] == b[j + 1..];
    var p, rest := Pow(BASE, j), Val(b[j + 1..]);
    assert v * (b[j] + BASE * rest) == v * b[j] + BASE * (v * rest);
    Factor(p, v * b[j], BASE * (v * rest));
    Assoc(p, BASE, v * rest);
  }
}
