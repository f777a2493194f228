/**
 * 32-bit words, least significant first, and the word-by-word recurrences of the
 * big-integer loops, each related to the natural number its words denote.
 */
module Words {
  import opened Naturals

  const BASE: nat := 0x1_0000_0000
  const UINT64: nat := 0x1_0000_0000_0000_0000

  type Word = w: int | 0 <= w < 0x1_0000_0000

  /** The natural number denoted by a word vector. */
  function Val(s: seq<Word>): nat
  {
    if s == [] then 0 else s[0] + BASE * Val(s[1..])
  }

  predicate Stripped(s: seq<Word>)
  {
    s == [] || s[|s| - 1] != 0
  }

  /** No leading zero word, except for the number zero itself. */
  predicate Normal(s: seq<Word>)
  {
    |s| == 1 || (|s| > 1 && s[|s| - 1] != 0)
  }

  function Zeros(n: nat): (s: seq<Word>)
    ensures |s| == n && forall i :: 0 <= i < n ==> s[i] == 0
  {
    seq(n, _ => 0)
  }

  lemma {:induction false} ValZeros(n: nat)
    ensures Val(Zeros(n)) == 0
  {
    if n > 0 {
      assert Zeros(n)[1..] == Zeros(n - 1);
      ValZeros(n - 1);
    }
  }

  lemma {:induction false} ValConcat(s: seq<Word>, t: seq<Word>)
    ensures Val(s + t) == Val(s) + Pow(BASE, |s|) * Val(t)
  {
    if s == [] {
      assert s + t == t;
    } else {
      assert (s + t)[1..] == s[1..] + t;
      ValConcat(s[1..], t);
      Assoc(BASE, Pow(BASE, |s| - 1), Val(t));
    }
  }

  lemma {:induction false} ValBound(s: seq<Word>)
    ensures Val(s) < Pow(BASE, |s|)
  {
    if s != [] {
      ValBound(s[1..]);
    }
  }

  lemma ValStrip(s: seq<Word>)
    requires s != [] && s[|s| - 1] == 0
    ensures Val(s[..|s| - 1]) == Val(s)
  {
    assert s == s[..|s| - 1] + Zeros(1);
    ValConcat(s[..|s| - 1], Zeros(1));
    ValZeros(1);
  }

  lemma StrippedZero(s: seq<Word>)
    requires Stripped(s)
    ensures Val(s) == 0 <==> s == []
  {
    if s != [] {
      LongerIsBigger(s, []);
    }
  }

  /** Of two numbers, the one with more words (and no leading zero) is the larger. */
  lemma {:induction false} LongerIsBigger(s: seq<Word>, t: seq<Word>)
    requires |s| > |t| && s[|s| - 1] != 0
    ensures Val(s) > Val(t)
  {
    if t == [] {
      if |s| > 1 {
        LongerIsBigger(s[1..], []);
      }
    } else {
      LongerIsBigger(s[1..], t[1..]);
    }
  }

  /** The highest differing word decides a comparison. */
  lemma {:induction false} HighestDifferenceDecides(s: seq<Word>, t: seq<Word>, i: nat)
    requires |s| == |t| && i < |s| && s[i] < t[i] && s[i + 1..] == t[i + 1..]
    ensures Val(s) < Val(t)
  {
    if i > 0 {
      assert s[1..][i..] == s[i + 1..] && t[1..][i..] == t[i + 1..];
      HighestDifferenceDecides(s[1..], t[1..], i - 1);
    }
  }

  /** Normal vectors of the same number are the same vector. */
  lemma {:induction false} ValInjective(s: seq<Word>, t: seq<Word>)
    requires |s| == |t| && Val(s) == Val(t)
    ensures s == t
  {
    if s != [] {
      ValInjective(s[1..], t[1..]);
      assert s == [s[0]] + s[1..] && t == [t[0]] + t[1..];
    }
  }

  // ----- multiplication by a small factor, with an addend (MultiAdd) -----

  lemma MulAddFits(x: int, m: int, c: int, d: int)
    requires 0 <= x < BASE && 0 <= m < BASE && 0 <= c < BASE && 0 <= d < BASE
    ensures 0 <= x * m + c + d < UINT64
    ensures 0 <= (x * m + c + d) / BASE < BASE
  {
    MulMonotone(x, m, BASE - 1);
    MulMonotone(BASE - 1, x, BASE - 1);
    MulMonotone(x, 0, m);
  }

  function MulAddWords(s: seq<Word>, m: Word, carry: Word): seq<Word>
  {
    if s == [] then (if carry == 0 then [] else [carry])
    else
      MulAddFits(s[0], m, carry, 0);
      var y := s[0] * m + carry;
      [y % BASE] + MulAddWords(s[1..], m, y / BASE)
  }

  lemma {:induction false} MulAddVal(s: seq<Word>, m: Word, carry: Word)
    ensures Val(MulAddWords(s, m, carry)) == Val(s) * m + carry
  {
    if s == [] {
    } else {
      MulAddFits(s[0], m, carry, 0);
      var y := s[0] * m + carry;
      MulAddVal(s[1..], m, y / BASE);
      var rest := MulAddWords(s[1..], m, y / BASE);
      assert MulAddWords(s, m, carry)[1..] == rest;
      Distribute(s[0], Val(s[1..]), m);
    }
  }

  lemma Distribute(x: int, v: int, m: int)
    ensures (x + BASE * v) * m == x * m + BASE * (v * m)
  {
  }

  lemma {:induction false} MulAddStripped(s: seq<Word>, m: Word, carry: Word)
    requires s != [] && s[|s| - 1] != 0 && m > 0
    ensures var r := MulAddWords(s, m, carry); |r| >= |s| && r[|r| - 1] != 0
  {
    MulAddFits(s[0], m, carry, 0);
    var y := s[0] * m + carry;
    if |s| > 1 {
      MulAddStripped(s[1..], m, y / BASE);
    } else {
      MulMonotone(s[0], 1, m);
      assert s[1..] == [];
      assert y > 0;
    }
  }

  // ----- product of two vectors (operator*) -----

  lemma {:induction false} ValUpdate(s: seq<Word>, i: nat, w: Word)
    requires i < |s|
    ensures Val(s[i := w]) == Val(s) + Pow(BASE, i) * (w - s[i])
  {
    if i > 0 {
      assert s[i := w][1..] == s[1..][i - 1 := w];
      ValUpdate(s[1..], i - 1, w);
      Assoc(BASE, Pow(BASE, i - 1), w - s[i]);
    } else {
      assert s[i := w][1..] == s[1..];
    }
  }

  /** The number q * Val(s), summed word by word. */
  function Multiple(s: seq<Word>, q: Word): nat
  {
    if s == [] then 0 else
      MulMonotone(s[0], 0, q);
      s[0] * q + BASE * Multiple(s[1..], q)
  }

  lemma {:induction false} MultipleVal(s: seq<Word>, q: Word)
    ensures Multiple(s, q) == Val(s) * q
  {
    if s != [] {
      MultipleVal(s[1..], q);
      Distribute(s[0], Val(s[1..]), q);
    }
  }

  /** One word of a row: what is still to be added at position i stays accounted for. */
  lemma AddRowStep(w: seq<Word>, i: nat, a: seq<Word>, y: Word, carry: Word)
    requires i < |w| && a != []
    ensures 0 <= a[0] * y + w[i] + carry < UINT64 && (a[0] * y + w[i] + carry) / BASE < BASE
    ensures var z := a[0] * y + w[i] + carry;
      Val(w[i := z % BASE]) + Pow(BASE, i + 1) * (z / BASE + Multiple(a[1..], y))
      == Val(w) + Pow(BASE, i) * (carry + Multiple(a, y))
  {
    MulAddFits(a[0], y, w[i], carry);
    var z := a[0] * y + w[i] + carry;
    var p, more := Pow(BASE, i), z / BASE + Multiple(a[1..], y);
    ValUpdate(w, i, z % BASE);
    Assoc(BASE, p, more);
    assert (z % BASE - w[i]) + BASE * more == carry + Multiple(a, y);
    Factor(p, z % BASE - w[i], BASE * more);
    assert BASE * (p * more) == p * (BASE * more);
  }

  lemma Factor(p: int, x: int, y: int)
    ensures p * x + p * y == p * (x + y)
  {
  }

  // ----- shift left by 0 < k < 32 bits (operator<<=) -----

  lemma PowWord()
    ensures Pow(2, 32) == BASE
  {
    assert Pow(2, 8) == 256;
    PowAdd(2, 8, 8);
    PowAdd(2, 16, 16);
  }

  /** A word splits into the k bits shifted out and the 32 - k bits that stay. */
  lemma ShiftSplit(w: Word, k: nat)
    requires 0 < k < 32
    ensures 0 <= w / Pow(2, 32 - k) < Pow(2, k)
    ensures (w * Pow(2, k)) % BASE == (w % Pow(2, 32 - k)) * Pow(2, k)
    ensures w * Pow(2, k) == (w * Pow(2, k)) % BASE + BASE * (w / Pow(2, 32 - k))
  {
    PowAdd(2, k, 32 - k);
    PowWord();
    ShiftSplitBy(w, Pow(2, k), Pow(2, 32 - k));
  }

  lemma ShiftSplitBy(w: Word, p: nat, q: nat)
    requires p > 0 && q > 0 && p * q == BASE
    ensures 0 <= w / q < p
    ensures (w * p) % BASE == (w % q) * p
    ensures w * p == (w * p) % BASE + BASE * (w / q)
  {
    var h, l := w / q, w % q;
    assert w == q * h + l;
    if h >= p {
      MulMonotone(q, p, h);
    }
    ShiftSplitProduct(w, p, q, h, l);
    DivModUnique(w * p, BASE, h, l * p);
  }

  lemma ShiftSplitProduct(w: int, p: nat, q: nat, h: nat, l: nat)
    requires p * q == BASE && w == q * h + l && l < q
    ensures w * p == BASE * h + l * p
    ensures l * p + p <= BASE
  {
    assert (q * h) * p == (p * q) * h;
    assert (q * h + l) * p == (q * h) * p + l * p;
    MulMonotone(p, l + 1, q);
  }

  /** The words of s << k with c in the vacated low bits. */
  function ShlWords(s: seq<Word>, k: nat, c: Word): (r: seq<Word>)
    requires 0 < k < 32 && c < Pow(2, k)
    ensures |r| == |s| + 1
  {
    if s == [] then [c]
    else
      [ShlLow(s[0], k, c)] + ShlWords(s[1..], k, ShlOut(s[0], k))
  }

  /** `hi | c`, where hi is w shifted left within its 32 bits. */
  function ShlLow(w: Word, k: nat, c: Word): (r: Word)
    requires 0 < k < 32 && c < Pow(2, k)
    ensures r == (w * Pow(2, k)) % BASE + c
  {
    ShiftSplit(w, k);
    OrDisjoint(w % Pow(2, 32 - k), c, k);
    OrFits(w % Pow(2, 32 - k), k, c);
    Or(ShlKept(w, k), c)
  }

  lemma OrFits(l: nat, k: nat, c: nat)
    requires 0 < k < 32 && c < Pow(2, k) && l < Pow(2, 32 - k)
    ensures l * Pow(2, k) + c < BASE
  {
    PowAdd(2, k, 32 - k);
    PowWord();
    RoomForCarry(l, Pow(2, k), Pow(2, 32 - k));
  }

  lemma RoomForCarry(l: nat, p: nat, q: nat)
    requires p * q == BASE && l < q
    ensures l * p + p <= BASE
  {
    MulMonotone(p, l + 1, q);
  }

  lemma {:induction false} ShlVal(s: seq<Word>, k: nat, c: Word)
    requires 0 < k < 32 && c < Pow(2, k)
    ensures Val(ShlWords(s, k, c)) == Val(s) * Pow(2, k) + c
  {
    if s == [] {
    } else {
      ShiftSplit(s[0], k);
      ShlVal(s[1..], k, ShlOut(s[0], k));
      assert ShlWords(s, k, c)[1..] == ShlWords(s[1..], k, ShlOut(s[0], k));
      Distribute(s[0], Val(s[1..]), Pow(2, k));
    }
  }

  /** What word w keeps within its 32 bits, and what it hands to the word above. */
  function ShlKept(w: Word, k: nat): (r: Word)
    requires 0 < k < 32
  {
    (w * Pow(2, k)) % BASE
  }

  function ShlOut(w: Word, k: nat): (r: Word)
    requires 0 < k < 32
    ensures r < Pow(2, k)
  {
    ShiftSplit(w, k);
    w / Pow(2, 32 - k)
  }

  /** Each word of the result takes bits from two neighbouring words of s. */
  lemma {:induction false} ShlAt(s: seq<Word>, k: nat, c: Word, i: nat)
    requires 0 < k < 32 && c < Pow(2, k) && i <= |s|
    ensures ShlWords(s, k, c)[i] ==
      Or(if i < |s| then ShlKept(s[i], k) else 0, if i > 0 then ShlOut(s[i - 1], k) else c)
  {
    if s == [] {
      OrDisjoint(0, c, k);
    } else if i > 0 {
      ShlAt(s[1..], k, ShlOut(s[0], k), i - 1);
    }
  }

  /** Shifting a vector without leading zeros leaves at most one leading zero word. */
  lemma {:induction false} ShlTop(s: seq<Word>, k: nat, c: Word)
    requires 0 < k < 32 && c < Pow(2, k) && s != [] && s[|s| - 1] != 0
    ensures var r := ShlWords(s, k, c); r[|s|] != 0 || r[|s| - 1] != 0
  {
    ShiftSplit(s[0], k);
    var c' := ShlOut(s[0], k);
    if |s| > 1 {
      ShlTop(s[1..], k, c');
    } else {
      assert s[1..] == [];
      MulMonotone(Pow(2, k), 1, s[0]);
    }
  }

  lemma {:induction false} PowBase(n: nat)
    ensures Pow(BASE, n) == Pow(2, 32 * n)
  {
    if n > 0 {
      PowBase(n - 1);
      PowAdd(2, 32, 32 * (n - 1));
      PowWord();
    }
  }

  /** n zero words below a vector: multiplication by 2^(32 n). */
  lemma ValShiftWords(s: seq<Word>, n: nat)
    ensures Val(Zeros(n) + s) == Pow(2, 32 * n) * Val(s)
  {
    ValConcat(Zeros(n), s);
    ValZeros(n);
    PowBase(n);
  }

  // ----- subtraction of a multiple (Diff, Quorem) -----

  /** One step of the borrow loops, in 64-bit wrap-around arithmetic. */
  lemma BorrowStep(x: Word, sub: Word, borrow: int)
    requires 0 <= borrow <= 1
    ensures var y := (x - sub - borrow) % UINT64;
            && (y / BASE) % 2 == (if x < sub + borrow then 1 else 0)
            && y % BASE == x - sub - borrow + (if x < sub + borrow then BASE else 0)
  {
  }

  /** The words of b - (q * s + carry) - borrow. */
  function SubMulWords(b: seq<Word>, s: seq<Word>, q: Word, carry: Word, borrow: int): (r: seq<Word>)
    requires |b| >= |s| && 0 <= borrow <= 1
    ensures |r| == |b|
    decreases |b|
  {
    if b == [] then []
    else if s == [] then
      var y := (b[0] - borrow) % UINT64;
      BorrowStep(b[0], 0, borrow);
      [y % BASE] + SubMulWords(b[1..], [], q, carry, (y / BASE) % 2)
    else
      MulAddFits(s[0], q, carry, 0);
      var ys := s[0] * q + carry;
      var y := (b[0] - ys % BASE - borrow) % UINT64;
      BorrowStep(b[0], ys % BASE, borrow);
      [y % BASE] + SubMulWords(b[1..], s[1..], q, ys / BASE, (y / BASE) % 2)
  }

  lemma SubMulHead(b: seq<Word>, s: seq<Word>, q: Word, carry: Word, borrow: int)
      returns (low: Word, carry': Word, borrow': int)
    requires |b| >= |s| && b != [] && 0 <= borrow <= 1
    requires |b| > |s| ==> q == 1 && carry == 0
    ensures 0 <= borrow' <= 1
    ensures |b| > |s| ==> carry' == 0
    ensures var s' := if s == [] then [] else s[1..];
            && SubMulWords(b, s, q, carry, borrow) == [low] + SubMulWords(b[1..], s', q, carry', borrow')
            && low == b[0] - (Multiple(s, q) - BASE * Multiple(s', q) + carry - BASE * carry') - borrow + BASE * borrow'
  {
    if s == [] {
      BorrowStep(b[0], 0, borrow);
      var y := (b[0] - borrow) % UINT64;
      low, carry', borrow' := y % BASE, carry, (y / BASE) % 2;
    } else {
      low, carry', borrow' := SubMulBoth(b, s, q, carry, borrow);
    }
  }

  lemma SubMulBoth(b: seq<Word>, s: seq<Word>, q: Word, carry: Word, borrow: int)
      returns (low: Word, carry': Word, borrow': int)
    requires |b| >= |s| && s != [] && 0 <= borrow <= 1
    requires |b| > |s| ==> q == 1 && carry == 0
    ensures 0 <= borrow' <= 1
    ensures |b| > |s| ==> carry' == 0
    ensures SubMulWords(b, s, q, carry, borrow) == [low] + SubMulWords(b[1..], s[1..], q, carry', borrow')
    ensures low == b[0] - (Multiple(s, q) - BASE * Multiple(s[1..], q) + carry - BASE * carry') - borrow + BASE * borrow'
  {
    MulAddFits(s[0], q, carry, 0);
    var ys := s[0] * q + carry;
    BorrowStep(b[0], ys % BASE, borrow);
    var y := (b[0] - ys % BASE - borrow) % UINT64;
    low, carry', borrow' := y % BASE, ys / BASE, (y / BASE) % 2;
  }

  lemma {:induction false} SubMulVal(b: seq<Word>, s: seq<Word>, q: Word, carry: Word, borrow: int)
    requires |b| >= |s| && 0 <= borrow <= 1
    requires |b| > |s| ==> q == 1 && carry == 0
    requires Val(b) >= Multiple(s, q) + carry + borrow
    ensures Val(SubMulWords(b, s, q, carry, borrow)) == Val(b) - Multiple(s, q) - carry - borrow
    decreases |b|
  {
    if b != [] {
      var low, carry', borrow' := SubMulHead(b, s, q, carry, borrow);
      var s' := if s == [] then [] else s[1..];
      SubMulVal(b[1..], s', q, carry', borrow');
      assert SubMulWords(b, s, q, carry, borrow)[1..] == SubMulWords(b[1..], s', q, carry', borrow');
    }
  }
}
