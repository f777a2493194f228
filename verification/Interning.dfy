/**
 * Symbols: array indices and interned strings in one 64-bit word, the decimal conversions behind
 * the index form, and the symbol table. Over any run of lookups equal symbols are equal strings,
 * except for the long digit strings on which the conversion wraps around.
 */
module Interning {
  import opened Characters
  import opened Naturals

  type Text = seq<Unit>

  const TWO32 := 0x1_0000_0000

  // ----- decimal strings -----

  function Digit(d: nat): Unit
    requires d < 10
  {
    0x30 + d
  }

  /** The shortest decimal form. */
  function Decimal(n: nat): (r: Text)
    ensures r != []
  {
    if n < 10 then [Digit(n)] else Decimal(n / 10) + [Digit(n % 10)]
  }

  function Value(s: Text): nat
    requires AllDigits(s)
  {
    if s == [] then 0 else Value(s[..|s| - 1]) * 10 + (s[|s| - 1] - 0x30)
  }

  predicate AllDigits(s: Text)
  {
    forall i :: 0 <= i < |s| ==> IsDecimalDigit(s[i])
  }

  /** Digits, with no zero in front of others. */
  predicate Canonical(s: Text)
  {
    s != [] && AllDigits(s) && (s[0] == DIGIT_0 ==> |s| == 1)
  }

  lemma {:induction false} DecimalIs(n: nat)
    ensures Canonical(Decimal(n)) && Value(Decimal(n)) == n && (n > 0 ==> Decimal(n)[0] != DIGIT_0)
  {
    if n < 10 {
      assert Value([]) == 0;
      assert [Digit(n)][..0] == [];
    } else {
      DecimalIs(n / 10);
      var s := Decimal(n);
      assert s[..|s| - 1] == Decimal(n / 10);
    }
  }

  /** A canonical string is the decimal form of its value. */
  lemma {:induction false} CanonicalIsDecimal(s: Text)
    requires Canonical(s)
    ensures Decimal(Value(s)) == s
    decreases |s|
  {
    var t, d := s[..|s| - 1], s[|s| - 1] - 0x30;
    assert s == t + [Digit(d)];
    if t == [] {
      assert Value(s) == d;
    } else {
      CanonicalIsDecimal(t);
      PositiveValue(t);
      DivModUnique(Value(s), 10, Value(t), d);
    }
  }

  lemma {:induction false} PositiveValue(s: Text)
    requires AllDigits(s) && s != [] && s[0] != DIGIT_0
    ensures Value(s) >= 1
    decreases |s|
  {
    if |s| > 1 {
      PositiveValue(s[..|s| - 1]);
    }
  }

  /** A string of n digits has a value below ten to the n, and at least a tenth of that if canonical. */
  lemma {:induction false} ValueBounds(s: Text)
    requires AllDigits(s)
    ensures Value(s) < Pow(10, |s|)
    ensures Canonical(s) && s[0] != DIGIT_0 ==> Pow(10, |s| - 1) <= Value(s)
    decreases |s|
  {
    if s != [] {
      ValueBounds(s[..|s| - 1]);
      if |s| == 1 {
        assert Pow(10, 0) == 1;
      }
    }
  }

  // ----- writing an integer -----

  /** Digits are put into a buffer from its end. */
  method UIntToString(n: nat) returns (r: Text)
    requires n < TWO32
    ensures r == Decimal(n)
  {
    var buf := new Unit[10];
    var pos := 10;
    var integer := n;
    TenDigits(n);
    while true
      invariant 0 < pos <= 10 && |Decimal(integer)| <= pos
      invariant Decimal(integer) + buf[pos..] == Decimal(n)
      decreases integer
    {
      pos := pos - 1;
      buf[pos] := Digit(integer % 10);
      ghost var was := integer;
      integer := integer / 10;
      if integer == 0 {
        assert Decimal(was) == [buf[pos]];
        assert buf[pos..] == [buf[pos]] + buf[pos + 1..];
        break;
      }
      assert Decimal(was) + buf[pos + 1..] == Decimal(integer) + ([buf[pos]] + buf[pos + 1..]);
      assert buf[pos..] == [buf[pos]] + buf[pos + 1..];
    }
    r := buf[pos..];
  }

  lemma TenDigits(n: nat)
    requires n < TWO32
    ensures |Decimal(n)| <= 10
  {
    var s := Decimal(n);
    DecimalIs(n);
    ValueBounds(s);
    TenthPower();
    assert s[0] == DIGIT_0 ==> |s| == 1;
    if |s| > 10 {
      PowMonotone(10, 10, |s| - 1);
    }
  }

  lemma TenthPower()
    ensures Pow(10, 10) == 10000000000
  {
    assert Pow(10, 5) == 100000;
    PowAdd(10, 5, 5);
  }

  /** A negative integer is written digit by digit with its own sign, as the smallest one has no positive. */
  method IntToString(n: int) returns (r: Text)
    requires -0x8000_0000 <= n < 0x8000_0000
    ensures r == if n < 0 then [MINUS] + Decimal(-n) else Decimal(n)
  {
    if n >= 0 {
      r := UIntToString(n);
      return;
    }
    var buf := new Unit[10];
    var pos := 10;
    var integer := n;
    TenDigits(-n);
    while true
      invariant 0 < pos <= 10 && integer < 0 && |Decimal(-integer)| <= pos
      invariant Decimal(-integer) + buf[pos..] == Decimal(-n)
      decreases -integer
    {
      pos := pos - 1;
      buf[pos] := Digit(-ModTowardZero(integer, 10));
      ghost var was := integer;
      integer := DivTowardZero(integer, 10);
      if integer == 0 {
        assert Decimal(-was) == [buf[pos]];
        assert buf[pos..] == [buf[pos]] + buf[pos + 1..];
        break;
      }
      assert Decimal(-was) + buf[pos + 1..] == Decimal(-integer) + ([buf[pos]] + buf[pos + 1..]);
      assert buf[pos..] == [buf[pos]] + buf[pos + 1..];
    }
    r := [MINUS] + buf[pos..];
  }

  // ----- reading an index -----

  /** What the conversion accepts: the number without its last digit may have wrapped around. */
  predicate AcceptedIndex(s: Text)
  {
    Canonical(s) &&
    var prev := Value(s[..|s| - 1]) % TWO32;
    var last := s[|s| - 1] - 0x30;
    prev < 429496729 || (prev == 429496729 && last <= 5)
  }

  method ConvertToUInt32(s: Text) returns (ok: bool, value: nat)
    ensures ok <==> AcceptedIndex(s)
    ensures ok ==> value == Value(s) % TWO32
  {
    value := 0;
    if |s| > 0 && s[0] == DIGIT_0 {
      assert Value([]) == 0;
      assert |s| == 1 ==> s[..0] == [];
      return |s| == 1, 0;
    }
    if |s| == 0 || !IsDecimalDigit(s[0]) {
      return false, 0;
    }
    var ch := DecimalValue(s[0]);
    value := ch;
    var prev := value;
    assert s[..1][..0] == [] && Value([]) == 0;
    for i := 1 to |s|
      invariant AllDigits(s[..i]) && value == Value(s[..i]) % TWO32 && ch == s[i - 1] - 0x30
      invariant if i == 1 then prev == value == ch else prev == Value(s[..i - 1]) % TWO32
    {
      prev := value;
      if !IsDecimalDigit(s[i]) {
        return false, value;
      }
      ch := DecimalValue(s[i]);
      value := (ch + prev * 10) % TWO32;
      assert s[..i + 1][..i] == s[..i];
      WrapsAlike(Value(s[..i]), ch);
    }
    assert s[..|s|] == s;
    ok := prev < 429496729 || (prev == 429496729 && ch <= 5);
    if |s| == 1 {
      assert s[..0] == [];
    }
  }

  lemma WrapsAlike(v: nat, d: nat)
    ensures (d + v % TWO32 * 10) % TWO32 == (v * 10 + d) % TWO32
  {
    var q := v / TWO32;
    assert v * 10 + d == TWO32 * (q * 10) + (v % TWO32 * 10 + d);
    var m := v % TWO32 * 10 + d;
    DivModUnique(v * 10 + d, TWO32, q * 10 + m / TWO32, m % TWO32);
  }

  /** Up to ten characters, exactly the decimal forms of the 32-bit numbers are accepted. */
  lemma ShortIndices(s: Text)
    requires |s| <= 10
    ensures AcceptedIndex(s) <==> Canonical(s) && Value(s) < TWO32
  {
    if Canonical(s) {
      var t := s[..|s| - 1];
      ValueBounds(t);
      PowMonotone(10, |t|, 9);
      assert Pow(10, 9) == 1000000000 by {
        assert Pow(10, 4) == 10000 && Pow(10, 5) == 100000;
        PowAdd(10, 4, 5);
      }
      hide Pow;
      LastDigitFits(Value(t), s[|s| - 1] - 0x30);
    }
  }

  lemma LastDigitFits(v: nat, d: nat)
    requires v < 1000000000 && d <= 9
    ensures v % TWO32 == v
    ensures v < 429496729 || (v == 429496729 && d <= 5) <==> v * 10 + d < TWO32
  {
  }

  /** Beyond ten characters no string is the decimal form of a 32-bit number, yet some are accepted. */
  lemma LongIndices(s: Text)
    requires |s| > 10 && Canonical(s)
    ensures Value(s) >= TWO32
  {
    ValueBounds(s);
    PowMonotone(10, 10, |s| - 1);
    TenthPower();
  }

  /** "42949672960" is taken for the index 0. */
  lemma WrappedIndex()
    ensures var s: Text := [0x34, 0x32, 0x39, 0x34, 0x39, 0x36, 0x37, 0x32, 0x39, 0x36, 0x30];
      AcceptedIndex(s) && Value(s) % TWO32 == 0
  {
    var s: Text := [0x34, 0x32, 0x39, 0x34, 0x39, 0x36, 0x37, 0x32, 0x39, 0x36, 0x30];
    var a: Text := [] + [0x34, 0x32, 0x39];
    var b: Text := a + [0x34, 0x39, 0x36];
    var c: Text := b + [0x37, 0x32, 0x39];
    Append3([], 0x34, 0x32, 0x39);
    Append3(a, 0x34, 0x39, 0x36);
    Append3(b, 0x37, 0x32, 0x39);
    assert Value([]) == 0 && Value(c) == 429496729;
    assert s[..10][..9] == c && s[..10][9] == 0x36;
    assert Value(s[..10]) == 4294967296;
  }

  lemma Append3(s: Text, x: Unit, y: Unit, z: Unit)
    requires AllDigits(s + [x, y, z])
    ensures AllDigits(s) && Value(s + [x, y, z]) == Value(s) * 1000 + (x - 0x30) * 100 + (y - 0x30) * 10 + (z - 0x30)
  {
    var t := s + [x, y, z];
    assert forall i :: 0 <= i < |s| ==> s[i] == t[i];
    assert t[..|t| - 1] == s + [x, y];
    assert (s + [x, y])[..|s| + 1] == s + [x];
    assert (s + [x])[..|s|] == s;
    assert Value(s + [x]) == Value(s) * 10 + (x - 0x30);
    assert Value(s + [x, y]) == Value(s + [x]) * 10 + (y - 0x30);
  }

  /** Every 32-bit number is read back from what is written for it. */
  lemma IndexRoundTrip(n: nat)
    requires n < TWO32
    ensures AcceptedIndex(Decimal(n)) && Value(Decimal(n)) % TWO32 == n
  {
    DecimalIs(n);
    TenDigits(n);
    ShortIndices(Decimal(n));
  }

  // ----- symbols -----

  /** The 64 bits of a symbol, as a number: the upper half and the two lowest bits tell its kind. */
  type Symbol = nat

  const INDEX_TAG := 0xFFFF

  /** The address with its lowest bit set. */
  function MakeSymbol(address: nat): Symbol
  {
    if address % 2 == 0 then address + 1 else address
  }

  function MakeSymbolFromIndex(index: nat): Symbol
  {
    INDEX_TAG * TWO32 + index
  }

  function MakePrivateSymbol(address: nat): Symbol
  {
    if address / 2 % 2 == 0 then address + 2 else address
  }

  predicate IsIndexSymbol(s: Symbol) { s / TWO32 == INDEX_TAG }

  predicate IsStringSymbol(s: Symbol) { !IsIndexSymbol(s) && s % 2 == 1 }

  predicate IsPrivateSymbol(s: Symbol) { !IsIndexSymbol(s) && s / 2 % 2 == 1 }

  predicate IsPublicSymbol(s: Symbol) { !IsIndexSymbol(s) && s % 4 == 0 }

  /** The lowest bit cleared. */
  function GetStringFromSymbol(s: Symbol): nat { s - s % 2 }

  function GetIndexFromSymbol(s: Symbol): nat { s % TWO32 }

  /** Where a string may lie: aligned, and not in the part of the address space that marks an index. */
  predicate Address(a: nat) { a % 4 == 0 && a / TWO32 != INDEX_TAG }

  /** The tagged forms are told apart, and give back what was tagged. */
  lemma SymbolKinds(a: nat, i: nat)
    requires Address(a) && i < TWO32
    ensures var s := MakeSymbol(a);
      IsStringSymbol(s) && !IsPrivateSymbol(s) && !IsPublicSymbol(s) && !IsIndexSymbol(s) && GetStringFromSymbol(s) == a
    ensures var s := MakeSymbolFromIndex(i);
      IsIndexSymbol(s) && !IsStringSymbol(s) && !IsPrivateSymbol(s) && !IsPublicSymbol(s) && GetIndexFromSymbol(s) == i
    ensures var s := MakePrivateSymbol(a);
      IsPrivateSymbol(s) && !IsStringSymbol(s) && !IsPublicSymbol(s) && !IsIndexSymbol(s)
    ensures IsPublicSymbol(a) && !IsStringSymbol(a) && !IsPrivateSymbol(a) && !IsIndexSymbol(a)
  {
    UpperHalf(a, 1);
    UpperHalf(a, 2);
    LowBits(a, 1);
    LowBits(a, 2);
    LowBits(a, 0);
    DivModUnique(MakeSymbolFromIndex(i), TWO32, INDEX_TAG, i);
  }

  lemma UpperHalf(a: nat, tag: nat)
    requires a % 4 == 0 && tag < 4
    ensures (a + tag) / TWO32 == a / TWO32
  {
    var q, r := a / TWO32, a % TWO32;
    assert a == TWO32 * q + r && r < TWO32;
    assert r == 4 * (a / 4 - 0x4000_0000 * q);
    DivModUnique(a + tag, TWO32, q, r + tag);
  }

  lemma LowBits(a: nat, tag: nat)
    requires a % 4 == 0 && tag < 4
    ensures (a + tag) % 4 == tag && (a + tag) % 2 == tag % 2 && (a + tag) / 2 % 2 == tag / 2
  {
    var k := a / 4;
    assert a == 4 * k;
    DivModUnique(a + tag, 4, k, tag);
    DivModUnique(a + tag, 2, 2 * k + tag / 2, tag % 2);
    DivModUnique(2 * k + tag / 2, 2, k, tag / 2);
  }

  /** An address comes back from its symbol exactly when it is even. */
  lemma TagUndone(a: nat)
    ensures GetStringFromSymbol(MakeSymbol(a)) == a <==> a % 2 == 0
  {
  }

  // ----- the table -----

  /** Where strings are allocated; only the contract of New is assumed of it. */
  class Memory {
    var strings: map<nat, Text>
    var next: nat

    ghost predicate Valid()
      reads this
    {
      next % 4 == 0 && next / TWO32 > INDEX_TAG && forall a <- strings :: Address(a) && a < next
    }

    constructor ()
      ensures Valid() && strings == map[]
    {
      strings, next := map[], (INDEX_TAG + 1) * TWO32;
    }

    method New(s: Text) returns (a: nat)
      requires Valid()
      modifies this
      ensures Valid() && Address(a) && a !in old(strings) && strings == old(strings)[a := s]
    {
      a := next;
      strings := strings[a := s];
      assert (next + 4) / TWO32 >= next / TWO32;
      next := next + 4;
    }
  }

  /** The symbol of s once every string in `held` has its place. */
  ghost function SymbolOf(held: map<Text, nat>, s: Text): Symbol
    requires AcceptedIndex(s) || s in held
  {
    if AcceptedIndex(s) then MakeSymbolFromIndex(Value(s) % TWO32) else MakeSymbol(held[s])
  }

  /** Accepted as an index although its number does not fit. */
  predicate Overlong(s: Text) { AcceptedIndex(s) && |s| > 10 }

  /** The text that the symbol of s has. */
  function WrittenAs(s: Text): Text { if AcceptedIndex(s) then Decimal(Value(s) % TWO32) else s }

  /** One symbol stands for both: the same text, or indices that are the same after wrapping. */
  predicate Confused(s: Text, t: Text)
  {
    s == t || (AcceptedIndex(s) && AcceptedIndex(t) && Value(s) % TWO32 == Value(t) % TWO32)
  }

  class SymbolTable {
    const memory: Memory
    var held: map<Text, nat>   // the set of interned strings, by content

    ghost predicate Valid()
      reads this, memory
    {
      && memory.Valid()
      && (forall s <- held :: held[s] in memory.strings && memory.strings[held[s]] == s)
      && (forall s <- held :: !AcceptedIndex(s))
    }

    constructor (memory: Memory)
      requires memory.Valid()
      ensures Valid() && this.memory == memory && held == map[]
    {
      this.memory := memory;
      held := map[];
    }

    method Lookup(s: Text) returns (symbol: Symbol)
      requires Valid()
      modifies this, memory
      ensures Valid() && held.Keys == old(held.Keys) + (if AcceptedIndex(s) then {} else {s})
      ensures forall t <- old(held) :: t in held && held[t] == old(held)[t]
      ensures forall a <- old(memory.strings) :: a in memory.strings && memory.strings[a] == old(memory.strings)[a]
      ensures symbol == SymbolOf(held, s)
    {
      var ok, index := ConvertToUInt32(s);
      if ok {
        return MakeSymbolFromIndex(index);
      }
      if s in held {
        return MakeSymbol(held[s]);
      }
      var a := memory.New(s);
      held := held[s := a];
      symbol := MakeSymbol(a);
    }

    ghost predicate Known(symbol: Symbol)
      reads this, memory
    {
      IsIndexSymbol(symbol) || (IsStringSymbol(symbol) && GetStringFromSymbol(symbol) in memory.strings)
    }

    ghost function TextOf(symbol: Symbol): Text
      requires Known(symbol)
      reads this, memory
    {
      if IsIndexSymbol(symbol) then Decimal(GetIndexFromSymbol(symbol)) else memory.strings[GetStringFromSymbol(symbol)]
    }

    /** The text of a symbol made by this table; other symbols have none. */
    method GetSymbolString(symbol: Symbol) returns (r: Text)
      requires Valid() && (IsStringSymbol(symbol) ==> Known(symbol))
      ensures r == if Known(symbol) then TextOf(symbol) else []
    {
      if IsIndexSymbol(symbol) {
        r := UIntToString(GetIndexFromSymbol(symbol));
      } else if IsStringSymbol(symbol) {
        r := memory.strings[GetStringFromSymbol(symbol)];
      } else {
        r := [];
      }
    }

    /** The text of the symbol of s is s, exactly unless s is an overlong index. */
    lemma SymbolText(s: Text)
      requires Valid() && (AcceptedIndex(s) || s in held)
      ensures var symbol := SymbolOf(held, s);
        Known(symbol) && TextOf(symbol) == WrittenAs(s) && (IsIndexSymbol(symbol) <==> AcceptedIndex(s))
      ensures WrittenAs(s) == s <==> !Overlong(s)
    {
      if AcceptedIndex(s) {
        IndexOf(s);
      } else {
        SymbolKinds(held[s], 0);
      }
    }

    /** Equal symbols are equal strings, or digit strings whose numbers have wrapped to the same index. */
    lemma SymbolsDistinguish(s: Text, t: Text)
      requires Valid() && (AcceptedIndex(s) || s in held) && (AcceptedIndex(t) || t in held)
      ensures SymbolOf(held, s) == SymbolOf(held, t) <==> Confused(s, t)
    {
      SymbolText(s);
      SymbolText(t);
      if AcceptedIndex(s) && AcceptedIndex(t) {
        IndexOf(s);
        IndexOf(t);
      }
      hide IsIndexSymbol, IsStringSymbol, GetIndexFromSymbol, GetStringFromSymbol, MakeSymbolFromIndex, MakeSymbol, Decimal;
    }

    /**
     * Over any run of lookups every symbol has the text of its string, which no later lookup changes, and
     * symbols are equal exactly when the strings are, or have wrapped to the same index.
     */
    method Intern(texts: seq<Text>) returns (symbols: seq<Symbol>)
      requires Valid()
      modifies this, memory
      ensures Valid() && |symbols| == |texts|
      ensures forall i :: 0 <= i < |texts| ==> Known(symbols[i]) && TextOf(symbols[i]) == WrittenAs(texts[i])
      ensures forall i, j :: 0 <= i < |texts| && 0 <= j < |texts| ==> (symbols[i] == symbols[j] <==> Confused(texts[i], texts[j]))
      ensures forall symbol :: old(Known(symbol)) ==> Known(symbol) && TextOf(symbol) == old(TextOf(symbol))
    {
      hide AcceptedIndex, SymbolOf, IsIndexSymbol, IsStringSymbol;
      symbols := [];
      for n := 0 to |texts|
        invariant Valid() && |symbols| == n
        invariant forall i :: 0 <= i < n ==>
          (AcceptedIndex(texts[i]) || texts[i] in held) && symbols[i] == SymbolOf(held, texts[i])
        invariant forall a <- old(memory.strings) :: a in memory.strings && memory.strings[a] == old(memory.strings)[a]
      {
        ghost var before := held;
        var symbol := Lookup(texts[n]);
        forall i | 0 <= i < n
          ensures SymbolOf(held, texts[i]) == SymbolOf(before, texts[i])
        {
          SymbolStays(before, held, texts[i]);
        }
        symbols := symbols + [symbol];
      }
      forall i | 0 <= i < |texts|
        ensures Known(symbols[i]) && TextOf(symbols[i]) == WrittenAs(texts[i])
      {
        SymbolText(texts[i]);
      }
      forall i, j | 0 <= i < |texts| && 0 <= j < |texts|
        ensures symbols[i] == symbols[j] <==> Confused(texts[i], texts[j])
      {
        SymbolsDistinguish(texts[i], texts[j]);
      }
    }
  }

  lemma SymbolStays(before: map<Text, nat>, held: map<Text, nat>, s: Text)
    requires AcceptedIndex(s) || s in before
    requires forall t <- before :: t in held && held[t] == before[t]
    ensures (AcceptedIndex(s) || s in held) && SymbolOf(held, s) == SymbolOf(before, s)
  {
  }

  /** The index of an accepted string is written as that string, unless it is overlong. */
  lemma IndexOf(s: Text)
    requires AcceptedIndex(s)
    ensures var symbol := MakeSymbolFromIndex(Value(s) % TWO32);
      IsIndexSymbol(symbol) && GetIndexFromSymbol(symbol) == Value(s) % TWO32
      && (Decimal(GetIndexFromSymbol(symbol)) == s <==> !Overlong(s))
  {
    var i := Value(s) % TWO32;
    SymbolKinds(0, i);
    hide IsIndexSymbol, GetIndexFromSymbol, MakeSymbolFromIndex, IsStringSymbol, IsPrivateSymbol, IsPublicSymbol;
    if |s| <= 10 {
      ShortIndices(s);
      CanonicalIsDecimal(s);
    } else {
      TenDigits(i);
    }
  }
}
