/** Powers, bitwise operations and machine division, with the few laws the other modules need. */
module Naturals {

  function Pow(base: nat, e: nat): (p: nat)
    ensures base > 0 ==> p > 0
  {
    if e == 0 then 1 else base * Pow(base, e - 1)
  }

  lemma {:induction false} PowAdd(base: nat, x: nat, y: nat)
    ensures Pow(base, x + y) == Pow(base, x) * Pow(base, y)
  {
    if x > 0 {
      PowAdd(base, x - 1, y);
      Assoc(base, Pow(base, x - 1), Pow(base, y));
    }
  }

  lemma {:induction false} PowMul(x: nat, y: nat, e: nat)
    ensures Pow(x * y, e) == Pow(x, e) * Pow(y, e)
  {
    if e > 0 {
      PowMul(x, y, e - 1);
      Shuffle(x, y, Pow(x, e - 1), Pow(y, e - 1));
    }
  }

  lemma {:induction false} PowPow(base: nat, x: nat, y: nat)
    ensures Pow(base, x * y) == Pow(Pow(base, x), y)
    decreases y
  {
    if y == 0 {
      assert x * y == 0;
    } else {
      assert x * y == x + x * (y - 1);
      PowPow(base, x, y - 1);
      PowAdd(base, x, x * (y - 1));
    }
  }

  lemma {:induction false} PowMonotone(base: nat, x: nat, y: nat)
    requires base > 0 && x <= y
    ensures 0 < Pow(base, x) <= Pow(base, y)
  {
    PowAdd(base, x, y - x);
    MulMonotone(Pow(base, x), 1, Pow(base, y - x));
  }

  lemma Assoc(x: int, y: int, z: int)
    ensures (x * y) * z == x * (y * z)
  {
  }

  lemma Shuffle(x: int, y: int, p: int, q: int)
    ensures (x * y) * (p * q) == (x * p) * (y * q)
  {
    Assoc(x, y, p * q);
    Assoc(y, p, q);
    assert y * p == p * y;
    Assoc(p, y, q);
    Assoc(x, p, y * q);
  }

  lemma MulMonotone(x: int, y: int, z: int)
    requires 0 <= x && y <= z
    ensures x * y <= x * z
  {
    assert x * z == x * y + x * (z - y);
  }

  lemma MulStrict(x: int, y: int, z: int)
    requires 0 < x && y < z
    ensures x * y < x * z
  {
    MulMonotone(x, y + 1, z);
  }

  /** Quotient and remainder are the only pair with 0 <= r < d. */
  lemma DivModUnique(n: int, d: int, q: int, r: int)
    requires 0 <= r < d && n == d * q + r
    ensures n / d == q && n % d == r
  {
    var q', r' := n / d, n % d;
    assert n == d * q' + r';
    if q < q' {
      MulMonotone(d, q + 1, q');
    } else if q' < q {
      MulMonotone(d, q' + 1, q);
    }
  }

  /** Bitwise "or", "and" and "exclusive or" of naturals, one bit at a time. */
  function Or(x: nat, y: nat): nat
    decreases x + y
  {
    if x == 0 && y == 0 then 0
    else 2 * Or(x / 2, y / 2) + (if x % 2 == 1 || y % 2 == 1 then 1 else 0)
  }

  function And(x: nat, y: nat): nat
    decreases x + y
  {
    if x == 0 || y == 0 then 0
    else 2 * And(x / 2, y / 2) + (if x % 2 == 1 && y % 2 == 1 then 1 else 0)
  }

  function Xor(x: nat, y: nat): nat
    decreases x + y
  {
    if x == 0 && y == 0 then 0
    else 2 * Xor(x / 2, y / 2) + (if x % 2 != y % 2 then 1 else 0)
  }

  /** Bits that do not overlap: "or" is addition. */
  lemma {:induction false} OrDisjoint(hi: nat, lo: nat, k: nat)
    requires lo < Pow(2, k)
    ensures Or(hi * Pow(2, k), lo) == hi * Pow(2, k) + lo
    decreases k
  {
    if k == 0 {
      OrZero(hi);
    } else {
      var x := hi * Pow(2, k);
      Assoc(hi, 2, Pow(2, k - 1));
      assert x == 2 * (hi * Pow(2, k - 1));
      OrDisjoint(hi, lo / 2, k - 1);
    }
  }

  lemma {:induction false} OrZero(x: nat)
    ensures Or(x, 0) == x
  {
    if x > 0 {
      OrZero(x / 2);
    }
  }

  /** Masking with 2^k - 1 is reduction modulo 2^k. */
  lemma {:induction false} AndMask(x: nat, k: nat)
    ensures And(x, Pow(2, k) - 1) == x % Pow(2, k)
    decreases k
  {
    if k > 0 {
      AndMask(x / 2, k - 1);
      AndMaskStep(x, Pow(2, k - 1), Pow(2, k));
    }
  }

  lemma AndMaskStep(x: nat, p: nat, p2: nat)
    requires p > 0 && p2 == 2 * p && And(x / 2, p - 1) == (x / 2) % p
    ensures And(x, p2 - 1) == x % p2
  {
    AndOdd(x, p - 1);
    assert p2 - 1 == 2 * (p - 1) + 1;
    HalveMod(x, p);
    hide And;
  }

  lemma AndOdd(x: nat, m: nat)
    ensures And(x, 2 * m + 1) == 2 * And(x / 2, m) + x % 2
  {
  }

  lemma HalveMod(x: nat, p: nat)
    requires p > 0
    ensures x % (2 * p) == 2 * ((x / 2) % p) + x % 2
  {
    var q, r := (x / 2) / p, (x / 2) % p;
    assert x / 2 == p * q + r;
    assert x == 2 * (p * q) + (2 * r + x % 2);
    Assoc(2, p, q);
    DivModUnique(x, 2 * p, q, 2 * r + x % 2);
  }

  // ----- division as the machine does it -----

  /** Division and remainder towards zero. */
  function DivTowardZero(a: int, b: int): int
    requires b > 0
  {
    if a >= 0 then a / b else -(-a / b)
  }

  function ModTowardZero(a: int, b: int): int
    requires b > 0
  {
    if a >= 0 then a % b else -(-a % b)
  }

  /** A remainder made non-negative is the mathematical modulo. */
  function Adjusted(a: int, b: int): (r: int)
    requires b > 0
  {
    if ModTowardZero(a, b) < 0 then ModTowardZero(a, b) + b else ModTowardZero(a, b)
  }

  lemma AdjustedIs(a: int, b: int)
    requires b > 0
    ensures Adjusted(a, b) == a % b
    ensures a == DivTowardZero(a, b) * b + ModTowardZero(a, b)
    ensures ModTowardZero(a, b) < 0 ==> DivTowardZero(a, b) - 1 == a / b
    ensures ModTowardZero(a, b) >= 0 ==> DivTowardZero(a, b) == a / b
  {
    if a < 0 {
      var q, r := -a / b, -a % b;
      assert -a == b * q + r && 0 <= r < b;
      if r == 0 {
        DivModUnique(a, b, -q, 0);
      } else {
        DivModUnique(a, b, -q - 1, b - r);
      }
    }
  }

  // ----- positional notation -----

  /** The number written by digits to a base, the highest first: each counts by its place. */
  function Place(ds: seq<nat>, base: nat): nat
  {
    if ds == [] then 0 else ds[0] * Pow(base, |ds| - 1) + Place(ds[1..], base)
  }

  lemma {:induction false} PlaceAppend(ds: seq<nat>, d: nat, base: nat)
    ensures Place(ds + [d], base) == Place(ds, base) * base + d
    decreases |ds|
  {
    if ds == [] {
      assert [] + [d] == [d] && Pow(base, 0) == 1;
    } else {
      assert (ds + [d])[1..] == ds[1..] + [d];
      PlaceAppend(ds[1..], d, base);
      PlaceStep(ds[0], Pow(base, |ds| - 1), Place(ds[1..], base), base);
    }
  }

  lemma PlaceStep(d: int, p: int, rest: int, base: int)
    ensures d * (base * p) + rest * base == (d * p + rest) * base
  {
    assert d * (base * p) == (d * p) * base;
  }
}
