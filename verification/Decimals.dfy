/**
 * Decimal digit strings against an interval around v / s, in exact arithmetic. The
 * interval reaches lo / s below and hi / s above; it contains its endpoints when `closed`.
 */
module Decimals {
  import opened Naturals

  datatype Interval = Interval(v: nat, s: nat, lo: nat, hi: nat, closed: bool)

  predicate Proper(I: Interval)
  {
    0 < I.s <= I.v < 10 * I.s && 0 < I.lo <= I.hi
  }

  predicate Between(closed: bool, v: int, x: int, lo: int, hi: int)
  {
    if closed then v <= x + lo && x <= v + hi else v < x + lo && x < v + hi
  }

  /** p / 10^f lies in the interval. */
  predicate Within(I: Interval, p: nat, f: nat)
  {
    var t := Pow(10, f);
    Between(I.closed, I.v * t, p * I.s, I.lo * t, I.hi * t)
  }

  /** q * 10^e lies in the interval. */
  predicate Holds(I: Interval, q: nat, e: int)
  {
    if e >= 0 then Within(I, q * Pow(10, e), 0) else Within(I, q, -e)
  }

  type Digit = x: int | 0 <= x <= 9

  /** The number written by a string of digits. */
  function Num(d: seq<Digit>): nat
  {
    if d == [] then 0 else 10 * Num(d[..|d| - 1]) + d[|d| - 1]
  }

  /** Digits without leading and trailing zeros. */
  predicate Significant(d: seq<Digit>)
  {
    d != [] && d[0] != 0 && d[|d| - 1] != 0
  }

  lemma {:induction false} NumBounds(d: seq<Digit>)
    ensures Num(d) < Pow(10, |d|)
    ensures d != [] && d[0] != 0 ==> Pow(10, |d| - 1) <= Num(d)
  {
    if |d| == 1 {
      assert d[..0] == [];
    } else if d != [] {
      NumBounds(d[..|d| - 1]);
    }
  }

  lemma NumAppend(d: seq<Digit>, x: Digit)
    ensures Num(d + [x]) == 10 * Num(d) + x
  {
    assert (d + [x])[..|d|] == d;
  }

  /** No decimal with fewer than n digits, at any exponent, lies in the interval. */
  ghost predicate NoShorter(I: Interval, n: nat)
    requires n > 0
  {
    forall q: nat, e: int :: 0 < q < Pow(10, n - 1) ==> !Holds(I, q, e)
  }

  /** The digits, read as d0.d1d2... * 10^bump, name a point of the interval with as few digits as possible. */
  ghost predicate Shortest(I: Interval, d: seq<Digit>, bump: int)
  {
    && Significant(d)
    && Holds(I, Num(d), bump - (|d| - 1))
    && NoShorter(I, |d|)
  }

  function Distance(I: Interval, p: nat, f: nat): nat
  {
    var x, y := p * I.s, I.v * Pow(10, f);
    if x <= y then y - x else x - y
  }

  /** No other multiple of 10^-f in the interval is nearer to v / s than p / 10^f. */
  ghost predicate Closest(I: Interval, p: nat, f: nat)
  {
    forall q: nat :: Within(I, q, f) ==> Distance(I, p, f) <= Distance(I, q, f)
  }

  // ----- moving along the number line -----

  lemma ConvexLow(I: Interval, p: nat, n: nat, f: nat)
    requires Within(I, p, f) && p <= n && n * I.s <= I.v * Pow(10, f) && I.hi > 0
    ensures Within(I, n, f)
  {
    MulMonotone(I.s, p, n);
    assert I.hi * Pow(10, f) > 0;
  }

  lemma ConvexHigh(I: Interval, p: nat, n: nat, f: nat)
    requires Within(I, p, f) && n <= p && I.v * Pow(10, f) <= n * I.s && I.lo > 0
    ensures Within(I, n, f)
  {
    MulMonotone(I.s, n, p);
    assert I.lo * Pow(10, f) > 0;
  }

  lemma Rescale(I: Interval, p: nat, f: nat, k: nat)
    ensures Within(I, p * Pow(10, k), f + k) <==> Within(I, p, f)
  {
    var t, c := Pow(10, f), Pow(10, k);
    PowAdd(10, f, k);
    Rotate(I.v, t, c);
    Rotate(I.lo, t, c);
    Rotate(I.hi, t, c);
    Rotate(I.s, p, c);
    BetweenScale(c, I.closed, I.v * t, p * I.s, I.lo * t, I.hi * t);
  }

  lemma Rotate(x: int, t: int, c: int)
    ensures x * (t * c) == c * (x * t)
    ensures (t * c) * x == c * (t * x)
  {
  }

  lemma BetweenScale(c: int, closed: bool, v: int, x: int, lo: int, hi: int)
    requires c > 0
    ensures Between(closed, c * v, c * x, c * lo, c * hi) <==> Between(closed, v, x, lo, hi)
  {
    ScaleOrder(c, v, x + lo);
    ScaleOrder(c, x, v + hi);
    assert c * (x + lo) == c * x + c * lo && c * (v + hi) == c * v + c * hi;
  }

  lemma ScaleOrder(c: int, x: int, y: int)
    requires c > 0
    ensures c * x < c * y <==> x < y
    ensures c * x <= c * y <==> x <= y
  {
    if x < y {
      MulStrict(c, x, y);
    } else if y < x {
      MulStrict(c, y, x);
    }
  }

  /**
   * When the two neighbours n and n + 1 of v / s on the grid of f decimals are both outside
   * the interval, every decimal of at most f + 1 digits is.
   */
  lemma GapMeansNoShorter(I: Interval, n: nat, f: nat)
    requires Proper(I) && Pow(10, f) <= n && n * I.s <= I.v * Pow(10, f) < (n + 1) * I.s
    requires !Within(I, n, f) && !Within(I, n + 1, f)
    ensures NoShorter(I, f + 2)
  {
    forall q: nat, e: int | 0 < q < Pow(10, f + 1)
      ensures !Holds(I, q, e)
    {
      if e >= 0 {
        GapCoarse(I, n, f, q * Pow(10, e), 0);
      } else if -e <= f {
        GapCoarse(I, n, f, q, -e);
      } else {
        GapFine(I, n, f, q, -e);
      }
    }
  }

  lemma GapCoarse(I: Interval, n: nat, f: nat, p: nat, g: nat)
    requires Proper(I) && n * I.s <= I.v * Pow(10, f) < (n + 1) * I.s
    requires !Within(I, n, f) && !Within(I, n + 1, f) && g <= f
    ensures !Within(I, p, g)
  {
    Rescale(I, p, g, f - g);
    var p' := p * Pow(10, f - g);
    if Within(I, p', f) {
      if p' <= n {
        ConvexLow(I, p', n, f);
      } else {
        ConvexHigh(I, p', n + 1, f);
      }
    }
  }

  lemma GapFine(I: Interval, n: nat, f: nat, q: nat, g: nat)
    requires Proper(I) && Pow(10, f) <= n && n * I.s <= I.v * Pow(10, f)
    requires !Within(I, n, f) && f < g && q < Pow(10, f + 1)
    ensures !Within(I, q, g)
  {
    var t, c := Pow(10, f), Pow(10, g - f);
    Rescale(I, n, f, g - f);
    PowAdd(10, f, g - f);
    PowMonotone(10, f + 1, g);
    MulMonotone(c, t, n);
    assert q <= n * c;
    ScaleOrder(c, n * I.s, I.v * t);
    Rotate(I.v, t, c);
    Rotate(I.s, n, c);
    if Within(I, q, g) {
      ConvexLow(I, q, n * c, g);
    }
  }

  // ----- one digit of the shortest-digits loop -----

  /** What holds when the digits d have been produced and none of them could be the last. */
  ghost predicate Progress(I: Interval, d: seq<Digit>, b: nat, lo: nat, hi: nat)
  {
    var t := Pow(10, |d|);
    && b < 10 * I.s && b + 10 * (Num(d) * I.s) == I.v * t && lo == I.lo * t && hi == I.hi * t
    && (d == [] ==> I.s <= b)
    && (d != [] ==> d[0] != 0 && !Within(I, Num(d), |d| - 1) && !Within(I, Num(d) + 1, |d| - 1))
  }

  /** q and r are quotient and remainder of v by s. */
  ghost predicate Divides(v: nat, s: nat, q: nat, r: nat)
  {
    v == s * q + r && r < s
  }

  /** The stopping tests compare exactly: r against lo, r + hi against s. */
  lemma StoppingTests(I: Interval, d: seq<Digit>, b: nat, lo: nat, hi: nat, dig: nat, r: nat)
    requires Proper(I) && Progress(I, d, b, lo, hi) && Divides(b, I.s, dig, r)
    ensures dig <= 9 && (d == [] ==> dig > 0) && r < I.s
    ensures var n := 10 * Num(d) + dig;
      && n * I.s + r == I.v * Pow(10, |d|)
      && (Within(I, n, |d|) <==> r < lo || (I.closed && r == lo))
      && (Within(I, n + 1, |d|) <==> I.s < r + hi || (I.closed && I.s == r + hi))
  {
    var t := Pow(10, |d|);
    QuotientIsDigit(I.s, dig, r);
    SplitProduct(Num(d), dig, I.s);
    MulStrict(t, 0, I.lo);
    MulStrict(t, 0, I.hi);
    hide Num, Pow;
  }

  lemma QuotientIsDigit(s: nat, dig: nat, r: nat)
    requires s * dig + r < 10 * s && r < s
    ensures dig <= 9 && (dig == 0 ==> s * dig + r < s)
  {
    if dig >= 10 {
      MulMonotone(s, 10, dig);
    }
  }

  lemma SplitProduct(n: int, dig: int, s: int)
    ensures (10 * n + dig) * s == 10 * (n * s) + s * dig
    ensures (10 * n + dig + 1) * s == 10 * (n * s) + s * dig + s
  {
  }

  lemma GoOn(I: Interval, d: seq<Digit>, b: nat, lo: nat, hi: nat, dig: Digit, r: nat)
    requires Proper(I) && Progress(I, d, b, lo, hi) && Divides(b, I.s, dig, r)
    requires !Within(I, 10 * Num(d) + dig, |d|) && !Within(I, 10 * Num(d) + dig + 1, |d|)
    ensures Progress(I, d + [dig], 10 * r, 10 * lo, 10 * hi)
  {
    StoppingTests(I, d, b, lo, hi, dig, r);
    NumAppend(d, dig);
    var t := Pow(10, |d|);
    Rotate(I.v, t, 10);
    Rotate(I.lo, t, 10);
    Rotate(I.hi, t, 10);
    assert Pow(10, |d| + 1) == 10 * t;
  }

  /** Ending with a digit that puts the decimal inside the interval. */
  lemma Emit(I: Interval, d: seq<Digit>, b: nat, lo: nat, hi: nat, dig: nat, r: nat, x: Digit)
    requires Proper(I) && Progress(I, d, b, lo, hi) && Divides(b, I.s, dig, r)
    requires x == dig || x == dig + 1
    requires Within(I, 10 * Num(d) + x, |d|)
    ensures Shortest(I, d + [x], 0) && Num(d + [x]) == 10 * Num(d) + x
  {
    StoppingTests(I, d, b, lo, hi, dig, r);
    NumAppend(d, x);
    assert Pow(10, 1) == 10;
    if d != [] {
      GapBelow(I, d, b, lo, hi);
      if x == 0 {
        Rescale(I, Num(d), |d| - 1, 1);
      }
    }
  }

  /** Rounding 9 up within the interval can only happen on the first digit. */
  lemma EmitNine(I: Interval, d: seq<Digit>, b: nat, lo: nat, hi: nat)
    requires Proper(I) && Progress(I, d, b, lo, hi)
    requires Within(I, 10 * Num(d) + 10, |d|)
    ensures d == [] && Shortest(I, [1], 1) && Num([1]) * Pow(10, 1) == 10
  {
    TenIsOneDigit(I);
    assert Pow(10, 1) == 10;
    if d != [] {
      Rescale(I, Num(d) + 1, |d| - 1, 1);
    }
  }

  lemma TenIsOneDigit(I: Interval)
    ensures Num([1]) * Pow(10, 1) == 10 && NoShorter(I, 1)
    ensures Within(I, 10 * Num([]) + 10, 0) ==> Holds(I, Num([1]), 1)
  {
    assert [1][..0] == [] && Num([1]) == 1 && Pow(10, 1) == 10;
  }

  lemma GapBelow(I: Interval, d: seq<Digit>, b: nat, lo: nat, hi: nat)
    requires Proper(I) && Progress(I, d, b, lo, hi) && d != []
    ensures NoShorter(I, |d| + 1)
  {
    var t := Pow(10, |d| - 1);
    assert Pow(10, |d|) == 10 * t;
    Rotate(I.v, t, 10);
    assert (Num(d) + 1) * I.s == Num(d) * I.s + I.s;
    NumBounds(d);
    GapMeansNoShorter(I, Num(d), |d| - 1);
  }

  /** Of the two grid neighbours of v / s, which one is nearest among those inside. */
  lemma NearestNeighbour(I: Interval, n: nat, f: nat, r: nat)
    requires Proper(I) && n * I.s + r == I.v * Pow(10, f) && r < I.s
    ensures !Within(I, n + 1, f) || 2 * r <= I.s ==> Closest(I, n, f)
    ensures !Within(I, n, f) || 2 * r >= I.s ==> Closest(I, n + 1, f)
    ensures Within(I, n, f) && 2 * r < I.s ==> !Closest(I, n + 1, f)
  {
    GridDistance(I, n, f, r, n);
    GridDistance(I, n, f, r, n + 1);
    forall q: nat | Within(I, q, f)
      ensures (Within(I, n, f) && Distance(I, q, f) >= r) || (Within(I, n + 1, f) && Distance(I, q, f) >= I.s - r)
    {
      GridDistance(I, n, f, r, q);
      if q <= n {
        ConvexLow(I, q, n, f);
      } else {
        ConvexHigh(I, q, n + 1, f);
      }
    }
  }

  lemma GridDistance(I: Interval, n: nat, f: nat, r: nat, q: nat)
    requires n * I.s + r == I.v * Pow(10, f) && r < I.s
    ensures n * I.s <= I.v * Pow(10, f) <= (n + 1) * I.s
    ensures Distance(I, n, f) == r && Distance(I, n + 1, f) == I.s - r
    ensures q <= n ==> Distance(I, q, f) >= r
    ensures q > n ==> Distance(I, q, f) >= I.s - r
  {
    var y := I.v * Pow(10, f);
    assert (n + 1) * I.s == n * I.s + I.s;
    if q <= n {
      MulMonotone(I.s, q, n);
    } else {
      MulMonotone(I.s, n + 1, q);
    }
  }

  // ----- fixed precision -----

  function GridDistanceTo(v: nat, s: nat, f: nat, n: nat): nat
  {
    var x, y := n * s, v * Pow(10, f);
    if x <= y then y - x else x - y
  }

  /**
   * x / 10^f is as close to v / s as possible, and the larger of two equally close ones
   * (the rounding of sections 15.7.4.5 to 15.7.4.7 of ECMA-262).
   */
  ghost predicate NearestOrLarger(v: nat, s: nat, f: nat, x: nat)
  {
    forall n: nat :: GridDistanceTo(v, s, f, x) <= GridDistanceTo(v, s, f, n)
      && (n > x ==> GridDistanceTo(v, s, f, x) < GridDistanceTo(v, s, f, n))
  }

  /** Half-up: x - 1/2 <= (v / s) * 10^f < x + 1/2. */
  predicate RoundsTo(v: nat, s: nat, f: nat, x: nat)
  {
    var y := v * Pow(10, f);
    2 * (x * s) <= 2 * y + s && 2 * y < 2 * (x * s) + s
  }

  lemma HalfUpIsNearest(v: nat, s: nat, f: nat, x: nat)
    requires s > 0 && RoundsTo(v, s, f, x)
    ensures NearestOrLarger(v, s, f, x)
  {
    forall n: nat
      ensures GridDistanceTo(v, s, f, x) <= GridDistanceTo(v, s, f, n)
      ensures n > x ==> GridDistanceTo(v, s, f, x) < GridDistanceTo(v, s, f, n)
    {
      HalfUpBeats(v * Pow(10, f), s, x, n);
    }
  }

  lemma HalfUpBeats(y: nat, s: nat, x: nat, n: nat)
    requires s > 0 && 2 * (x * s) <= 2 * y + s && 2 * y < 2 * (x * s) + s
    ensures n < x ==> n * s + s <= x * s
    ensures n > x ==> n * s >= x * s + s
  {
    if n < x {
      MulMonotone(s, n + 1, x);
    } else if n > x {
      MulMonotone(s, x + 1, n);
    }
  }

  /** What holds when the digits d have been produced and more are wanted. */
  ghost predicate Running(v: nat, s: nat, d: seq<Digit>, b: nat)
  {
    && 0 < b < 10 * s && b + 10 * (Num(d) * s) == v * Pow(10, |d|)
    && (d == [] ==> s <= b) && (d != [] ==> d[0] != 0)
  }

  lemma NextFixedDigit(v: nat, s: nat, d: seq<Digit>, b: nat, dig: Digit, r: nat)
    requires s > 0 && Running(v, s, d, b) && Divides(b, s, dig, r)
    ensures Num(d + [dig]) * s + r == v * Pow(10, |d|)
    ensures (d + [dig])[0] != 0 && (r == 0 ==> dig != 0)
    ensures r > 0 ==> Running(v, s, d + [dig], r * 10)
  {
    NextFixedValue(v, s, d, b, dig, r);
  }

  lemma NextFixedValue(v: nat, s: nat, d: seq<Digit>, b: nat, dig: Digit, r: nat)
    requires s > 0 && Running(v, s, d, b) && Divides(b, s, dig, r)
    ensures Num(d + [dig]) * s + r == v * Pow(10, |d|)
    ensures r * 10 + 10 * (Num(d + [dig]) * s) == v * Pow(10, |d| + 1)
    ensures r == 0 ==> dig != 0
  {
    var n, y := Num(d), v * Pow(10, |d|);
    NumAppend(d, dig);
    Rotate(v, Pow(10, |d|), 10);
    assert Pow(10, |d| + 1) == 10 * Pow(10, |d|);
    hide *;
    AppendDigit(n, s, b, y, dig, r);
  }

  lemma AppendDigit(n: nat, s: nat, b: nat, y: nat, dig: nat, r: nat)
    requires b + 10 * (n * s) == y && b == s * dig + r && b > 0
    ensures (10 * n + dig) * s + r == y
    ensures r * 10 + 10 * ((10 * n + dig) * s) == 10 * y
    ensures r == 0 ==> dig != 0
  {
    SplitProduct(n, dig, s);
    ZeroTimes(s, dig);
  }

  lemma ZeroTimes(s: int, dig: int)
    ensures dig == 0 ==> s * dig == 0
  {
  }

  lemma NeighboursRound(v: nat, s: nat, f: nat, n: nat, r: nat)
    requires r < s && n * s + r == v * Pow(10, f)
    ensures 2 * r >= s ==> RoundsTo(v, s, f, n + 1)
    ensures 2 * r < s ==> RoundsTo(v, s, f, n)
  {
    assert (n + 1) * s == n * s + s;
  }

  /** The digits, read as d0.d1d2... * 10^bump, are v / s rounded half up to ilim digits. */
  ghost predicate RoundedTo(v: nat, s: nat, ilim: nat, d: seq<Digit>, bump: nat)
  {
    && Significant(d) && 0 < |d| <= ilim
    && RoundsTo(v, s, ilim - 1, Num(d) * Pow(10, ilim - |d| + bump))
  }

  /** The division came out even before the last place. */
  lemma ExactDigits(v: nat, s: nat, ilim: nat, d: seq<Digit>)
    requires s > 0 && Significant(d) && |d| <= ilim && Num(d) * s == v * Pow(10, |d| - 1)
    ensures RoundedTo(v, s, ilim, d, 0)
  {
    var c := Pow(10, ilim - |d|);
    PowAdd(10, |d| - 1, ilim - |d|);
    Rotate(v, Pow(10, |d| - 1), c);
    Rotate(s, Num(d), c);
  }
}
