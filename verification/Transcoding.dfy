/**
 * UTF-8 and UTF-16 transcoding with the bit operations of the program, proved to be the two
 * encodings of section 3 of RFC 3629 and section 2 of RFC 2781: each is a bijection between
 * sequences of scalar values and its well-formed strings, and nothing else is accepted.
 */
module Transcoding {
  /** An octet and a UTF-16 code unit, kept in a machine word so that no bit is lost in an operation. */
  type Octet = b: bv32 | b < 0x100
  type Unit = u: bv32 | u < 0x10000
  type Point = bv32

  type CodePoint = p: bv32 | p <= 0x10FFFF

  datatype UTF8Error = UNICODE_NO_ERROR | NOT_ENOUGH_SPACE | INVALID_SEQUENCE

  // ----- surrogates -----

  predicate IsHighSurrogate(u: bv32) { u & 0xFFFF_FC00 == 0xD800 }

  predicate IsLowSurrogate(u: bv32) { u & 0xFFFF_FC00 == 0xDC00 }

  predicate IsSurrogate(u: bv32) { u & 0xFFFF_F800 == 0xD800 }

  function ToHighSurrogate(p: Point): Point { (p >> 10) + 0xD7C0 }

  function ToLowSurrogate(p: Point): Point { Low10(p) + 0xDC00 }

  function Low10(u: bv32): bv32 { u & 0x3FF }

  function Join(x: bv32, y: bv32): Point { (x << 10) + y + 0x10000 }

  function DecodeSurrogatePair(high: bv32, low: bv32): Point { Join(Low10(high), Low10(low)) }

  /** A Unicode scalar value. */
  predicate Scalar(p: Point) { p <= 0x10FFFF && !(0xD800 <= p <= 0xDFFF) }

  // ----- one code point in UTF-8 -----

  predicate IsTrail(b: Octet) { b & 0xC0 == 0x80 }

  /** The length announced by a first octet; 0 when it cannot be one. */
  function ByteCount(b: Octet): nat
  {
    if b < 0x80 then 1 else if b < 0xC0 then 0 else if b < 0xE0 then 2 else if b < 0xF0 then 3 else if b < 0xF8 then 4 else 0
  }

  datatype Decoded = Decoded(point: Point, error: UTF8Error)

  function Failed(e: UTF8Error): Decoded { Decoded(0, e) }

  function Pack2(a: bv32, b: bv32): Point { ((a & 0x1F) << 6) | (b & 0x3F) }

  function Pack3(a: bv32, b: bv32, c: bv32): Point { ((a & 0xF) << 12) | ((b & 0x3F) << 6) | (c & 0x3F) }

  function Pack4(a: bv32, b: bv32, c: bv32, d: bv32): Point
  {
    ((a & 7) << 18) | ((b & 0x3F) << 12) | ((c & 0x3F) << 6) | (d & 0x3F)
  }

  function CodePoint2(s: seq<Octet>): Decoded
    requires s != []
  {
    if |s| < 2 then Failed(NOT_ENOUGH_SPACE)
    else if !IsTrail(s[1]) then Failed(INVALID_SEQUENCE)
    else
      var res := Pack2(s[0], s[1]);
      if res >= 0x80 then Decoded(res, UNICODE_NO_ERROR) else Failed(INVALID_SEQUENCE)
  }

  function CodePoint3(s: seq<Octet>): Decoded
    requires s != []
  {
    if |s| < 2 then Failed(NOT_ENOUGH_SPACE)
    else if !IsTrail(s[1]) then Failed(INVALID_SEQUENCE)
    else if |s| < 3 then Failed(NOT_ENOUGH_SPACE)
    else if !IsTrail(s[2]) then Failed(INVALID_SEQUENCE)
    else
      var res := Pack3(s[0], s[1], s[2]);
      if res >= 0x800 && (res < 0xD800 || 0xDFFF < res) then Decoded(res, UNICODE_NO_ERROR) else Failed(INVALID_SEQUENCE)
  }

  function CodePoint4(s: seq<Octet>): Decoded
    requires s != []
  {
    if |s| < 2 then Failed(NOT_ENOUGH_SPACE)
    else if !IsTrail(s[1]) then Failed(INVALID_SEQUENCE)
    else if |s| < 3 then Failed(NOT_ENOUGH_SPACE)
    else if !IsTrail(s[2]) then Failed(INVALID_SEQUENCE)
    else if |s| < 4 then Failed(NOT_ENOUGH_SPACE)
    else if !IsTrail(s[3]) then Failed(INVALID_SEQUENCE)
    else
      var res := Pack4(s[0], s[1], s[2], s[3]);
      if res >= 0x10000 && res <= 0x10FFFF then Decoded(res, UNICODE_NO_ERROR) else Failed(INVALID_SEQUENCE)
  }

  function NextUCS4FromUTF8(s: seq<Octet>): Decoded
    requires s != []
  {
    match ByteCount(s[0])
    case 1 => Decoded(s[0] & 0xFF, UNICODE_NO_ERROR)
    case 2 => CodePoint2(s)
    case 3 => CodePoint3(s)
    case 4 => CodePoint4(s)
    case _ => Failed(INVALID_SEQUENCE)
  }

  function Lead2(p: Point): bv32 { (p >> 6) | 0xC0 }

  function Lead3(p: Point): bv32 { (p >> 12) | 0xE0 }

  function Lead4(p: Point): bv32 { (p >> 18) | 0xF0 }

  function Trail0(p: Point): Octet { (p & 0x3F) | 0x80 }

  function Trail1(p: Point): Octet { ((p >> 6) & 0x3F) | 0x80 }

  function Trail2(p: Point): Octet { ((p >> 12) & 0x3F) | 0x80 }

  function Append(p: CodePoint): (r: seq<Octet>)
    ensures 1 <= |r| <= 4
  {
    if p < 0x80 then [p]
    else if p < 0x800 then [Lead2(p), Trail0(p)]
    else if p < 0x10000 then [Lead3(p), Trail1(p), Trail0(p)]
    else [Lead4(p), Trail2(p), Trail1(p), Trail0(p)]
  }

  // ----- the grammar of section 4 of RFC 3629 -----

  predicate Tail(b: Octet) { 0x80 <= b <= 0xBF }

  predicate UTF8Char(s: seq<Octet>)
  {
    match |s|
    case 1 => s[0] <= 0x7F
    case 2 => 0xC2 <= s[0] <= 0xDF && Tail(s[1])
    case 3 =>
      Tail(s[2]) && ((s[0] == 0xE0 && 0xA0 <= s[1] <= 0xBF) || (0xE1 <= s[0] <= 0xEC && Tail(s[1]))
                     || (s[0] == 0xED && 0x80 <= s[1] <= 0x9F) || (0xEE <= s[0] <= 0xEF && Tail(s[1])))
    case 4 =>
      Tail(s[2]) && Tail(s[3]) && ((s[0] == 0xF0 && 0x90 <= s[1] <= 0xBF) || (0xF1 <= s[0] <= 0xF3 && Tail(s[1]))
                                   || (s[0] == 0xF4 && 0x80 <= s[1] <= 0x8F))
    case _ => false
  }

  /** A sequence of UTF-8 characters. */
  ghost predicate UTF8Octets(s: seq<Octet>)
  {
    s == [] || exists n :: 1 <= n <= |s| && UTF8Char(s[..n]) && UTF8Octets(s[n..])
  }

  /**
   * The number of a character by the table of section 3 of RFC 3629: each octet counts, less its mark,
   * by its place. Nothing here reaches 2^32.
   */
  function Denoted(s: seq<Octet>): bv32
  {
    match |s|
    case 1 => s[0]
    case 2 => Denoted2(s[0], s[1])
    case 3 => Denoted3(s[0], s[1], s[2])
    case 4 => Denoted4(s[0], s[1], s[2], s[3])
    case _ => 0
  }

  function Denoted2(a: bv32, b: bv32): bv32 { (a - 0xC0) * 0x40 + (b - 0x80) }

  function Denoted3(a: bv32, b: bv32, c: bv32): bv32 { (a - 0xE0) * 0x1000 + (b - 0x80) * 0x40 + (c - 0x80) }

  function Denoted4(a: bv32, b: bv32, c: bv32, d: bv32): bv32
  {
    (a - 0xF0) * 0x4_0000 + (b - 0x80) * 0x1000 + (c - 0x80) * 0x40 + (d - 0x80)
  }

  // ----- the bits, there and back -----

  lemma Sum2(a: Octet, b: Octet)
    requires 0xC0 <= a < 0xE0 && 0x80 <= b <= 0xBF
    ensures Pack2(a, b) == Denoted2(a, b)
  {
  }

  lemma Sum3(a: Octet, b: Octet, c: Octet)
    requires 0xE0 <= a < 0xF0 && 0x80 <= b <= 0xBF && 0x80 <= c <= 0xBF
    ensures Pack3(a, b, c) == Denoted3(a, b, c)
  {
  }

  lemma Sum4(a: Octet, b: Octet, c: Octet, d: Octet)
    requires 0xF0 <= a < 0xF8 && 0x80 <= b <= 0xBF && 0x80 <= c <= 0xBF && 0x80 <= d <= 0xBF
    ensures Pack4(a, b, c, d) == Denoted4(a, b, c, d)
  {
  }

  lemma Unpack2(p: Point)
    requires 0x80 <= p < 0x800
    ensures Pack2(Lead2(p), Trail0(p)) == p && 0xC2 <= Lead2(p) <= 0xDF
  {
  }

  lemma Unpack3(p: Point)
    requires 0x800 <= p < 0x10000
    ensures Pack3(Lead3(p), Trail1(p), Trail0(p)) == p && 0xE0 <= Lead3(p) <= 0xEF
  {
  }

  lemma Lead3Bounds(p: Point)
    requires 0x800 <= p < 0x10000 && !(0xD800 <= p <= 0xDFFF)
    ensures Lead3(p) == 0xE0 ==> 0xA0 <= Trail1(p)
    ensures Lead3(p) == 0xED ==> Trail1(p) <= 0x9F
  {
  }

  lemma Unpack4(p: Point)
    requires 0x10000 <= p <= 0x10FFFF
    ensures Pack4(Lead4(p), Trail2(p), Trail1(p), Trail0(p)) == p && 0xF0 <= Lead4(p) <= 0xF4
  {
  }

  lemma Lead4Bounds(p: Point)
    requires 0x10000 <= p <= 0x10FFFF
    ensures Lead4(p) == 0xF0 ==> 0x90 <= Trail2(p)
    ensures Lead4(p) == 0xF4 ==> Trail2(p) <= 0x8F
  {
  }

  lemma Trails(b: Octet)
    ensures IsTrail(b) <==> Tail(b)
  {
  }

  lemma AreTails(p: Point)
    ensures Tail(Trail0(p)) && Tail(Trail1(p)) && Tail(Trail2(p))
  {
  }

  lemma Repack2(a: Octet, b: Octet)
    requires 0xC0 <= a < 0xE0 && 0x80 <= b <= 0xBF
    ensures var p := Pack2(a, b); p < 0x800 && (p >= 0x80 <==> 0xC2 <= a) && Lead2(p) == a && Trail0(p) == b
  {
  }

  lemma Repack3(a: Octet, b: Octet, c: Octet)
    requires 0xE0 <= a < 0xF0 && 0x80 <= b <= 0xBF && 0x80 <= c <= 0xBF
    ensures var p := Pack3(a, b, c); p < 0x10000 && Lead3(p) == a && Trail1(p) == b && Trail0(p) == c
  {
  }

  lemma Pack3Range(a: Octet, b: Octet, c: Octet)
    requires 0xE0 <= a < 0xF0 && 0x80 <= b <= 0xBF && 0x80 <= c <= 0xBF
    ensures var p := Pack3(a, b, c);
      (p >= 0x800 <==> (a == 0xE0 ==> 0xA0 <= b)) && (0xD800 <= p <= 0xDFFF <==> a == 0xED && 0xA0 <= b)
  {
  }

  lemma Repack4(a: Octet, b: Octet, c: Octet, d: Octet)
    requires 0xF0 <= a < 0xF8 && 0x80 <= b <= 0xBF && 0x80 <= c <= 0xBF && 0x80 <= d <= 0xBF
    ensures var p := Pack4(a, b, c, d); p < 0x200000 && Lead4(p) == a && Trail2(p) == b && Trail1(p) == c && Trail0(p) == d
  {
  }

  lemma Pack4Range(a: Octet, b: Octet, c: Octet, d: Octet)
    requires 0xF0 <= a < 0xF8 && 0x80 <= b <= 0xBF && 0x80 <= c <= 0xBF && 0x80 <= d <= 0xBF
    ensures var p := Pack4(a, b, c, d);
      (p >= 0x10000 <==> (a == 0xF0 ==> 0x90 <= b)) && (p <= 0x10FFFF <==> a <= 0xF3 || (a == 0xF4 && b <= 0x8F))
  {
  }

  // ----- one code point there and back -----

  /** The octets written for a number denote it. */
  lemma AppendDenotes(p: Point)
    requires Scalar(p)
    ensures Denoted(Append(p)) == p
  {
    if p >= 0x80 {
      AreTails(p);
      hide Pack2, Pack3, Pack4, Lead2, Lead3, Lead4, Trail0, Trail1, Trail2, Denoted2, Denoted3, Denoted4;
      if p < 0x800 {
        Unpack2(p);
        Sum2(Lead2(p), Trail0(p));
      } else if p < 0x10000 {
        Unpack3(p);
        Sum3(Lead3(p), Trail1(p), Trail0(p));
      } else {
        Unpack4(p);
        Sum4(Lead4(p), Trail2(p), Trail1(p), Trail0(p));
      }
    }
  }

  /** Every scalar value is read back from its octets, whatever follows. */
  lemma AppendThenNext(p: Point, rest: seq<Octet>)
    requires Scalar(p)
    ensures UTF8Char(Append(p)) && ByteCount(Append(p)[0]) == |Append(p)|
    ensures NextUCS4FromUTF8(Append(p) + rest) == Decoded(p, UNICODE_NO_ERROR)
    ensures Denoted(Append(p)) == p
  {
    AppendDenotes(p);
    AppendIsRead(p, rest);
    hide *;
  }

  lemma AppendIsRead(p: Point, rest: seq<Octet>)
    requires Scalar(p)
    ensures UTF8Char(Append(p)) && ByteCount(Append(p)[0]) == |Append(p)|
    ensures NextUCS4FromUTF8(Append(p) + rest) == Decoded(p, UNICODE_NO_ERROR)
  {
    var s := Append(p) + rest;
    assert s[0] == Append(p)[0];
    AreTails(p);
    hide Pack2, Pack3, Pack4, Lead2, Lead3, Lead4, Trail0, Trail1, Trail2, IsTrail;
    Trails(Trail0(p));
    Trails(Trail1(p));
    Trails(Trail2(p));
    if p < 0x80 {
      OneOctet(p);
    } else if p < 0x800 {
      Unpack2(p);
      assert s[1] == Append(p)[1];
    } else if p < 0x10000 {
      Unpack3(p);
      Lead3Bounds(p);
      assert s[1] == Append(p)[1] && s[2] == Append(p)[2];
    } else {
      Unpack4(p);
      Lead4Bounds(p);
      assert s[1] == Append(p)[1] && s[2] == Append(p)[2] && s[3] == Append(p)[3];
    }
  }

  /** What is accepted is a character of the grammar, has a scalar value, and is the encoding of it. */
  lemma NextThenAppend(s: seq<Octet>)
    requires s != [] && NextUCS4FromUTF8(s).error == UNICODE_NO_ERROR
    ensures var (n, p) := (ByteCount(s[0]), NextUCS4FromUTF8(s).point);
      1 <= n <= |s| && Scalar(p) && Append(p) == s[..n] && UTF8Char(s[..n]) && p == Denoted(s[..n])
  {
    hide Pack2, Pack3, Pack4, Append, Scalar, UTF8Char, IsTrail, Denoted;
    var n := ByteCount(s[0]);
    if n == 1 {
      OneOctet(s[0]);
      assert s[..1] == [s[0]];
    } else if n == 2 {
      Next2(s);
    } else if n == 3 {
      Next3(s);
    } else {
      Next4(s);
    }
    AppendDenotes(NextUCS4FromUTF8(s).point);
  }

  lemma Next2(s: seq<Octet>)
    requires s != [] && ByteCount(s[0]) == 2 && CodePoint2(s).error == UNICODE_NO_ERROR
    ensures var p := CodePoint2(s).point; |s| >= 2 && Scalar(p) && Append(p) == s[..2] && UTF8Char(s[..2])
  {
    hide Pack2, Append, Scalar, UTF8Char, IsTrail, ByteCount;
    Exact2(s[0], s[1]);
    assert s[..2] == [s[0], s[1]];
  }

  lemma Next3(s: seq<Octet>)
    requires s != [] && ByteCount(s[0]) == 3 && CodePoint3(s).error == UNICODE_NO_ERROR
    ensures var p := CodePoint3(s).point; |s| >= 3 && Scalar(p) && Append(p) == s[..3] && UTF8Char(s[..3])
  {
    hide Pack3, Append, Scalar, UTF8Char, IsTrail, ByteCount;
    Exact3(s[0], s[1], s[2]);
    assert s[..3] == [s[0], s[1], s[2]];
  }

  lemma Next4(s: seq<Octet>)
    requires s != [] && ByteCount(s[0]) == 4 && CodePoint4(s).error == UNICODE_NO_ERROR
    ensures var p := CodePoint4(s).point; |s| >= 4 && Scalar(p) && Append(p) == s[..4] && UTF8Char(s[..4])
  {
    hide Pack4, Append, Scalar, UTF8Char, IsTrail, ByteCount;
    Exact4(s[0], s[1], s[2], s[3]);
    assert s[..4] == [s[0], s[1], s[2], s[3]];
  }

  lemma OneOctet(a: Octet)
    requires a < 0x80
    ensures a & 0xFF == a && Append(a) == [a] && UTF8Char([a]) && Scalar(a)
  {
  }

  lemma Exact2(a: Octet, b: Octet)
    requires ByteCount(a) == 2 && IsTrail(b) && Pack2(a, b) >= 0x80
    ensures Scalar(Pack2(a, b)) && Append(Pack2(a, b)) == [a, b] && UTF8Char([a, b])
  {
    hide Pack2, IsTrail, Lead2, Trail0;
    Trails(b);
    Repack2(a, b);
  }

  lemma Exact3(a: Octet, b: Octet, c: Octet)
    requires ByteCount(a) == 3 && IsTrail(b) && IsTrail(c) && Pack3(a, b, c) >= 0x800
    requires Pack3(a, b, c) < 0xD800 || 0xDFFF < Pack3(a, b, c)
    ensures Scalar(Pack3(a, b, c)) && Append(Pack3(a, b, c)) == [a, b, c] && UTF8Char([a, b, c])
  {
    hide Pack3, IsTrail, Lead3, Trail0, Trail1;
    Trails(b);
    Trails(c);
    Repack3(a, b, c);
    Pack3Range(a, b, c);
  }

  lemma Exact4(a: Octet, b: Octet, c: Octet, d: Octet)
    requires ByteCount(a) == 4 && IsTrail(b) && IsTrail(c) && IsTrail(d) && 0x10000 <= Pack4(a, b, c, d) <= 0x10FFFF
    ensures Scalar(Pack4(a, b, c, d)) && Append(Pack4(a, b, c, d)) == [a, b, c, d] && UTF8Char([a, b, c, d])
  {
    hide Pack4, IsTrail, Lead4, Trail0, Trail1, Trail2;
    Trails(b);
    Trails(c);
    Trails(d);
    Repack4(a, b, c, d);
    Pack4Range(a, b, c, d);
  }

  /** Every character of the grammar is accepted. */
  lemma GrammarAccepted(s: seq<Octet>, n: nat)
    requires 1 <= n <= |s| && UTF8Char(s[..n])
    ensures ByteCount(s[0]) == n && NextUCS4FromUTF8(s).error == UNICODE_NO_ERROR
  {
    hide CodePoint2, CodePoint3, CodePoint4;
    if n == 2 {
      Accepts2(s[0], s[1]);
      assert s[..2] == [s[0], s[1]];
      Short2(s);
    } else if n == 3 {
      Accepts3(s[0], s[1], s[2]);
      assert s[..3] == [s[0], s[1], s[2]];
      Short3(s);
    } else if n == 4 {
      Accepts4(s[0], s[1], s[2], s[3]);
      assert s[..4] == [s[0], s[1], s[2], s[3]];
      Short4(s);
    }
  }

  lemma Accepts2(a: Octet, b: Octet)
    requires UTF8Char([a, b])
    ensures ByteCount(a) == 2 && IsTrail(b) && Pack2(a, b) >= 0x80
  {
    hide IsTrail, Pack2;
    Trails(b);
    Repack2(a, b);
  }

  lemma Accepts3(a: Octet, b: Octet, c: Octet)
    requires UTF8Char([a, b, c])
    ensures ByteCount(a) == 3 && IsTrail(b) && IsTrail(c)
    ensures Pack3(a, b, c) >= 0x800 && !(0xD800 <= Pack3(a, b, c) <= 0xDFFF)
  {
    hide IsTrail, Pack3;
    Trails(b);
    Trails(c);
    Pack3Range(a, b, c);
  }

  lemma Accepts4(a: Octet, b: Octet, c: Octet, d: Octet)
    requires UTF8Char([a, b, c, d])
    ensures ByteCount(a) == 4 && IsTrail(b) && IsTrail(c) && IsTrail(d) && 0x10000 <= Pack4(a, b, c, d) <= 0x10FFFF
  {
    hide IsTrail, Pack4;
    Trails(b);
    Trails(c);
    Trails(d);
    Pack4Range(a, b, c, d);
  }

  lemma Short2(s: seq<Octet>)
    requires |s| >= 2 && IsTrail(s[1]) && Pack2(s[0], s[1]) >= 0x80
    ensures CodePoint2(s).error == UNICODE_NO_ERROR
  {
    hide IsTrail, Pack2;
  }

  lemma Short3(s: seq<Octet>)
    requires |s| >= 3 && IsTrail(s[1]) && IsTrail(s[2])
    requires Pack3(s[0], s[1], s[2]) >= 0x800 && !(0xD800 <= Pack3(s[0], s[1], s[2]) <= 0xDFFF)
    ensures CodePoint3(s).error == UNICODE_NO_ERROR
  {
    hide IsTrail, Pack3;
  }

  lemma Short4(s: seq<Octet>)
    requires |s| >= 4 && IsTrail(s[1]) && IsTrail(s[2]) && IsTrail(s[3]) && 0x10000 <= Pack4(s[0], s[1], s[2], s[3]) <= 0x10FFFF
    ensures CodePoint4(s).error == UNICODE_NO_ERROR
  {
    hide IsTrail, Pack4;
  }

  /** Octets are missing exactly when the announced length is not there and what is there are tails. */
  lemma OutOfSpace(s: seq<Octet>)
    requires s != []
    ensures NextUCS4FromUTF8(s).error == NOT_ENOUGH_SPACE <==> |s| < ByteCount(s[0]) && forall i :: 1 <= i < |s| ==> Tail(s[i])
  {
    if |s| == 2 {
      Trails(s[1]);
    } else if |s| == 3 {
      Trails(s[1]);
      Trails(s[2]);
    }
  }

  // ----- UTF-8 strings -----

  function Points8(s: seq<Octet>): (seq<CodePoint>, UTF8Error)
  {
    if s == [] then ([], UNICODE_NO_ERROR)
    else
      var d := NextUCS4FromUTF8(s);
      if d.error != UNICODE_NO_ERROR then ([], d.error)
      else
        NextThenAppend(s);
        var (ps, e) := Points8(s[ByteCount(s[0])..]);
        ([d.point] + ps, e)
  }

  function AppendAll(ps: seq<CodePoint>): seq<Octet>
  {
    if ps == [] then [] else Append(ps[0]) + AppendAll(ps[1..])
  }

  ghost predicate Scalars(ps: seq<CodePoint>)
  {
    forall i :: 0 <= i < |ps| ==> Scalar(ps[i])
  }

  lemma {:induction false} DecodesEncoded(ps: seq<CodePoint>)
    requires Scalars(ps)
    ensures Points8(AppendAll(ps)) == (ps, UNICODE_NO_ERROR)
    decreases |ps|
  {
    if ps != [] {
      var first, rest := Append(ps[0]), AppendAll(ps[1..]);
      AppendThenNext(ps[0], rest);
      var s := AppendAll(ps);
      assert s == first + rest && s[0] == first[0] && s[|first|..] == rest;
      DecodesEncoded(ps[1..]);
      assert ps == [ps[0]] + ps[1..];
    }
  }

  /** What was decoded is exactly the part that was read; behind it, at an error, no character follows. */
  lemma {:induction false} EncodesDecoded(s: seq<Octet>)
    ensures var (ps, e) := Points8(s); var n := |AppendAll(ps)|;
      && Scalars(ps) && n <= |s| && AppendAll(ps) == s[..n]
      && (if e == UNICODE_NO_ERROR then n == |s| else n < |s| && forall k :: 1 <= k <= |s[n..]| ==> !UTF8Char(s[n..][..k]))
    decreases |s|
  {
    var (ps, e) := Points8(s);
    if s == [] {
    } else if NextUCS4FromUTF8(s).error != UNICODE_NO_ERROR {
      forall k | 1 <= k <= |s| && UTF8Char(s[..k])
        ensures false
      {
        GrammarAccepted(s, k);
      }
      assert s[0..] == s;
    } else {
      NextThenAppend(s);
      var m := ByteCount(s[0]);
      assert ps[1..] == Points8(s[m..]).0 && e == Points8(s[m..]).1 && ps[0] == NextUCS4FromUTF8(s).point;
      assert AppendAll(ps) == s[..m] + AppendAll(ps[1..]);
      hide Points8, AppendAll, NextUCS4FromUTF8, UTF8Char, Scalar, ByteCount, Append;
      EncodesDecoded(s[m..]);
      JoinSlices(s, m, |AppendAll(ps[1..])|);
    }
  }

  lemma JoinSlices(s: seq<Octet>, m: nat, n: nat)
    requires m + n <= |s|
    ensures s[..m + n] == s[..m] + s[m..][..n] && s[m + n..] == s[m..][n..]
  {
  }

  /** Accepted are exactly the strings of the grammar. */
  lemma {:induction false} AcceptsGrammar(s: seq<Octet>)
    ensures Points8(s).1 == UNICODE_NO_ERROR <==> UTF8Octets(s)
    decreases |s|
  {
    if s != [] {
      if NextUCS4FromUTF8(s).error == UNICODE_NO_ERROR {
        NextThenAppend(s);
        AcceptsGrammar(s[ByteCount(s[0])..]);
      }
      forall n | 1 <= n <= |s| && UTF8Char(s[..n]) && UTF8Octets(s[n..])
        ensures Points8(s).1 == UNICODE_NO_ERROR
      {
        GrammarAccepted(s, n);
        AcceptsGrammar(s[n..]);
      }
    }
  }

  // ----- UTF-16 strings -----

  function CodePointToUTF16(p: CodePoint): (r: seq<Unit>)
    ensures 1 <= |r| <= 2
  {
    if p > 0xFFFF then [ToHighSurrogate(p), ToLowSurrogate(p)] else [p]
  }

  function Units(ps: seq<CodePoint>): seq<Unit>
  {
    if ps == [] then [] else CodePointToUTF16(ps[0]) + Units(ps[1..])
  }

  function Points16(u: seq<Unit>): (seq<CodePoint>, UTF8Error)
  {
    if u == [] then ([], UNICODE_NO_ERROR)
    else if !IsSurrogate(u[0]) then
      var (ps, e) := Points16(u[1..]);
      ([u[0]] + ps, e)
    else if !IsHighSurrogate(u[0]) || |u| == 1 || !IsLowSurrogate(u[1]) then ([], INVALID_SEQUENCE)
    else
      var (ps, e) := Points16(u[2..]);
      ([DecodeSurrogatePair(u[0], u[1])] + ps, e)
  }

  predicate High(u: Unit) { 0xD800 <= u <= 0xDBFF }

  predicate Low(u: Unit) { 0xDC00 <= u <= 0xDFFF }

  /** Every high surrogate is followed by a low one, and every low one preceded by a high one. */
  ghost predicate WellPaired(u: seq<Unit>)
  {
    && (forall i :: 0 <= i < |u| && High(u[i]) ==> i + 1 < |u| && Low(u[i + 1]))
    && (forall i :: 0 <= i < |u| && Low(u[i]) ==> i > 0 && High(u[i - 1]))
  }

  /** Section 2.2 of RFC 2781: ten bits of each surrogate, and 0x10000. */
  function DenotedPair(h: bv32, l: bv32): bv32
  {
    (h - 0xD800) * 0x400 + (l - 0xDC00) + 0x10000
  }

  lemma PairSum(h: Unit, l: Unit)
    requires High(h) && Low(l)
    ensures DecodeSurrogatePair(h, l) == DenotedPair(h, l)
  {
  }

  lemma SurrogateRanges(u: Unit)
    ensures IsHighSurrogate(u) <==> High(u)
    ensures IsLowSurrogate(u) <==> Low(u)
    ensures IsSurrogate(u) <==> High(u) || Low(u)
  {
  }

  lemma HighPart(p: CodePoint)
    requires p > 0xFFFF
    ensures High(ToHighSurrogate(p)) && Low10(ToHighSurrogate(p)) == (p >> 10) - 0x40
  {
  }

  lemma LowPart(p: CodePoint)
    ensures Low(ToLowSurrogate(p)) && Low10(ToLowSurrogate(p)) == Low10(p)
  {
  }

  lemma JoinsHalves(p: CodePoint)
    requires p > 0xFFFF
    ensures Join((p >> 10) - 0x40, Low10(p)) == p
  {
    var x, y := (p >> 10) - 0x40, p & 0x3FF;
    TopAndRest(p);
    Disjoint(x, y);
    Carries(x, y);
  }

  lemma TopAndRest(p: CodePoint)
    requires p > 0xFFFF
    ensures p == ((p >> 10) << 10) | (p & 0x3FF)
    ensures (p >> 10) - 0x40 <= 0x3FF && ((p >> 10) - 0x40) + 0x40 == p >> 10 && p & 0x3FF <= 0x3FF
  {
  }

  lemma Disjoint(x: bv32, y: bv32)
    requires x <= 0x3FF && y <= 0x3FF
    ensures (x << 10) + y == (x << 10) | y
  {
  }

  lemma Carries(x: bv32, y: bv32)
    requires x <= 0x3FF && y <= 0x3FF
    ensures ((x << 10) | y) + 0x10000 == ((x + 0x40) << 10) | y
  {
  }

  lemma SplitPair(p: CodePoint)
    requires p > 0xFFFF
    ensures High(ToHighSurrogate(p)) && Low(ToLowSurrogate(p))
    ensures DecodeSurrogatePair(ToHighSurrogate(p), ToLowSurrogate(p)) == p
    ensures DenotedPair(ToHighSurrogate(p), ToLowSurrogate(p)) == p
  {
    PairSum(ToHighSurrogate(p), ToLowSurrogate(p));
    HighPart(p);
    LowPart(p);
    JoinsHalves(p);
    hide Low10, Join, ToHighSurrogate, ToLowSurrogate;
  }

  lemma JoinPair(h: Unit, l: Unit)
    requires High(h) && Low(l)
    ensures var p := DecodeSurrogatePair(h, l);
      0x10000 <= p <= 0x10FFFF && ToHighSurrogate(p) == h && ToLowSurrogate(p) == l && p == DenotedPair(h, l)
  {
    PairSum(h, l);
  }

  lemma {:induction false} DecodesUnits(ps: seq<CodePoint>)
    requires Scalars(ps)
    ensures Points16(Units(ps)) == (ps, UNICODE_NO_ERROR)
    decreases |ps|
  {
    if ps != [] {
      var first, rest := CodePointToUTF16(ps[0]), Units(ps[1..]);
      var u := Units(ps);
      assert u == first + rest && u[0] == first[0] && u[|first|..] == rest;
      SurrogateRanges(first[0]);
      if ps[0] > 0xFFFF {
        SplitPair(ps[0]);
        SurrogateRanges(first[1]);
        assert u[1] == first[1];
      }
      DecodesUnits(ps[1..]);
      assert ps == [ps[0]] + ps[1..];
    }
  }

  lemma {:induction false} UnitsOfDecoded(u: seq<Unit>)
    requires Points16(u).1 == UNICODE_NO_ERROR
    ensures Scalars(Points16(u).0) && Units(Points16(u).0) == u
    decreases |u|
  {
    if u != [] {
      SurrogateRanges(u[0]);
      if !IsSurrogate(u[0]) {
        UnitsOfDecoded(u[1..]);
        assert Points16(u).0[1..] == Points16(u[1..]).0;
        assert u == [u[0]] + u[1..];
      } else {
        SurrogateRanges(u[1]);
        JoinPair(u[0], u[1]);
        UnitsOfDecoded(u[2..]);
        assert Points16(u).0[1..] == Points16(u[2..]).0;
        assert u == [u[0], u[1]] + u[2..];
      }
    }
  }

  /** Accepted are exactly the strings whose surrogates are paired. */
  lemma {:induction false} AcceptsPaired(u: seq<Unit>)
    ensures Points16(u).1 == UNICODE_NO_ERROR <==> WellPaired(u)
    decreases |u|
  {
    if u != [] {
      SurrogateRanges(u[0]);
      if !IsSurrogate(u[0]) {
        AcceptsPaired(u[1..]);
        DropPaired(u, 1);
      } else if High(u[0]) && |u| > 1 {
        SurrogateRanges(u[1]);
        if Low(u[1]) {
          AcceptsPaired(u[2..]);
          DropPaired(u, 2);
        }
      }
    }
  }

  lemma DropPaired(u: seq<Unit>, n: nat)
    requires n <= |u|
    requires (n == 1 && !High(u[0]) && !Low(u[0])) || (n == 2 && High(u[0]) && Low(u[1]))
    ensures WellPaired(u) <==> WellPaired(u[n..])
  {
    var v := u[n..];
    assert forall i :: n <= i < |u| ==> u[i] == v[i - n];
    assert forall i :: 0 <= i < |v| ==> v[i] == u[i + n];
    if WellPaired(v) {
      forall i | 0 <= i < |u| && High(u[i])
        ensures i + 1 < |u| && Low(u[i + 1])
      {
        assert i >= n ==> High(v[i - n]);
      }
      forall i | 0 <= i < |u| && Low(u[i])
        ensures i > 0 && High(u[i - 1])
      {
        assert i >= n ==> Low(v[i - n]) && High(v[i - n - 1]);
      }
    }
    if WellPaired(u) {
      forall i | 0 <= i < |v| && High(v[i])
        ensures i + 1 < |v| && Low(v[i + 1])
      {
        assert High(u[i + n]);
      }
      forall i | 0 <= i < |v| && Low(v[i])
        ensures i > 0 && High(v[i - 1])
      {
        assert Low(u[i + n]) && High(u[i + n - 1]);
      }
    }
  }

  // ----- the loops -----

  lemma Step8(s: seq<Octet>, i: nat)
    requires i < |s|
    ensures var d := NextUCS4FromUTF8(s[i..]); var n := ByteCount(s[i]);
      if d.error != UNICODE_NO_ERROR then Points8(s[i..]) == ([], d.error)
      else
        && 1 <= n <= |s| - i && d.point <= 0x10FFFF
        && Points8(s[i..]) == ([d.point] + Points8(s[i + n..]).0, Points8(s[i + n..]).1)
        && Units(Points8(s[i..]).0) == CodePointToUTF16(d.point) + Units(Points8(s[i + n..]).0)
  {
    var d := NextUCS4FromUTF8(s[i..]);
    if d.error == UNICODE_NO_ERROR {
      NextThenAppend(s[i..]);
      var n := ByteCount(s[i]);
      assert s[i..][n..] == s[i + n..];
      assert ([d.point] + Points8(s[i + n..]).0)[1..] == Points8(s[i + n..]).0;
    }
  }

  lemma NothingLeft8(s: seq<Octet>)
    ensures Points8(s[|s|..]) == ([], UNICODE_NO_ERROR) && Units([]) == []
    ensures s[0..] == s
  {
  }

  method UTF8ToUCS4(s: seq<Octet>) returns (out: seq<CodePoint>, error: UTF8Error)
    ensures (out, error) == Points8(s)
  {
    NothingLeft8(s);
    hide Points8, NextUCS4FromUTF8;
    out := [];
    var i := 0;
    while i < |s|
      invariant 0 <= i <= |s|
      invariant Points8(s).0 == out + Points8(s[i..]).0 && Points8(s).1 == Points8(s[i..]).1
    {
      Step8(s, i);
      var d := NextUCS4FromUTF8(s[i..]);
      if d.error != UNICODE_NO_ERROR {
        assert out + Points8(s[i..]).0 == out;
        return out, d.error;
      }
      out := out + [d.point];
      i := i + ByteCount(s[i]);
    }
    assert out + Points8(s[i..]).0 == out;
    error := UNICODE_NO_ERROR;
  }

  /** Everything in front of the first error is written, and only that. */
  method UTF8ToUTF16(s: seq<Octet>) returns (out: seq<Unit>, error: UTF8Error)
    ensures out == Units(Points8(s).0) && error == Points8(s).1
  {
    NothingLeft8(s);
    hide Points8, NextUCS4FromUTF8, Units, CodePointToUTF16;
    out := [];
    var i := 0;
    while i < |s|
      invariant 0 <= i <= |s|
      invariant Units(Points8(s).0) == out + Units(Points8(s[i..]).0) && Points8(s).1 == Points8(s[i..]).1
    {
      Step8(s, i);
      var d := NextUCS4FromUTF8(s[i..]);
      if d.error != UNICODE_NO_ERROR {
        assert out + Units(Points8(s[i..]).0) == out;
        assert Points8(s).1 == d.error;
        return out, d.error;
      }
      out := out + CodePointToUTF16(d.point);
      i := i + ByteCount(s[i]);
    }
    error := UNICODE_NO_ERROR;
  }

  method UTF16ToUTF8(u: seq<Unit>) returns (out: seq<Octet>, error: UTF8Error)
    ensures out == AppendAll(Points16(u).0) && error == Points16(u).1
  {
    out := [];
    var i := 0;
    while i < |u|
      invariant 0 <= i <= |u|
      invariant AppendAll(Points16(u).0) == out + AppendAll(Points16(u[i..]).0) && Points16(u).1 == Points16(u[i..]).1
    {
      ghost var rest := u[i..];
      var res: CodePoint := u[i];
      i := i + 1;
      if IsSurrogate(res) {
        if IsHighSurrogate(res) {
          if i == |u| {
            return out, INVALID_SEQUENCE;
          }
          var low := u[i];
          i := i + 1;
          if !IsLowSurrogate(low) {
            return out, INVALID_SEQUENCE;
          }
          PairIsCodePoint(res, low);
          res := DecodeSurrogatePair(res, low);
        } else {
          return out, INVALID_SEQUENCE;
        }
      }
      assert Points16(rest).0[0] == res && Points16(rest).0[1..] == Points16(u[i..]).0;
      out := out + Append(res);
    }
    error := UNICODE_NO_ERROR;
  }

  lemma PairIsCodePoint(h: bv32, l: bv32)
    ensures DecodeSurrogatePair(h, l) <= 0x10FFFF
  {
  }

  // ----- the two round trips -----

  /** UTF-16 to UTF-8 and back is the identity exactly on well-formed strings, and the octets between are well formed. */
  lemma UTF16RoundTrip(u: seq<Unit>)
    ensures var (ps, e) := Points16(u); var octets := AppendAll(ps);
      && UTF8Octets(octets) && Points8(octets) == (ps, UNICODE_NO_ERROR)
      && (WellPaired(u) <==> e == UNICODE_NO_ERROR)
      && (WellPaired(u) <==> Units(Points8(octets).0) == u)
  {
    var (ps, e) := Points16(u);
    AcceptsPaired(u);
    DecodedAreScalars(u);
    DecodesEncoded(ps);
    AcceptsGrammar(AppendAll(ps));
    if e == UNICODE_NO_ERROR {
      UnitsOfDecoded(u);
    } else if Units(ps) == u {
      DecodesUnits(ps);
    }
  }

  lemma {:induction false} DecodedAreScalars(u: seq<Unit>)
    ensures Scalars(Points16(u).0)
    decreases |u|
  {
    if u != [] {
      SurrogateRanges(u[0]);
      if !IsSurrogate(u[0]) {
        DecodedAreScalars(u[1..]);
      } else if IsHighSurrogate(u[0]) && |u| > 1 && IsLowSurrogate(u[1]) {
        SurrogateRanges(u[1]);
        JoinPair(u[0], u[1]);
        DecodedAreScalars(u[2..]);
      }
    }
  }

  /** UTF-8 to UTF-16 and back gives the same octets exactly on the strings of the grammar. */
  lemma UTF8RoundTrip(s: seq<Octet>)
    ensures var (ps, e) := Points8(s); var units := Units(ps);
      && WellPaired(units) && Points16(units) == (ps, UNICODE_NO_ERROR)
      && (UTF8Octets(s) <==> e == UNICODE_NO_ERROR)
      && (UTF8Octets(s) <==> AppendAll(Points16(units).0) == s)
  {
    var (ps, e) := Points8(s);
    AcceptsGrammar(s);
    EncodesDecoded(s);
    DecodesUnits(ps);
    AcceptsPaired(Units(ps));
    assert s[..|s|] == s;
  }
}
