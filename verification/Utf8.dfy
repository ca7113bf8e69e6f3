/** Text encoded in UTF-8, as `Buffer.from(text, "utf8")` does it: a surrogate
    without its other half is encoded as the replacement character. */
module Utf8 {
  import opened JsText

  const REPLACEMENT: Unit := 0xFFFD

  predicate Surrogate(u: Unit) {
    HighSurrogate(u) || LowSurrogate(u)
  }

  function Whole(u: Unit): Unit {
    if Surrogate(u) then REPLACEMENT else u
  }

  /** `text.toWellFormed()` */
  function Scrub(s: Text): (r: Text)
    ensures IsUnits(s) ==> IsUnits(r)
  {
    if s == [] then []
    else if StartsWithPair(s) then s[..2] + Scrub(s[2..])
    else [Whole(s[0])] + Scrub(s[1..])
  }

  /** The code point of a pair. */
  function PairPoint(high: Unit, low: Unit): int {
    0x1_0000 + (high - 0xD800) * 0x400 + (low - 0xDC00)
  }

  predicate IsPoint(p: int) {
    0 <= p < 0x11_0000
  }

  /** The code points that are encoded. */
  function Points(s: Text): (r: seq<int>)
    requires IsUnits(s)
    ensures forall p <- r :: IsPoint(p)
  {
    if s == [] then []
    else if StartsWithPair(s) then [PairPoint(s[0], s[1])] + Points(s[2..])
    else [Whole(s[0])] + Points(s[1..])
  }

  /** One code point in one to four bytes, as in section 3 of RFC 3629. */
  function EncodePoint(p: int): (r: seq<Byte>)
    requires IsPoint(p)
    ensures 1 <= |r| <= 4
  {
    if p < 0x80 then [p]
    else if p < 0x800 then [0xC0 + p / 0x40, 0x80 + p % 0x40]
    else if p < 0x1_0000 then [0xE0 + p / 0x1000, 0x80 + p / 0x40 % 0x40, 0x80 + p % 0x40]
    else [0xF0 + p / 0x4_0000, 0x80 + p / 0x1000 % 0x40, 0x80 + p / 0x40 % 0x40, 0x80 + p % 0x40]
  }

  function Encode(points: seq<int>): seq<Byte>
    requires forall p <- points :: IsPoint(p)
  {
    if points == [] then [] else EncodePoint(points[0]) + Encode(points[1..])
  }

  /** `Buffer.from(text, "utf8")` */
  function Utf8Bytes(s: Text): seq<Byte>
    requires IsUnits(s)
  {
    Encode(Points(s))
  }

  // ---- The encoding is a prefix code ----

  /** The number of bytes the first byte announces. */
  function Announced(first: Byte): nat {
    if first < 0x80 then 1 else if first < 0xE0 then 2 else if first < 0xF0 then 3 else 4
  }

  lemma FirstAnnounces(p: int)
    requires IsPoint(p)
    ensures |EncodePoint(p)| == Announced(EncodePoint(p)[0])
  {
  }

  lemma SplitPoint(p: int)
    requires IsPoint(p)
    ensures p == p / 0x40 * 0x40 + p % 0x40
    ensures p == p / 0x1000 * 0x1000 + p / 0x40 % 0x40 * 0x40 + p % 0x40
    ensures p == p / 0x4_0000 * 0x4_0000 + p / 0x1000 % 0x40 * 0x1000 + p / 0x40 % 0x40 * 0x40 + p % 0x40
  {
  }

  /** One code point is told from the bytes. */
  lemma PointIsRead(p: int, q: int)
    requires IsPoint(p) && IsPoint(q) && EncodePoint(p) == EncodePoint(q)
    ensures p == q
  {
    SplitPoint(p);
    SplitPoint(q);
    assert EncodePoint(p)[0] == EncodePoint(q)[0];
    if |EncodePoint(p)| > 1 {
      assert EncodePoint(p)[1] == EncodePoint(q)[1];
    }
    if |EncodePoint(p)| > 2 {
      assert EncodePoint(p)[2] == EncodePoint(q)[2];
    }
    if |EncodePoint(p)| > 3 {
      assert EncodePoint(p)[3] == EncodePoint(q)[3];
    }
  }

  /** And it is told from what follows. */
  lemma FirstPointIsRead(p: int, a: seq<Byte>, q: int, b: seq<Byte>)
    requires IsPoint(p) && IsPoint(q) && EncodePoint(p) + a == EncodePoint(q) + b
    ensures p == q && a == b
  {
    hide EncodePoint;
    var x, y := EncodePoint(p), EncodePoint(q);
    FirstAnnounces(p);
    FirstAnnounces(q);
    assert x[0] == (x + a)[0] && y[0] == (y + b)[0];
    assert x == (x + a)[..|x|] && y == (y + b)[..|y|];
    assert a == (x + a)[|x|..] && b == (y + b)[|y|..];
    PointIsRead(p, q);
  }

  lemma {:induction false} EncodeIsInjective(a: seq<int>, b: seq<int>)
    requires (forall p <- a :: IsPoint(p)) && (forall p <- b :: IsPoint(p)) && Encode(a) == Encode(b)
    ensures a == b
  {
    hide EncodePoint, IsPoint;
    if a != [] && b != [] {
      FirstPointIsRead(a[0], Encode(a[1..]), b[0], Encode(b[1..]));
      EncodeIsInjective(a[1..], b[1..]);
      assert a == [a[0]] + a[1..] && b == [b[0]] + b[1..];
    }
  }

  // ---- What the encoding forgets ----

  /** The units of a code point. */
  function Units(p: int): Text {
    if p < 0x1_0000 then [p] else [0xD800 + (p - 0x1_0000) / 0x400, 0xDC00 + (p - 0x1_0000) % 0x400]
  }

  function UnitsOf(points: seq<int>): Text {
    if points == [] then [] else Units(points[0]) + UnitsOf(points[1..])
  }

  lemma PairUnits(high: Unit, low: Unit)
    requires HighSurrogate(high) && LowSurrogate(low)
    ensures Units(PairPoint(high, low)) == [high, low]
  {
    var x, y := high - 0xD800, low - 0xDC00;
    assert 0 <= y < 0x400 && (x * 0x400 + y) / 0x400 == x && (x * 0x400 + y) % 0x400 == y;
  }

  lemma {:induction false} PointsAreScrubbed(s: Text)
    requires IsUnits(s)
    ensures UnitsOf(Points(s)) == Scrub(s)
  {
    if s != [] {
      if StartsWithPair(s) {
        PairUnits(s[0], s[1]);
        PointsAreScrubbed(s[2..]);
        assert s[..2] == [s[0], s[1]];
        assert Points(s)[1..] == Points(s[2..]);
      } else {
        PointsAreScrubbed(s[1..]);
        assert Points(s)[1..] == Points(s[1..]);
      }
    }
  }

  lemma {:induction false} ScrubbedPoints(s: Text)
    requires IsUnits(s)
    ensures Points(Scrub(s)) == Points(s)
  {
    if s != [] {
      if StartsWithPair(s) {
        ScrubbedPoints(s[2..]);
        assert Scrub(s)[0] == s[0] && Scrub(s)[1] == s[1] && Scrub(s)[2..] == Scrub(s[2..]);
      } else {
        ScrubbedPoints(s[1..]);
        assert Scrub(s)[1..] == Scrub(s[1..]);
      }
    }
  }

  /** Two texts are encoded alike exactly when they are equal up to surrogates
      without their other half. */
  lemma EncodedAlikeIff(a: Text, b: Text)
    requires IsUnits(a) && IsUnits(b)
    ensures Utf8Bytes(a) == Utf8Bytes(b) <==> Scrub(a) == Scrub(b)
  {
    hide Points, Scrub, Encode;
    if Utf8Bytes(a) == Utf8Bytes(b) {
      EncodeIsInjective(Points(a), Points(b));
    }
    PointsAreScrubbed(a);
    PointsAreScrubbed(b);
    ScrubbedPoints(a);
    ScrubbedPoints(b);
  }

  /** Scrubbing leaves exactly the well-paired texts alone. */
  lemma {:induction false} ScrubbedIff(s: Text)
    requires IsUnits(s)
    ensures Scrub(s) == s <==> WellPaired(s)
  {
    if s != [] {
      if StartsWithPair(s) {
        ScrubbedIff(s[2..]);
        assert s == s[..2] + s[2..] && Scrub(s)[2..] == Scrub(s[2..]);
      } else {
        ScrubbedIff(s[1..]);
        assert s == [s[0]] + s[1..] && Scrub(s)[1..] == Scrub(s[1..]);
      }
    }
  }

  /** Well-paired texts keep all they say. */
  lemma PairedIsInjective(a: Text, b: Text)
    requires WellPaired(a) && WellPaired(b)
    ensures IsUnits(a) && IsUnits(b)
    ensures Utf8Bytes(a) == Utf8Bytes(b) <==> a == b
  {
    hide Scrub, WellPaired, Utf8Bytes;
    WellPairedIsUnits(a);
    WellPairedIsUnits(b);
    EncodedAlikeIff(a, b);
    ScrubbedIff(a);
    ScrubbedIff(b);
  }

  // ---- The bytes themselves ----

  predicate Tail(b: int) {
    0x80 <= b <= 0xBF
  }

  /** The bytes stand for the code point, as the table of section 3 of RFC 3629
      has it: the shortest form and no other. */
  predicate StandsFor(b: seq<int>, p: int) {
    || (|b| == 1 && b[0] <= 0x7F && p == b[0])
    || (|b| == 2 && 0xC2 <= b[0] <= 0xDF && Tail(b[1]) && p == (b[0] - 0xC0) * 64 + (b[1] - 0x80))
    || (|b| == 3 && 0xE0 <= b[0] <= 0xEF && Tail(b[1]) && Tail(b[2]) && (b[0] == 0xE0 ==> b[1] >= 0xA0)
        && p == (b[0] - 0xE0) * 4096 + (b[1] - 0x80) * 64 + (b[2] - 0x80))
    || (|b| == 4 && 0xF0 <= b[0] <= 0xF4 && Tail(b[1]) && Tail(b[2]) && Tail(b[3])
        && (b[0] == 0xF0 ==> b[1] >= 0x90) && (b[0] == 0xF4 ==> b[1] <= 0x8F)
        && p == (b[0] - 0xF0) * 262144 + (b[1] - 0x80) * 4096 + (b[2] - 0x80) * 64 + (b[3] - 0x80))
  }

  lemma EncodedStandsFor(p: int)
    requires IsPoint(p)
    ensures StandsFor(EncodePoint(p), p)
  {
    SplitPoint(p);
  }

  lemma OnlyOneStandsFor(a: seq<Byte>, b: seq<Byte>, p: int)
    requires StandsFor(a, p) && StandsFor(b, p)
    ensures a == b
  {
    if |a| == |b| {
      if |a| >= 3 {
        SameHead(a[0], a[1], b[0], b[1]);
      }
    }
  }

  lemma SameHead(x: int, y: int, u: int, v: int)
    ensures x * 64 + y == u * 64 + v && 0x80 <= y <= 0xBF && 0x80 <= v <= 0xBF ==> x == u && y == v
  {
  }

  /** A code point is encoded by exactly the bytes of that table. */
  lemma EncodePointIff(p: int, b: seq<Byte>)
    requires IsPoint(p)
    ensures EncodePoint(p) == b <==> StandsFor(b, p)
  {
    EncodedStandsFor(p);
    if StandsFor(b, p) {
      OnlyOneStandsFor(b, EncodePoint(p), p);
    }
  }

  /** A pair stands for a code point beyond the first plane, as in section 2.1 of
      RFC 2781. */
  lemma PairPoints(s: Text)
    requires IsUnits(s) && |s| >= 2 && 0xD800 <= s[0] <= 0xDBFF && 0xDC00 <= s[1] <= 0xDFFF
    ensures Points(s) == [0x10000 + (s[0] - 0xD800) * 1024 + (s[1] - 0xDC00)] + Points(s[2..])
  {
    hide IsPoint;
  }

  /** Anything else stands for itself, or for U+FFFD if it is half of a pair. */
  lemma SinglePoints(s: Text)
    requires IsUnits(s) && s != []
    requires |s| == 1 || !(0xD800 <= s[0] <= 0xDBFF) || !(0xDC00 <= s[1] <= 0xDFFF)
    ensures Points(s) == [if 0xD800 <= s[0] <= 0xDFFF then 0xFFFD else s[0]] + Points(s[1..])
  {
    hide IsPoint;
  }

  /** And the bytes are those of the code points, one after the other. */
  lemma BytesOfPoints(p: int, points: seq<int>)
    requires IsPoint(p) && forall q <- points :: IsPoint(q)
    ensures Encode([]) == [] && Encode([p] + points) == EncodePoint(p) + Encode(points)
  {
    hide EncodePoint, IsPoint;
    assert ([p] + points)[1..] == points;
  }
}
