/** What a quoted string is, said without the printer: its laws with literal
    texts, and that no text that reads back the same is shorter. */
module Quoting {
  import opened JsText
  import opened JsonText

  // ---- The laws of section 7 of RFC 8259, as JSON.stringify follows them ----

  /** The cut does not go through a surrogate pair. */
  predicate CutsCleanly(a: Text, b: Text) {
    a == [] || b == [] || !HighSurrogate(a[|a| - 1]) || !LowSurrogate(b[0])
  }

  /** A string is quoted piece by piece. */
  lemma {:induction false} QuotedByPieces(a: Text, b: Text)
    requires IsUnits(a) && IsUnits(b) && CutsCleanly(a, b)
    ensures QuoteBody(a + b) == QuoteBody(a) + QuoteBody(b)
    decreases |a|
  {
    hide QuoteUnit;
    if a == [] {
      EmptyPrefix(b);
      EmptyPrefix(QuoteBody(b));
    } else if StartsWithPair(a) {
      assert (a + b)[2..] == a[2..] + b && (a + b)[..2] == a[..2];
      QuotedByPieces(a[2..], b);
      Associative(a[..2], QuoteBody(a[2..]), QuoteBody(b));
    } else {
      assert (a + b)[1..] == a[1..] + b;
      QuotedByPieces(a[1..], b);
      Associative(QuoteUnit(a[0]), QuoteBody(a[1..]), QuoteBody(b));
    }
  }

  /** Nothing in it needs an escape: controls, the quote and the backslash. */
  predicate Plain(s: Text) {
    forall u <- s :: u >= 32 && u != 34 && u != 92
  }

  lemma {:induction false} PlainBody(s: Text)
    requires WellPaired(s) && Plain(s) && IsUnits(s)
    ensures QuoteBody(s) == s
  {
    if s != [] {
      if StartsWithPair(s) {
        assert forall u <- s[2..] :: u in s;
        PlainBody(s[2..]);
        assert s == s[..2] + s[2..];
      } else {
        assert s[0] in s && forall u <- s[1..] :: u in s;
        PlainBody(s[1..]);
        assert s == [s[0]] + s[1..];
      }
    }
  }

  /** Text without those is quoted as it is, whatever its alphabet. */
  lemma PlainIsQuotedAsItIs(s: Text)
    requires WellPaired(s) && Plain(s)
    ensures IsUnits(s) && Quote(s) == [34] + s + [34]
  {
    hide WellPaired, Plain, QuoteBody, IsUnits;
    WellPairedIsUnits(s);
    PlainBody(s);
  }

  lemma QuoteOne(u: Unit)
    requires 0 <= u < 0x1_0000
    ensures IsUnits([u]) && Quote([u]) == [34] + QuoteUnit(u) + [34]
  {
    assert [u][1..] == [] && QuoteUnit(u) + [] == QuoteUnit(u);
    assert QuoteBody([u]) == QuoteUnit(u);
  }

  /** The seven short escapes. */
  lemma ShortEscapes()
    ensures Quote([8]) == U("\"\\b\"") && Quote([9]) == U("\"\\t\"") && Quote([10]) == U("\"\\n\"")
    ensures Quote([12]) == U("\"\\f\"") && Quote([13]) == U("\"\\r\"")
    ensures Quote([34]) == U("\"\\\"\"") && Quote([92]) == U("\"\\\\\"")
  {
    QuoteOne(8);
    QuoteOne(9);
    QuoteOne(10);
    QuoteOne(12);
    QuoteOne(13);
    QuoteOne(34);
    QuoteOne(92);
  }

  function LowerHex(n: int): Unit
    requires 0 <= n < 16
  {
    U("0123456789abcdef")[n]
  }

  lemma HexDigits(n: int)
    requires 0 <= n < 16
    ensures HexDigit(n) == LowerHex(n)
  {
  }

  /** The other controls, by their code in hexadecimal. */
  lemma ControlEscapes(u: Unit)
    requires 0 <= u < 32 && u !in {8, 9, 10, 12, 13}
    ensures Quote([u]) == U("\"\\u00") + [LowerHex(u / 16), LowerHex(u % 16)] + U("\"")
  {
    hide LowerHex, HexDigit;
    QuoteOne(u);
    HexDigits(0);
    HexDigits(u / 16);
    HexDigits(u % 16);
    assert LowerHex(0) == 48 by {
      ZeroIsZero();
    }
    assert U("\"\\u00") == [34, 92, 117, 48, 48] && U("\"") == [34];
  }

  lemma ZeroIsZero()
    ensures LowerHex(0) == 48
  {
  }

  /** Half of a pair, likewise. */
  lemma LoneEscapes(u: Unit)
    requires HighSurrogate(u) || LowSurrogate(u)
    ensures Quote([u]) == U("\"\\u") + [LowerHex(u / 4096), LowerHex(u / 256 % 16), LowerHex(u / 16 % 16),
                                        LowerHex(u % 16)] + U("\"")
  {
    hide LowerHex, HexDigit;
    QuoteOne(u);
    HexDigits(u / 4096);
    HexDigits(u / 256 % 16);
    HexDigits(u / 16 % 16);
    HexDigits(u % 16);
    assert U("\"\\u") == [34, 92, 117] && U("\"") == [34];
  }

  // ---- The other texts ----

  /** Literals and the empty containers. */
  lemma LiteralTexts()
    ensures Print(JNull) == U("null") && Print(JBool(true)) == U("true") && Print(JBool(false)) == U("false")
    ensures Print(JArray(NoItems)) == U("[]") && Print(JObject(NoFields)) == U("{}")
  {
  }

  /** Items between brackets, code 91 and 93, with commas, code 44, between them
      and nothing else. */
  lemma ArrayText(items: Items)
    requires ValidItems(items)
    ensures Print(JArray(items)) == [91] + PrintItems(items) + [93]
    ensures items.Item? ==>
              PrintItems(items) ==
              if items.tail.NoItems? then Print(items.head) else Print(items.head) + [44] + PrintItems(items.tail)
  {
  }

  /** Fields between braces, code 123 and 125, likewise: the quoted key, a colon,
      code 58, the value. */
  lemma ObjectText(fields: Fields)
    requires ValidFields(fields)
    ensures Print(JObject(fields)) == [123] + PrintFields(fields) + [125]
    ensures fields.Field? ==>
              var first := Quote(fields.key) + [58] + Print(fields.value);
              PrintFields(fields) == if fields.rest.NoFields? then first else first + [44] + PrintFields(fields.rest)
  {
  }

  // ---- No shorter text reads back the same ----

  /** Text that may stand between the quotes: no raw control, no half of a pair. */
  predicate Presentable(t: Text) {
    WellPaired(t) && forall i | 0 <= i < |t| :: t[i] >= 32
  }

  lemma UnitIsShort(u: Unit)
    requires 0 <= u < 0x1_0000
    ensures |QuoteUnit(u)| <= 6
    ensures u >= 32 && !HighSurrogate(u) && !LowSurrogate(u) ==> |QuoteUnit(u)| <= 2
    ensures u >= 32 && !HighSurrogate(u) && !LowSurrogate(u) && u != QUOTE && u != BACKSLASH ==> |QuoteUnit(u)| == 1
    ensures u in {8, 9, 10, 12, 13} ==> |QuoteUnit(u)| == 2
    ensures LowSurrogate(u) ==> |QuoteUnit(u)| == 6
  {
  }

  lemma OneMore(u: Unit, s: Text)
    requires 0 <= u < 0x1_0000 && IsUnits(s)
    ensures IsUnits([u] + s) && |QuoteBody([u] + s)| <= 6 + |QuoteBody(s)|
    ensures !HighSurrogate(u) ==> |QuoteBody([u] + s)| == |QuoteUnit(u)| + |QuoteBody(s)|
  {
    hide QuoteUnit;
    var t := [u] + s;
    assert t[1..] == s;
    UnitIsShort(u);
    if StartsWithPair(t) {
      UnitIsShort(s[0]);
      assert t[2..] == s[1..];
    }
  }

  lemma PairMore(a: Unit, b: Unit, s: Text)
    requires HighSurrogate(a) && LowSurrogate(b) && IsUnits(s)
    ensures IsUnits([a, b] + s) && |QuoteBody([a, b] + s)| == 2 + |QuoteBody(s)|
  {
    assert ([a, b] + s)[2..] == s;
  }

  /** Reading a text up to the closing quote, with nothing after it. */
  predicate ReadsAsString(t: Text, s: Text) {
    DecodeString(t + [QUOTE]) == Good(s, [])
  }

  lemma RawHead(t: Text, s: Text)
    requires t != [] && t[0] != BACKSLASH && ReadsAsString(t, s)
    ensures t[0] != QUOTE && s != [] && s[0] == t[0] && ReadsAsString(t[1..], s[1..])
  {
    assert (t + [QUOTE])[1..] == t[1..] + [QUOTE];
  }

  lemma EscapedHead(t: Text, s: Text)
    requires t != [] && t[0] == BACKSLASH && ReadsAsString(t, s)
    ensures |t| >= 2 && s != []
    ensures t[1] != LOWER_U ==> s[0] == ShortUnescape(t[1]) && ReadsAsString(t[2..], s[1..])
    ensures t[1] == LOWER_U ==> |t| >= 6 && 0 <= s[0] < 0x1_0000 && ReadsAsString(t[6..], s[1..])
    ensures t[1] == LOWER_U ==> forall i | 2 <= i < 6 :: HexValue(t[i]) >= 0
  {
    var w := t + [QUOTE];
    if |t| >= 2 {
      assert w[2..] == t[2..] + [QUOTE];
      if t[1] == LOWER_U && |t| >= 6 {
        assert w[2..][4..] == t[6..] + [QUOTE];
      }
    }
  }

  lemma {:induction false} NoneIsShorter(s: Text, t: Text)
    requires IsUnits(s) && Presentable(t) && ReadsAsString(t, s)
    ensures |QuoteBody(s)| <= |t|
    decreases |t|
  {
    hide QuoteBody, QuoteUnit, ReadsAsString, DecodeString;
    if t == [] {
      NothingRead(s);
    } else if t[0] != BACKSLASH {
      RawHead(t, s);
      RawIsNoLonger(s, t);
    } else {
      EscapedHead(t, s);
      assert s == [s[0]] + s[1..];
      if t[1] == LOWER_U {
        AfterPlain(t, 6);
        NoneIsShorter(s[1..], t[6..]);
        OneMore(s[0], s[1..]);
      } else if HighSurrogate(t[1]) {
        AfterUnit(t);
        RawHead(t[2..], s[1..]);
        assert t[2..][1..] == t[3..] && s[1..][1..] == s[2..];
        NoneIsShorter(s[2..], t[3..]);
        PairMore(s[0], s[1], s[2..]);
        assert s == [s[0], s[1]] + s[2..];
      } else {
        AfterUnit(t);
        AfterPlain(t, 2);
        NoneIsShorter(s[1..], t[2..]);
        OneMore(s[0], s[1..]);
        UnitIsShort(s[0]);
      }
    }
  }

  lemma NothingRead(s: Text)
    requires ReadsAsString([], s)
    ensures s == [] && QuoteBody(s) == []
  {
    EndOfString([]);
  }

  lemma AfterUnit(t: Text)
    requires Presentable(t) && |t| >= 2 && !HighSurrogate(t[0])
    ensures !LowSurrogate(t[1]) && (HighSurrogate(t[1]) ==> |t| >= 3 && LowSurrogate(t[2]) && Presentable(t[3..]))
  {
    assert WellPaired(t[1..]);
    if HighSurrogate(t[1]) {
      assert StartsWithPair(t[1..]) && t[1..][2..] == t[3..];
    }
  }

  lemma {:induction false} AfterPlain(t: Text, n: nat)
    requires Presentable(t) && n <= |t| && forall i | 0 <= i < n :: !HighSurrogate(t[i]) && !LowSurrogate(t[i])
    ensures Presentable(t[n..])
  {
    if n > 0 {
      AfterPlain(t[1..], n - 1);
      assert t[1..][n - 1..] == t[n..];
    }
  }

  lemma RawIsNoLonger(s: Text, t: Text)
    requires IsUnits(s) && Presentable(t) && t != [] && s != [] && t[0] != BACKSLASH && t[0] != QUOTE && s[0] == t[0]
    requires ReadsAsString(t[1..], s[1..])
    ensures |QuoteBody(s)| <= |t|
    decreases |t|, 0
  {
    hide QuoteBody, QuoteUnit, ReadsAsString;
    assert s == [s[0]] + s[1..];
    if StartsWithPair(t) {
      RawHead(t[1..], s[1..]);
      assert t[1..][1..] == t[2..] && s[1..][1..] == s[2..];
      NoneIsShorter(s[2..], t[2..]);
      PairMore(s[0], s[1], s[2..]);
      assert s == [s[0], s[1]] + s[2..];
    } else {
      NoneIsShorter(s[1..], t[1..]);
      OneMore(s[0], s[1..]);
      UnitIsShort(s[0]);
    }
  }

  /** And the quoted string is one of those texts: it is presentable and reads
      back as the string, and none that does is shorter. */
  lemma QuotingIsMinimal(s: Text, t: Text)
    requires IsUnits(s)
    ensures ReadsAsString(QuoteBody(s), s) && Presentable(QuoteBody(s))
    ensures Presentable(t) && ReadsAsString(t, s) ==> |QuoteBody(s)| <= |t|
  {
    hide QuoteBody, DecodeString, WellPaired;
    StringRoundTrip(s, []);
    assert [QUOTE] + [] == [QUOTE];
    QuoteBodyIsWellPaired(s);
    BodyHasNoControl(s);
    if Presentable(t) && ReadsAsString(t, s) {
      NoneIsShorter(s, t);
    }
  }

  lemma {:induction false} BodyHasNoControl(s: Text)
    requires IsUnits(s)
    ensures forall i | 0 <= i < |QuoteBody(s)| :: QuoteBody(s)[i] >= 32
  {
    if s != [] {
      if StartsWithPair(s) {
        BodyHasNoControl(s[2..]);
      } else {
        BodyHasNoControl(s[1..]);
      }
    }
  }
}
