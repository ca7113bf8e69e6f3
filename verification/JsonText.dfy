/** JSON trees, the text both canonical printers emit for them, and a decoder of
    that text. Strings are quoted as in section 7 of RFC 8259. */
module JsonText {
  import opened JsText

  datatype Json =
    | JNull
    | JBool(value: bool)
    | JString(text: Text)
    | JNumber(token: Text)
    | JArray(items: Items)
    | JObject(fields: Fields)

  datatype Items = NoItems | Item(head: Json, tail: Items)

  datatype Fields = NoFields | Field(key: Text, value: Json, rest: Fields)

  const QUOTE: Unit := 34
  const COMMA: Unit := 44
  const OPEN_BRACKET: Unit := 91
  const CLOSE_BRACKET: Unit := 93
  const OPEN_BRACE: Unit := 123
  const CLOSE_BRACE: Unit := 125
  const LOWER_U: Unit := 117

  const NULL_TEXT: Text := [110, 117, 108, 108]
  const TRUE_TEXT: Text := [116, 114, 117, 101]
  const FALSE_TEXT: Text := [102, 97, 108, 115, 101]

  predicate NumberUnit(u: Unit) {
    48 <= u <= 57 || u == 43 || u == 45 || u == 46 || u == 69 || u == 101
  }

  /** What matters about a printed number: its alphabet, and how it starts. */
  predicate NumberToken(t: Text) {
    t != [] && (48 <= t[0] <= 57 || t[0] == 45) && forall i :: 0 <= i < |t| ==> NumberUnit(t[i])
  }

  predicate Valid(j: Json) {
    match j
    case JString(text) => IsUnits(text)
    case JNumber(token) => NumberToken(token)
    case JArray(items) => ValidItems(items)
    case JObject(fields) => ValidFields(fields)
    case _ => true
  }

  predicate ValidItems(items: Items) {
    match items case NoItems => true case Item(head, tail) => Valid(head) && ValidItems(tail)
  }

  predicate ValidFields(fields: Fields) {
    match fields
    case NoFields => true
    case Field(key, value, rest) => IsUnits(key) && Valid(value) && ValidFields(rest)
  }

  // ---- Quoting ----

  function HexDigit(n: int): Unit {
    if n < 10 then 48 + n else 87 + n
  }

  function UnicodeEscape(u: Unit): Text
    requires 0 <= u < 0x1_0000
  {
    [BACKSLASH, LOWER_U, HexDigit(u / 4096), HexDigit(u / 256 % 16), HexDigit(u / 16 % 16), HexDigit(u % 16)]
  }

  /** The two-unit escapes. */
  function ShortEscape(u: Unit): Unit {
    if u == 8 then 98 else if u == 9 then 116 else if u == 10 then 110
    else if u == 12 then 102 else if u == 13 then 114
    else if u == QUOTE then QUOTE else if u == BACKSLASH then BACKSLASH else 0
  }

  function QuoteUnit(u: Unit): Text
    requires 0 <= u < 0x1_0000
  {
    if ShortEscape(u) != 0 then [BACKSLASH, ShortEscape(u)]
    else if u < 32 || HighSurrogate(u) || LowSurrogate(u) then UnicodeEscape(u)
    else [u]
  }

  function QuoteBody(s: Text): Text
    requires IsUnits(s)
  {
    if s == [] then []
    else if StartsWithPair(s) then s[..2] + QuoteBody(s[2..])
    else QuoteUnit(s[0]) + QuoteBody(s[1..])
  }

  /** `JSON.stringify(s)` of a string: lone surrogates are escaped. */
  function Quote(s: Text): Text
    requires IsUnits(s)
  {
    [QUOTE] + QuoteBody(s) + [QUOTE]
  }

  // ---- Printing ----

  function Print(j: Json): Text
    requires Valid(j)
    decreases j, 0
  {
    match j
    case JNull => NULL_TEXT
    case JBool(value) => if value then TRUE_TEXT else FALSE_TEXT
    case JString(text) => Quote(text)
    case JNumber(token) => token
    case JArray(items) => [OPEN_BRACKET] + PrintItems(items) + [CLOSE_BRACKET]
    case JObject(fields) => [OPEN_BRACE] + PrintFields(fields) + [CLOSE_BRACE]
  }

  function PrintItems(items: Items): Text
    requires ValidItems(items)
    decreases items, 0
  {
    match items
    case NoItems => []
    case Item(head, NoItems) => Print(head)
    case Item(head, tail) => Print(head) + [COMMA] + PrintItems(tail)
  }

  function PrintField(key: Text, value: Json): Text
    requires IsUnits(key) && Valid(value)
    decreases value, 1
  {
    Quote(key) + [COLON] + Print(value)
  }

  function PrintFields(fields: Fields): Text
    requires ValidFields(fields)
    decreases fields, 0
  {
    match fields
    case NoFields => []
    case Field(key, value, NoFields) => PrintField(key, value)
    case Field(key, value, rest) => PrintField(key, value) + [COMMA] + PrintFields(rest)
  }

  // ---- Decoding ----

  datatype Decoded<T> = Bad | Good(value: T, rest: Text)

  function HexValue(u: Unit): int {
    if 48 <= u <= 57 then u - 48 else if 97 <= u <= 102 then u - 87 else -1
  }

  function LongUnescape(s: Text): Decoded<Unit> {
    if |s| < 4 || HexValue(s[0]) < 0 || HexValue(s[1]) < 0 || HexValue(s[2]) < 0 || HexValue(s[3]) < 0 then Bad
    else Good(4096 * HexValue(s[0]) + 256 * HexValue(s[1]) + 16 * HexValue(s[2]) + HexValue(s[3]), s[4..])
  }

  function ShortUnescape(u: Unit): Unit {
    if u == 98 then 8 else if u == 116 then 9 else if u == 110 then 10
    else if u == 102 then 12 else if u == 114 then 13 else u
  }

  /** The units of a string up to its closing quote. */
  function DecodeString(s: Text): (r: Decoded<Text>)
    ensures r.Good? ==> |r.rest| < |s|
  {
    if s == [] then Bad
    else if s[0] == QUOTE then Good([], s[1..])
    else if s[0] != BACKSLASH then Prepend(s[0], DecodeString(s[1..]))
    else if |s| < 2 then Bad
    else if s[1] != LOWER_U then Prepend(ShortUnescape(s[1]), DecodeString(s[2..]))
    else match LongUnescape(s[2..])
      case Bad => Bad
      case Good(u, rest) => Prepend(u, DecodeString(rest))
  }

  function Prepend(u: Unit, r: Decoded<Text>): Decoded<Text> {
    if r.Bad? then Bad else Good([u] + r.value, r.rest)
  }

  /** The longest run of number units. */
  function NumberRun(s: Text): (n: nat)
    ensures n <= |s|
  {
    if s == [] || !NumberUnit(s[0]) then 0 else 1 + NumberRun(s[1..])
  }

  function Literal(s: Text, word: Text, j: Json): Decoded<Json> {
    if StartsWith(s, word) then Good(j, s[|word|..]) else Bad
  }

  function Decode(s: Text): (r: Decoded<Json>)
    ensures r.Good? ==> |r.rest| < |s|
    decreases |s|, 0
  {
    if s == [] then Bad
    else if s[0] == QUOTE then
      match DecodeString(s[1..]) case Bad => Bad case Good(t, rest) => Good(JString(t), rest)
    else if s[0] == OPEN_BRACKET then
      if |s| > 1 && s[1] == CLOSE_BRACKET then Good(JArray(NoItems), s[2..])
      else match DecodeItems(s[1..]) case Bad => Bad case Good(items, rest) => Good(JArray(items), rest)
    else if s[0] == OPEN_BRACE then
      if |s| > 1 && s[1] == CLOSE_BRACE then Good(JObject(NoFields), s[2..])
      else match DecodeFields(s[1..]) case Bad => Bad case Good(fields, rest) => Good(JObject(fields), rest)
    else if s[0] == NULL_TEXT[0] then Literal(s, NULL_TEXT, JNull)
    else if s[0] == TRUE_TEXT[0] then Literal(s, TRUE_TEXT, JBool(true))
    else if s[0] == FALSE_TEXT[0] then Literal(s, FALSE_TEXT, JBool(false))
    else if NumberRun(s) > 0 then Good(JNumber(s[..NumberRun(s)]), s[NumberRun(s)..])
    else Bad
  }

  /** One or more items, up to and with the closing bracket. */
  function DecodeItems(s: Text): (r: Decoded<Items>)
    ensures r.Good? ==> |r.rest| < |s|
    decreases |s|, 1
  {
    var first := Decode(s);
    if first.Bad? || first.rest == [] then Bad
    else if first.rest[0] == CLOSE_BRACKET then Good(Item(first.value, NoItems), first.rest[1..])
    else if first.rest[0] != COMMA then Bad
    else match DecodeItems(first.rest[1..])
      case Bad => Bad
      case Good(items, rest) => Good(Item(first.value, items), rest)
  }

  /** One or more fields, up to and with the closing brace. */
  function DecodeFields(s: Text): (r: Decoded<Fields>)
    ensures r.Good? ==> |r.rest| < |s|
    decreases |s|, 1
  {
    if s == [] || s[0] != QUOTE then Bad
    else
      var key := DecodeString(s[1..]);
      if key.Bad? || key.rest == [] || key.rest[0] != COLON then Bad
      else
        var value := Decode(key.rest[1..]);
        if value.Bad? || value.rest == [] then Bad
        else if value.rest[0] == CLOSE_BRACE then Good(Field(key.value, value.value, NoFields), value.rest[1..])
        else if value.rest[0] != COMMA then Bad
        else match DecodeFields(value.rest[1..])
          case Bad => Bad
          case Good(fields, rest) => Good(Field(key.value, value.value, fields), rest)
  }

  // ---- Decoding undoes printing ----

  lemma HexRoundTrip(n: int)
    requires 0 <= n < 16
    ensures HexValue(HexDigit(n)) == n
  {
  }

  lemma HexSum(u: Unit)
    requires 0 <= u < 0x1_0000
    ensures 4096 * (u / 4096) + 256 * (u / 256 % 16) + 16 * (u / 16 % 16) + u % 16 == u
  {
    assert u / 256 == 16 * (u / 4096) + u / 256 % 16;
    assert u / 16 == 16 * (u / 256) + u / 16 % 16;
  }

  lemma LongUnescapeOf(a: Unit, b: Unit, c: Unit, d: Unit, rest: Text)
    requires HexValue(a) >= 0 && HexValue(b) >= 0 && HexValue(c) >= 0 && HexValue(d) >= 0
    ensures LongUnescape([a, b, c, d] + rest) ==
            Good(4096 * HexValue(a) + 256 * HexValue(b) + 16 * HexValue(c) + HexValue(d), rest)
  {
    assert ([a, b, c, d] + rest)[4..] == rest;
  }

  lemma LongEscapeRoundTrip(u: Unit, rest: Text)
    requires 0 <= u < 0x1_0000
    ensures LongUnescape(UnicodeEscape(u)[2..] + rest) == Good(u, rest)
  {
    var a, b, c, d := u / 4096, u / 256 % 16, u / 16 % 16, u % 16;
    HexRoundTrip(a);
    HexRoundTrip(b);
    HexRoundTrip(c);
    HexRoundTrip(d);
    HexSum(u);
    LongUnescapeOf(HexDigit(a), HexDigit(b), HexDigit(c), HexDigit(d), rest);
    assert UnicodeEscape(u)[2..] == [HexDigit(a), HexDigit(b), HexDigit(c), HexDigit(d)];
  }

  lemma PlainUnit(u: Unit, tail: Text)
    requires u != QUOTE && u != BACKSLASH
    ensures DecodeString([u] + tail) == Prepend(u, DecodeString(tail))
  {
    assert ([u] + tail)[1..] == tail;
  }

  lemma ShortUnit(u: Unit, tail: Text)
    requires u != LOWER_U
    ensures DecodeString([BACKSLASH, u] + tail) == Prepend(ShortUnescape(u), DecodeString(tail))
  {
    assert ([BACKSLASH, u] + tail)[2..] == tail;
  }

  lemma LongUnit(u: Unit, tail: Text)
    requires 0 <= u < 0x1_0000
    ensures DecodeString(UnicodeEscape(u) + tail) == Prepend(u, DecodeString(tail))
  {
    LongEscapeRoundTrip(u, tail);
    assert (UnicodeEscape(u) + tail)[2..] == UnicodeEscape(u)[2..] + tail;
  }

  lemma UnitRoundTrip(u: Unit, tail: Text)
    requires 0 <= u < 0x1_0000
    ensures DecodeString(QuoteUnit(u) + tail) == Prepend(u, DecodeString(tail))
  {
    if ShortEscape(u) != 0 {
      ShortUnit(ShortEscape(u), tail);
    } else if u < 32 || HighSurrogate(u) || LowSurrogate(u) {
      LongUnit(u, tail);
    } else {
      PlainUnit(u, tail);
    }
  }

  lemma PairRoundTrip(a: Unit, b: Unit, tail: Text)
    requires a != QUOTE && a != BACKSLASH && b != QUOTE && b != BACKSLASH
    ensures DecodeString([a, b] + tail) == Prepend(a, Prepend(b, DecodeString(tail)))
  {
    assert [a, b] + tail == [a] + ([b] + tail);
    PlainUnit(a, [b] + tail);
    PlainUnit(b, tail);
  }

  lemma EndOfString(rest: Text)
    ensures DecodeString([QUOTE] + rest) == Good([], rest)
  {
    assert ([QUOTE] + rest)[1..] == rest;
  }

  lemma {:induction false} StringRoundTrip(s: Text, rest: Text)
    requires IsUnits(s)
    ensures DecodeString(QuoteBody(s) + ([QUOTE] + rest)) == Good(s, rest)
  {
    hide DecodeString;
    var end := [QUOTE] + rest;
    if s == [] {
      EndOfString(rest);
      EmptyPrefix(end);
    } else if StartsWithPair(s) {
      StringRoundTrip(s[2..], rest);
      PairRoundTrip(s[0], s[1], QuoteBody(s[2..]) + end);
      assert s[..2] == [s[0], s[1]];
      Associative(s[..2], QuoteBody(s[2..]), end);
      assert s == [s[0]] + ([s[1]] + s[2..]);
    } else {
      StringRoundTrip(s[1..], rest);
      UnitRoundTrip(s[0], QuoteBody(s[1..]) + end);
      Associative(QuoteUnit(s[0]), QuoteBody(s[1..]), end);
      assert s == [s[0]] + s[1..];
    }
  }

  lemma QuoteRoundTrip(s: Text, rest: Text)
    requires IsUnits(s)
    ensures (Quote(s) + rest)[0] == QUOTE && DecodeString((Quote(s) + rest)[1..]) == Good(s, rest)
  {
    StringRoundTrip(s, rest);
    assert (Quote(s) + rest)[1..] == QuoteBody(s) + ([QUOTE] + rest);
  }

  lemma {:induction false} NumberRunOfToken(t: Text, rest: Text)
    requires forall i :: 0 <= i < |t| ==> NumberUnit(t[i])
    requires rest == [] || !NumberUnit(rest[0])
    ensures NumberRun(t + rest) == |t|
  {
    if t == [] {
      assert t + rest == rest;
    } else {
      assert (t + rest)[1..] == t[1..] + rest;
      NumberRunOfToken(t[1..], rest);
    }
  }

  /** Text that may follow a value: nothing that continues a number. */
  predicate Follows(rest: Text) {
    rest == [] || !NumberUnit(rest[0])
  }

  lemma PrintIsNonempty(j: Json)
    requires Valid(j)
    ensures Print(j) != [] && Print(j)[0] != CLOSE_BRACKET && Print(j)[0] != CLOSE_BRACE
  {
  }

  lemma {:induction false} DecodePrint(j: Json, rest: Text)
    requires Valid(j) && Follows(rest)
    ensures Decode(Print(j) + rest) == Good(j, rest)
    decreases j, 0
  {
    var s := Print(j) + rest;
    match j
    case JNull =>
      assert s[|NULL_TEXT|..] == rest;
    case JBool(value) =>
      assert s[|Print(j)|..] == rest;
    case JString(text) =>
      QuoteRoundTrip(text, rest);
    case JNumber(token) =>
      NumberRunOfToken(token, rest);
      assert s[..|token|] == token && s[|token|..] == rest;
    case JArray(items) =>
      DecodePrintArray(items, rest);
    case JObject(fields) =>
      DecodePrintObject(fields, rest);
  }

  lemma ArrayOpens(t: Text)
    requires t != []
    ensures Decode([OPEN_BRACKET] + t) ==
            if t[0] == CLOSE_BRACKET then Good(JArray(NoItems), t[1..])
            else if DecodeItems(t).Bad? then Bad
            else Good(JArray(DecodeItems(t).value), DecodeItems(t).rest)
  {
    hide DecodeFields, DecodeItems;
    var s := [OPEN_BRACKET] + t;
    assert s[1..] == t;
    assert s[2..] == t[1..];
  }

  lemma DecodePrintArray(items: Items, rest: Text)
    requires ValidItems(items) && Follows(rest)
    ensures Decode([OPEN_BRACKET] + PrintItems(items) + [CLOSE_BRACKET] + rest) == Good(JArray(items), rest)
    decreases items, 1
  {
    hide Decode, DecodeItems;
    var t := PrintItems(items) + [CLOSE_BRACKET] + rest;
    assert [OPEN_BRACKET] + PrintItems(items) + [CLOSE_BRACKET] + rest == [OPEN_BRACKET] + t;
    ArrayOpens(t);
    if items.NoItems? {
      assert t[1..] == rest;
    } else {
      DecodePrintItems(items, rest);
      ItemsStart(items);
    }
  }

  lemma ObjectOpens(t: Text)
    requires t != []
    ensures Decode([OPEN_BRACE] + t) ==
            if t[0] == CLOSE_BRACE then Good(JObject(NoFields), t[1..])
            else if DecodeFields(t).Bad? then Bad
            else Good(JObject(DecodeFields(t).value), DecodeFields(t).rest)
  {
    hide DecodeFields, DecodeItems;
    var s := [OPEN_BRACE] + t;
    assert s[1..] == t;
    assert s[2..] == t[1..];
  }

  lemma DecodePrintObject(fields: Fields, rest: Text)
    requires ValidFields(fields) && Follows(rest)
    ensures Decode([OPEN_BRACE] + PrintFields(fields) + [CLOSE_BRACE] + rest) == Good(JObject(fields), rest)
    decreases fields, 1
  {
    hide Decode, DecodeFields;
    var t := PrintFields(fields) + [CLOSE_BRACE] + rest;
    assert [OPEN_BRACE] + PrintFields(fields) + [CLOSE_BRACE] + rest == [OPEN_BRACE] + t;
    ObjectOpens(t);
    if fields.NoFields? {
      assert t[1..] == rest;
    } else {
      DecodePrintFields(fields, rest);
      FieldsStart(fields);
    }
  }

  lemma ItemsStart(items: Items)
    requires ValidItems(items) && items.Item?
    ensures PrintItems(items) != [] && PrintItems(items)[0] != CLOSE_BRACKET
  {
    PrintIsNonempty(items.head);
  }

  lemma FieldsStart(fields: Fields)
    requires ValidFields(fields) && fields.Field?
    ensures PrintFields(fields) != [] && PrintFields(fields)[0] == QUOTE
  {
  }

  lemma {:induction false} DecodePrintItems(items: Items, rest: Text)
    requires ValidItems(items) && items.Item?
    ensures DecodeItems(PrintItems(items) + [CLOSE_BRACKET] + rest) == Good(items, rest)
    decreases items, 0
  {
    var s := PrintItems(items) + [CLOSE_BRACKET] + rest;
    if items.tail.NoItems? {
      var after := [CLOSE_BRACKET] + rest;
      assert s == Print(items.head) + after;
      DecodePrint(items.head, after);
      assert after[1..] == rest;
    } else {
      var after := [COMMA] + (PrintItems(items.tail) + [CLOSE_BRACKET] + rest);
      assert s == Print(items.head) + after;
      DecodePrint(items.head, after);
      assert after[1..] == PrintItems(items.tail) + [CLOSE_BRACKET] + rest;
      DecodePrintItems(items.tail, rest);
    }
  }

  lemma {:induction false} DecodePrintFields(fields: Fields, rest: Text)
    requires ValidFields(fields) && fields.Field?
    ensures DecodeFields(PrintFields(fields) + [CLOSE_BRACE] + rest) == Good(fields, rest)
    decreases fields, 0
  {
    hide Decode, DecodeString, PrintField;
    var s := PrintFields(fields) + [CLOSE_BRACE] + rest;
    if fields.rest.NoFields? {
      var after := [CLOSE_BRACE] + rest;
      DecodeOneField(fields.key, fields.value, after);
      assert s == PrintField(fields.key, fields.value) + after;
      assert after[1..] == rest;
    } else {
      var more := PrintFields(fields.rest) + [CLOSE_BRACE] + rest;
      var after := [COMMA] + more;
      DecodeOneField(fields.key, fields.value, after);
      assert s == PrintField(fields.key, fields.value) + after;
      assert after[1..] == more;
      DecodePrintFields(fields.rest, rest);
    }
  }

  /** Where decoding stands after one printed field. */
  predicate FieldDecodes(s: Text, key: Text, value: Json, after: Text) {
    && s != [] && s[0] == QUOTE
    && var k := DecodeString(s[1..]);
    && k.Good? && k.value == key && k.rest != [] && k.rest[0] == COLON
    && Decode(k.rest[1..]) == Good(value, after)
  }

  lemma DecodeOneField(key: Text, value: Json, after: Text)
    requires IsUnits(key) && Valid(value) && Follows(after)
    ensures FieldDecodes(PrintField(key, value) + after, key, value, after)
    decreases value, 1
  {
    var printed := Print(value) + after;
    assert PrintField(key, value) + after == Quote(key) + ([COLON] + printed);
    QuoteRoundTrip(key, [COLON] + printed);
    assert ([COLON] + printed)[1..] == printed;
    DecodePrint(value, after);
  }

  /** The printed text determines the tree. */
  lemma PrintIsInjective(a: Json, b: Json)
    requires Valid(a) && Valid(b)
    ensures Print(a) == Print(b) <==> a == b
  {
    DecodePrint(a, []);
    DecodePrint(b, []);
    assert Print(a) + [] == Print(a) && Print(b) + [] == Print(b);
  }

  // ---- The emitted text is well-formed UTF-16 ----

  lemma {:induction false} WellPairedAppend(a: Text, b: Text)
    requires WellPaired(a) && WellPaired(b)
    ensures WellPaired(a + b)
  {
    if a == [] {
      assert a + b == b;
    } else if StartsWithPair(a) {
      assert (a + b)[2..] == a[2..] + b;
      WellPairedAppend(a[2..], b);
    } else {
      assert (a + b)[1..] == a[1..] + b;
      WellPairedAppend(a[1..], b);
    }
  }

  lemma {:induction false} AsciiIsWellPaired(s: Text)
    requires forall i :: 0 <= i < |s| ==> 0 <= s[i] < 128
    ensures WellPaired(s)
  {
    if s != [] {
      AsciiIsWellPaired(s[1..]);
    }
  }

  lemma QuoteUnitIsWellPaired(u: Unit)
    requires 0 <= u < 0x1_0000
    ensures WellPaired(QuoteUnit(u))
  {
    if ShortEscape(u) != 0 || u < 32 || HighSurrogate(u) || LowSurrogate(u) {
      AsciiIsWellPaired(QuoteUnit(u));
    } else {
      assert [u][1..] == [];
    }
  }

  lemma {:induction false} QuoteBodyIsWellPaired(s: Text)
    requires IsUnits(s)
    ensures WellPaired(QuoteBody(s))
  {
    if s == [] {
    } else if StartsWithPair(s) {
      QuoteBodyIsWellPaired(s[2..]);
      assert QuoteBody(s)[2..] == QuoteBody(s[2..]);
    } else {
      QuoteBodyIsWellPaired(s[1..]);
      QuoteUnitIsWellPaired(s[0]);
      WellPairedAppend(QuoteUnit(s[0]), QuoteBody(s[1..]));
    }
  }

  lemma QuoteIsWellPaired(s: Text)
    requires IsUnits(s)
    ensures WellPaired(Quote(s))
  {
    QuoteBodyIsWellPaired(s);
    AsciiIsWellPaired([QUOTE]);
    WellPairedAppend([QUOTE], QuoteBody(s));
    WellPairedAppend([QUOTE] + QuoteBody(s), [QUOTE]);
  }

  /** No lone surrogate reaches the output, whatever the input strings hold, so
      encoding the text in UTF-8 loses nothing. */
  lemma {:induction false} PrintIsWellPaired(j: Json)
    requires Valid(j)
    ensures WellPaired(Print(j))
    decreases j
  {
    match j
    case JNull => AsciiIsWellPaired(NULL_TEXT);
    case JBool(value) => AsciiIsWellPaired(Print(j));
    case JString(text) => QuoteIsWellPaired(text);
    case JNumber(token) => AsciiIsWellPaired(token);
    case JArray(items) =>
      ItemsAreWellPaired(items);
      Enclosed(OPEN_BRACKET, PrintItems(items), CLOSE_BRACKET);
    case JObject(fields) =>
      FieldsAreWellPaired(fields);
      Enclosed(OPEN_BRACE, PrintFields(fields), CLOSE_BRACE);
  }

  lemma Enclosed(open: Unit, body: Text, close: Unit)
    requires WellPaired(body) && 0 <= open < 128 && 0 <= close < 128
    ensures WellPaired([open] + body + [close])
  {
    AsciiIsWellPaired([open]);
    AsciiIsWellPaired([close]);
    WellPairedAppend([open], body);
    WellPairedAppend([open] + body, [close]);
  }

  lemma Separated(a: Text, mark: Unit, b: Text)
    requires WellPaired(a) && WellPaired(b) && 0 <= mark < 128
    ensures WellPaired(a + [mark] + b)
  {
    AsciiIsWellPaired([mark]);
    WellPairedAppend(a, [mark]);
    WellPairedAppend(a + [mark], b);
  }

  lemma {:induction false} ItemsAreWellPaired(items: Items)
    requires ValidItems(items)
    ensures WellPaired(PrintItems(items))
    decreases items
  {
    if items.Item? {
      PrintIsWellPaired(items.head);
      ItemsAreWellPaired(items.tail);
      Separated(Print(items.head), COMMA, PrintItems(items.tail));
    }
  }

  lemma {:induction false} FieldsAreWellPaired(fields: Fields)
    requires ValidFields(fields)
    ensures WellPaired(PrintFields(fields))
    decreases fields
  {
    if fields.Field? {
      QuoteIsWellPaired(fields.key);
      PrintIsWellPaired(fields.value);
      Separated(Quote(fields.key), COLON, Print(fields.value));
      FieldsAreWellPaired(fields.rest);
      Separated(PrintField(fields.key, fields.value), COMMA, PrintFields(fields.rest));
    }
  }
}
