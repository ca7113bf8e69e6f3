/** The exporter's second, independent canonical printer, and the text that
    bundle identifiers are hashed from. */
module CanonicalJson {
  import opened JsText
  import opened JsonText
  import opened Utf8
  import opened CanonicalPayload
  import opened CanonicalPayloadLaws

  /** This printer looks neither at prototypes nor at the reserved key, so it
      reads a value without the strictness. */
  ghost predicate ReadsTo(h: Heap, v: Val, j: Json) {
    Unfolds(Loose, h, v, j)
  }

  ghost predicate ReadsWithHoles(h: Heap, v: Val, j: Json) {
    Unfolds(WithHoles, h, v, j)
  }

  predicate AtLeastAsLoose(m: Reading, n: Reading) {
    m == n || m.Strict? || n.WithHoles?
  }

  lemma {:induction false} ReadsMoreLoosely(m: Reading, n: Reading, h: Heap, v: Val, j: Json)
    requires Unfolds(m, h, v, j) && AtLeastAsLoose(m, n)
    ensures Unfolds(n, h, v, j)
    decreases j, 0
  {
    if v.Object? {
      match h[v.ref]
      case ArrayObj(items) => ItemsReadMoreLoosely(m, n, h, items, j.items);
      case RecordObj(_, fields) => FieldsReadMoreLoosely(m, n, h, fields, SortedKeys(fields.Keys), j.fields);
    }
  }

  lemma {:induction false} ItemsReadMoreLoosely(m: Reading, n: Reading, h: Heap, items: seq<Val>, list: Items)
    requires UnfoldsItems(m, h, items, list) && AtLeastAsLoose(m, n)
    ensures UnfoldsItems(n, h, items, list)
    decreases list, 0
  {
    if list.Item? {
      ReadsMoreLoosely(m, n, h, items[0], list.head);
      ItemsReadMoreLoosely(m, n, h, items[1..], list.tail);
    }
  }

  lemma {:induction false} FieldsReadMoreLoosely(m: Reading, n: Reading, h: Heap, fields: map<Text, Val>,
                                                 keys: seq<Text>, list: Fields)
    requires UnfoldsFields(m, h, fields, keys, list) && AtLeastAsLoose(m, n)
    ensures UnfoldsFields(n, h, fields, keys, list)
    decreases list, 0
  {
    if list.Field? {
      ReadsMoreLoosely(m, n, h, fields[keys[0]], list.value);
      FieldsReadMoreLoosely(m, n, h, fields, keys[1..], list.rest);
    }
  }

  // ---- The printer: recursion on the value, bounded by the tree it reads as ----

  /** `map` passes over a hole, and `join` gives nothing for it. */
  ghost function CanonicalValue(h: Heap, v: Val, j: Json): Text
    requires ProperHeap(h) && Proper(h, v) && Unfolds(WithHoles, h, v, j)
    decreases j, 0
  {
    match v
    case Null => NULL_TEXT
    case Str(text) => Quote(text)
    case Bool(value) => if value then TRUE_TEXT else FALSE_TEXT
    case Num(number) => if number.NegativeZero? then ZERO else number.token
    case Hole => []
    case Object(ref) =>
      match h[ref]
      case ArrayObj(items) => [OPEN_BRACKET] + Join(ItemTexts(h, items, j.items), COMMA) + [CLOSE_BRACKET]
      case RecordObj(_, fields) =>
        [OPEN_BRACE] + Join(MemberTexts(h, fields, SortedKeys(fields.Keys), j.fields), COMMA) + [CLOSE_BRACE]
  }

  ghost function ItemTexts(h: Heap, items: seq<Val>, list: Items): seq<Text>
    requires ProperHeap(h) && (forall v <- items :: Proper(h, v)) && UnfoldsItems(WithHoles, h, items, list)
    decreases list, 0
  {
    if items == [] then []
    else [CanonicalValue(h, items[0], list.head)] + ItemTexts(h, items[1..], list.tail)
  }

  ghost function MemberTexts(h: Heap, fields: map<Text, Val>, keys: seq<Text>, list: Fields): seq<Text>
    requires ProperHeap(h) && ProperFields(h, fields, keys) && UnfoldsFields(WithHoles, h, fields, keys, list)
    decreases list, 0
  {
    if keys == [] then []
    else
      [Quote(keys[0]) + [COLON] + CanonicalValue(h, fields[keys[0]], list.value)]
      + MemberTexts(h, fields, keys[1..], list.rest)
  }

  /** Without holes it prints the tree the value reads as. */
  lemma {:induction false} CanonicalValuePrints(h: Heap, v: Val, j: Json)
    requires ProperHeap(h) && Proper(h, v) && Unfolds(Loose, h, v, j)
    ensures Unfolds(WithHoles, h, v, j) && Valid(j) && CanonicalValue(h, v, j) == Print(j)
    decreases j, 0
  {
    ReadsMoreLoosely(Loose, WithHoles, h, v, j);
    if v.Object? {
      match h[v.ref]
      case ArrayObj(items) =>
        ItemTextsPrint(h, items, j.items);
        JoinedItems(j.items);
      case RecordObj(_, fields) =>
        MemberTextsPrint(h, fields, SortedKeys(fields.Keys), j.fields);
        JoinedFields(j.fields);
    }
  }

  lemma {:induction false} ItemTextsPrint(h: Heap, items: seq<Val>, list: Items)
    requires ProperHeap(h) && (forall v <- items :: Proper(h, v)) && UnfoldsItems(Loose, h, items, list)
    ensures UnfoldsItems(WithHoles, h, items, list) && ValidItems(list)
    ensures ItemTexts(h, items, list) == PartsOf(list)
    decreases list, 0
  {
    if list.Item? {
      CanonicalValuePrints(h, items[0], list.head);
      ItemTextsPrint(h, items[1..], list.tail);
    }
  }

  lemma {:induction false} MemberTextsPrint(h: Heap, fields: map<Text, Val>, keys: seq<Text>, list: Fields)
    requires ProperHeap(h) && ProperFields(h, fields, keys) && UnfoldsFields(Loose, h, fields, keys, list)
    ensures UnfoldsFields(WithHoles, h, fields, keys, list) && ValidFields(list)
    ensures MemberTexts(h, fields, keys, list) == FieldParts(list)
    decreases list, 0
  {
    if list.Field? {
      CanonicalValuePrints(h, fields[keys[0]], list.value);
      MemberTextsPrint(h, fields, keys[1..], list.rest);
    }
  }

  // ---- Agreement with the payload serializer ----

  /** On a value without cycles and unprintable parts the two printers agree
      exactly when every reachable record is plain and without the reserved key
      and no array has a hole; otherwise the payload serializer refuses and this
      printer still prints. */
  lemma PrintersAgreeIff(h: Heap, v: Val, j: Json)
    requires ProperHeap(h) && Proper(h, v) && Unfolds(WithHoles, h, v, j)
    ensures Serialize(h, v, {}) == Printed(CanonicalValue(h, v, j)) <==>
            forall w :: Reaches(h, v, w) ==> Acceptable(h, w)
  {
    SerializesIffUnfolds(h, v);
    SerializesIffAcyclic(h, v);
    if forall w :: Reaches(h, v, w) ==> Acceptable(h, w) {
      StrictlyReads(h, v, v, j);
      assert ReadsAs(h, v, j);
      ReadsMoreLoosely(Strict, Loose, h, v, j);
      CanonicalValuePrints(h, v, j);
    }
  }

  /** An object that is not plain: refused by the one, printed by the other. */
  lemma PrintersCanDiffer()
    ensures var h: Heap := map[0 := RecordObj(false, map[])];
            && ProperHeap(h) && Serialize(h, Object(0), {}) == Rejected(NonPlainObject)
            && Unfolds(WithHoles, h, Object(0), JObject(NoFields))
            && CanonicalValue(h, Object(0), JObject(NoFields)) == [OPEN_BRACE, CLOSE_BRACE]
  {
    var none: map<Text, Val> := map[];
    var h: Heap := map[0 := RecordObj(false, none)];
    NoKeys(none.Keys);
    assert h[0] == RecordObj(false, none);
  }

  /** So is an array of one hole, and it prints like the empty array. */
  lemma HoleIsLost()
    ensures var h: Heap := map[0 := ArrayObj([Hole]), 1 := ArrayObj([])];
            var one := JArray(Item(JNull, NoItems));
            && ProperHeap(h) && Serialize(h, Object(0), {}) == Rejected(UndefinedUnsupported)
            && Unfolds(WithHoles, h, Object(0), one) && Unfolds(WithHoles, h, Object(1), JArray(NoItems))
            && CanonicalValue(h, Object(0), one) == CanonicalValue(h, Object(1), JArray(NoItems))
  {
    var h: Heap := map[0 := ArrayObj([Hole]), 1 := ArrayObj([])];
    assert h[0] == ArrayObj([Hole]) && h[1] == ArrayObj([]);
    assert [Hole][1..] == [];
    assert UnfoldsItems(WithHoles, h, [Hole], Item(JNull, NoItems));
    assert ItemTexts(h, [Hole], Item(JNull, NoItems)) == [[]];
    assert ItemTexts(h, [], NoItems) == [];
  }

  lemma NoKeys(keys: set<Text>)
    requires keys == {}
    ensures SortedKeys(keys) == []
  {
    assert Enumerated(keys) == [];
  }

  lemma {:induction false} StrictlyReads(h: Heap, root: Val, v: Val, j: Json)
    requires forall w :: Reaches(h, root, w) ==> Acceptable(h, w)
    requires Reaches(h, root, v) && Unfolds(WithHoles, h, v, j)
    ensures Unfolds(Strict, h, v, j)
    decreases j, 0
  {
    if v.Object? {
      match h[v.ref]
      case ArrayObj(items) =>
        forall w | w in items
          ensures Reaches(h, root, w)
        {
          ChildIsReached(h, root, v.ref, w);
        }
        StrictlyReadsItems(h, root, items, j.items);
      case RecordObj(_, fields) =>
        forall k | k in fields
          ensures Reaches(h, root, fields[k])
        {
          ChildIsReached(h, root, v.ref, fields[k]);
        }
        StrictlyReadsFields(h, root, fields, SortedKeys(fields.Keys), j.fields);
    }
  }

  lemma ChildIsReached(h: Heap, root: Val, r: Ref, w: Val)
    requires Reaches(h, root, Object(r)) && ChildOf(h, r, w)
    ensures Reaches(h, root, w)
  {
    if root == Object(r) {
      assert IsPath(h, root, [r]) && ChildOf(h, [r][|[r]| - 1], w);
    } else {
      var path :| IsPath(h, root, path) && ChildOf(h, path[|path| - 1], Object(r));
      PathExtends(h, root, path, r);
      assert ChildOf(h, (path + [r])[|path + [r]| - 1], w);
    }
  }

  lemma {:induction false} StrictlyReadsItems(h: Heap, root: Val, items: seq<Val>, list: Items)
    requires forall w :: Reaches(h, root, w) ==> Acceptable(h, w)
    requires (forall w <- items :: Reaches(h, root, w)) && UnfoldsItems(WithHoles, h, items, list)
    ensures UnfoldsItems(Strict, h, items, list)
    decreases list, 0
  {
    if list.Item? {
      StrictlyReads(h, root, items[0], list.head);
      StrictlyReadsItems(h, root, items[1..], list.tail);
    }
  }

  lemma {:induction false} StrictlyReadsFields(h: Heap, root: Val, fields: map<Text, Val>, keys: seq<Text>,
                                               list: Fields)
    requires forall w :: Reaches(h, root, w) ==> Acceptable(h, w)
    requires (forall k <- fields :: Reaches(h, root, fields[k])) && UnfoldsFields(WithHoles, h, fields, keys, list)
    ensures UnfoldsFields(Strict, h, fields, keys, list)
    decreases list, 0
  {
    if list.Field? {
      StrictlyReads(h, root, fields[keys[0]], list.value);
      StrictlyReadsFields(h, root, fields, keys[1..], list.rest);
    }
  }

  // ---- Bundle identifiers ----

  /** `extracted_at`, `temporary_paths`, `process_id`, `snapshot_path` */
  const EXTRACTED_AT: Text := U("extracted_at")
  const TEMPORARY_PATHS: Text := U("temporary_paths")
  const PROCESS_ID: Text := U("process_id")
  const SNAPSHOT_PATH: Text := U("snapshot_path")

  ghost predicate Volatile(key: Text) {
    key == EXTRACTED_AT || key == TEMPORARY_PATHS || key == PROCESS_ID || key == SNAPSHOT_PATH
  }

  lemma VolatileIff(key: Text)
    ensures Volatile(key) <==>
            key in {U("extracted_at"), U("temporary_paths"), U("process_id"), U("snapshot_path")}
  {
  }

  /** Deletes the volatile top-level fields from a clone. */
  method WithoutVolatileTopLevelFields(value: map<Text, Val>) returns (clone: map<Text, Val>)
    ensures clone == Stable(value)
    ensures clone == value - {U("extracted_at"), U("temporary_paths"), U("process_id"), U("snapshot_path")}
  {
    clone := value;
    clone := clone - {EXTRACTED_AT};
    clone := clone - {TEMPORARY_PATHS};
    clone := clone - {PROCESS_ID};
    clone := clone - {SNAPSHOT_PATH};
  }

  ghost function Stable(value: map<Text, Val>): map<Text, Val> {
    map k | k in value && !Volatile(k) :: value[k]
  }

  /** The text a bundle identifier hashes: the clone printed as an object. */
  ghost function BundleText(h: Heap, value: map<Text, Val>, list: Fields): Text
    requires ProperHeap(h) && ProperFields(h, Stable(value), SortedKeys(Stable(value).Keys))
    requires UnfoldsFields(Loose, h, Stable(value), SortedKeys(Stable(value).Keys), list)
  {
    FieldsReadMoreLoosely(Loose, WithHoles, h, Stable(value), SortedKeys(Stable(value).Keys), list);
    [OPEN_BRACE] + Join(MemberTexts(h, Stable(value), SortedKeys(Stable(value).Keys), list), COMMA) + [CLOSE_BRACE]
  }

  ghost predicate SameReading(h: Heap, v: Val, g: Heap, w: Val) {
    exists j :: ReadsTo(h, v, j) && ReadsTo(g, w, j)
  }

  function KeysOf(list: Fields): seq<Text> {
    match list case NoFields => [] case Field(key, _, rest) => [key] + KeysOf(rest)
  }

  lemma {:induction false} KeysAreRead(m: Reading, h: Heap, fields: map<Text, Val>, keys: seq<Text>, list: Fields)
    requires UnfoldsFields(m, h, fields, keys, list)
    ensures KeysOf(list) == keys
  {
    if list.Field? {
      KeysAreRead(m, h, fields, keys[1..], list.rest);
    }
  }

  /** Both printers put the keys of an object in ascending order, each once,
      whatever order they were inserted in. */
  lemma PrintedKeysAreSorted(m: Reading, h: Heap, ref: Ref, j: Json)
    requires Unfolds(m, h, Object(ref), j) && h[ref].RecordObj?
    ensures j.JObject? && Sorted(KeysOf(j.fields))
    ensures multiset(KeysOf(j.fields)) == multiset(h[ref].fields.Keys)
  {
    hide SortedKeys, Sorted;
    SortedKeysIsSorted(h[ref].fields.Keys);
    KeysAreRead(m, h, h[ref].fields, SortedKeys(h[ref].fields.Keys), j.fields);
  }

  lemma {:induction false} SameListSameReadings(h: Heap, f: map<Text, Val>, g: Heap, e: map<Text, Val>,
                                                keys: seq<Text>, list: Fields)
    requires UnfoldsFields(Loose, h, f, keys, list) && UnfoldsFields(Loose, g, e, keys, list)
    ensures forall k <- keys :: k in f && k in e && SameReading(h, f[k], g, e[k])
  {
    if list.Field? {
      assert ReadsTo(h, f[keys[0]], list.value) && ReadsTo(g, e[keys[0]], list.value);
      SameListSameReadings(h, f, g, e, keys[1..], list.rest);
    }
  }

  lemma {:induction false} SameReadingsSameList(h: Heap, f: map<Text, Val>, g: Heap, e: map<Text, Val>,
                                                keys: seq<Text>, a: Fields, b: Fields)
    requires UnfoldsFields(Loose, h, f, keys, a) && UnfoldsFields(Loose, g, e, keys, b)
    requires forall k <- keys :: k in f && k in e && SameReading(h, f[k], g, e[k])
    ensures a == b
  {
    if a.Field? {
      var k := keys[0];
      assert k in keys;
      var j :| ReadsTo(h, f[k], j) && ReadsTo(g, e[k], j);
      UnfoldingIsUnique(Loose, Loose, h, f[k], a.value, j);
      UnfoldingIsUnique(Loose, Loose, g, e[k], b.value, j);
      SameReadingsSameList(h, f, g, e, keys[1..], a.rest, b.rest);
    }
  }

  /** Same keys, and at each key values that read as the same tree. */
  ghost predicate SameMembers(h: Heap, f: map<Text, Val>, g: Heap, e: map<Text, Val>) {
    f.Keys == e.Keys && forall k <- f.Keys :: k in e && SameReading(h, f[k], g, e[k])
  }

  lemma SortedKeysDetermineKeys(a: set<Text>, b: set<Text>)
    requires SortedKeys(a) == SortedKeys(b)
    ensures a == b
  {
    assert forall k :: k in a <==> k in SortedKeys(a);
    assert forall k :: k in b <==> k in SortedKeys(b);
  }

  lemma SameListsSameMembers(h: Heap, f: map<Text, Val>, g: Heap, e: map<Text, Val>, list: Fields)
    requires UnfoldsFields(Loose, h, f, SortedKeys(f.Keys), list)
    requires UnfoldsFields(Loose, g, e, SortedKeys(e.Keys), list)
    ensures SameMembers(h, f, g, e)
  {
    hide SameReading, SortedKeys;
    var keys := SortedKeys(f.Keys);
    KeysAreRead(Loose, h, f, keys, list);
    KeysAreRead(Loose, g, e, SortedKeys(e.Keys), list);
    SortedKeysDetermineKeys(f.Keys, e.Keys);
    SameListSameReadings(h, f, g, e, keys, list);
    forall k | k in f.Keys
      ensures k in e && SameReading(h, f[k], g, e[k])
    {
      assert k in keys;
    }
  }

  lemma SameMembersSameLists(h: Heap, f: map<Text, Val>, a: Fields, g: Heap, e: map<Text, Val>, b: Fields)
    requires UnfoldsFields(Loose, h, f, SortedKeys(f.Keys), a) && UnfoldsFields(Loose, g, e, SortedKeys(e.Keys), b)
    requires SameMembers(h, f, g, e)
    ensures a == b
  {
    hide SameReading, SortedKeys;
    SameReadingsSameList(h, f, g, e, SortedKeys(f.Keys), a, b);
  }

  lemma ListsAgreeIff(h: Heap, f: map<Text, Val>, a: Fields, g: Heap, e: map<Text, Val>, b: Fields)
    requires UnfoldsFields(Loose, h, f, SortedKeys(f.Keys), a) && UnfoldsFields(Loose, g, e, SortedKeys(e.Keys), b)
    ensures a == b <==> SameMembers(h, f, g, e)
  {
    hide SameMembers, UnfoldsFields;
    if a == b {
      SameListsSameMembers(h, f, g, e, a);
    } else if SameMembers(h, f, g, e) {
      SameMembersSameLists(h, f, a, g, e, b);
    }
  }

  lemma BundleTextIsPrinted(h: Heap, f: map<Text, Val>, a: Fields)
    requires ProperHeap(h) && ProperFields(h, Stable(f), SortedKeys(Stable(f).Keys))
    requires UnfoldsFields(Loose, h, Stable(f), SortedKeys(Stable(f).Keys), a)
    ensures Valid(JObject(a)) && BundleText(h, f, a) == Print(JObject(a))
  {
    hide Stable;
    MemberTextsPrint(h, Stable(f), SortedKeys(Stable(f).Keys), a);
    JoinedFields(a);
  }

  lemma TextsAgreeIff(h: Heap, f: map<Text, Val>, a: Fields, g: Heap, e: map<Text, Val>, b: Fields)
    requires ProperHeap(h) && ProperFields(h, Stable(f), SortedKeys(Stable(f).Keys))
    requires ProperHeap(g) && ProperFields(g, Stable(e), SortedKeys(Stable(e).Keys))
    requires UnfoldsFields(Loose, h, Stable(f), SortedKeys(Stable(f).Keys), a)
    requires UnfoldsFields(Loose, g, Stable(e), SortedKeys(Stable(e).Keys), b)
    ensures BundleText(h, f, a) == BundleText(g, e, b) <==> a == b
  {
    hide Stable, BundleText, Print;
    BundleTextIsPrinted(h, f, a);
    BundleTextIsPrinted(g, e, b);
    PrintIsInjective(JObject(a), JObject(b));
  }

  lemma StableMembers(h: Heap, f: map<Text, Val>, g: Heap, e: map<Text, Val>)
    ensures SameMembers(h, Stable(f), g, Stable(e)) <==>
            && (forall k :: !Volatile(k) ==> (k in f <==> k in e))
            && (forall k <- f :: !Volatile(k) && k in e ==> SameReading(h, f[k], g, e[k]))
  {
    hide Volatile, SameReading;
    assert forall k :: k in Stable(f).Keys <==> k in f && !Volatile(k);
    assert forall k :: k in Stable(e).Keys <==> k in e && !Volatile(k);
    if SameMembers(h, Stable(f), g, Stable(e)) {
      forall k | k in f && !Volatile(k) && k in e
        ensures SameReading(h, f[k], g, e[k])
      {
        assert k in Stable(f).Keys;
      }
      forall k | !Volatile(k)
        ensures k in f <==> k in e
      {
        assert k in Stable(f).Keys <==> k in Stable(e).Keys;
      }
    }
  }

  /** The hashed text is the same exactly when the two records have the same
      keys, and at each the same value, outside the four volatile fields. So any
      edit of those fields leaves it alone and any other edit changes it. */
  lemma BundleTextsAgreeIff(h: Heap, f: map<Text, Val>, a: Fields, g: Heap, e: map<Text, Val>, b: Fields)
    requires ProperHeap(h) && ProperFields(h, Stable(f), SortedKeys(Stable(f).Keys))
    requires ProperHeap(g) && ProperFields(g, Stable(e), SortedKeys(Stable(e).Keys))
    requires UnfoldsFields(Loose, h, Stable(f), SortedKeys(Stable(f).Keys), a)
    requires UnfoldsFields(Loose, g, Stable(e), SortedKeys(Stable(e).Keys), b)
    ensures BundleText(h, f, a) == BundleText(g, e, b) <==>
            && (forall k :: !Volatile(k) ==> (k in f <==> k in e))
            && (forall k <- f :: !Volatile(k) && k in e ==> SameReading(h, f[k], g, e[k]))
  {
    hide Stable, Volatile, BundleText;
    TextsAgreeIff(h, f, a, g, e, b);
    ListsAgreeIff(h, Stable(f), a, g, Stable(e), b);
    StableMembers(h, f, g, e);
  }

  /** Nothing is lost between the text and the bytes that are digested: the two
      records also give the same bytes exactly then. */
  lemma BundleBytesAgreeIff(h: Heap, f: map<Text, Val>, a: Fields, g: Heap, e: map<Text, Val>, b: Fields)
    requires ProperHeap(h) && ProperFields(h, Stable(f), SortedKeys(Stable(f).Keys))
    requires ProperHeap(g) && ProperFields(g, Stable(e), SortedKeys(Stable(e).Keys))
    requires UnfoldsFields(Loose, h, Stable(f), SortedKeys(Stable(f).Keys), a)
    requires UnfoldsFields(Loose, g, Stable(e), SortedKeys(Stable(e).Keys), b)
    ensures IsUnits(BundleText(h, f, a)) && IsUnits(BundleText(g, e, b))
    ensures Utf8Bytes(BundleText(h, f, a)) == Utf8Bytes(BundleText(g, e, b)) <==>
            && (forall k :: !Volatile(k) ==> (k in f <==> k in e))
            && (forall k <- f :: !Volatile(k) && k in e ==> SameReading(h, f[k], g, e[k]))
  {
    hide Stable, Volatile, BundleText, Print, Utf8Bytes, WellPaired;
    BundleTextIsPrinted(h, f, a);
    BundleTextIsPrinted(g, e, b);
    PrintIsWellPaired(JObject(a));
    PrintIsWellPaired(JObject(b));
    PairedIsInjective(BundleText(h, f, a), BundleText(g, e, b));
    BundleTextsAgreeIff(h, f, a, g, e, b);
  }
}
