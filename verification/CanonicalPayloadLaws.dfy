/** The serializer on graphs against the finite trees they unfold to, and
    against the paths through them. */
module CanonicalPayloadLaws {
  import opened JsText
  import opened JsonText
  import opened CanonicalPayload

  // ---- Unfolding a graph value to a tree ----

  /** A strict reading takes only plain objects without a reserved key and arrays
      without holes, a loose one any objects, and the last also holes, as nulls. */
  datatype Reading = Strict | Loose | WithHoles

  /** The tree is what one reads off by following references from the value;
      shared nodes are simply read twice. */
  ghost predicate Unfolds(m: Reading, h: Heap, v: Val, j: Json)
    decreases j, 0
  {
    match v
    case Null => j == JNull
    case Bool(value) => j == JBool(value)
    case Str(text) => j == JString(text)
    case Num(Finite(token)) => j == JNumber(token)
    case Num(NegativeZero) => j == JNumber(ZERO)
    case Object(ref) =>
      ref in h &&
      (match h[ref]
       case ArrayObj(items) => j.JArray? && UnfoldsItems(m, h, items, j.items)
       case RecordObj(plain, fields) =>
         && (m.Strict? ==> plain && PROTO !in fields)
         && j.JObject? && UnfoldsFields(m, h, fields, SortedKeys(fields.Keys), j.fields))
    case Hole => m.WithHoles? && j == JNull
    case _ => false
  }

  ghost predicate UnfoldsItems(m: Reading, h: Heap, items: seq<Val>, list: Items)
    decreases list, 0
  {
    match list
    case NoItems => items == []
    case Item(head, tail) =>
      items != [] && Unfolds(m, h, items[0], head) && UnfoldsItems(m, h, items[1..], tail)
  }

  ghost predicate UnfoldsFields(m: Reading, h: Heap, fields: map<Text, Val>, keys: seq<Text>, list: Fields)
    decreases list, 0
  {
    match list
    case NoFields => keys == []
    case Field(key, value, rest) =>
      && keys != [] && keys[0] == key && key in fields
      && Unfolds(m, h, fields[key], value) && UnfoldsFields(m, h, fields, keys[1..], rest)
  }

  /** The strict reading under a name of its own, for quantifying over trees. */
  ghost predicate ReadsAs(h: Heap, v: Val, j: Json) {
    Unfolds(Strict, h, v, j)
  }

  lemma {:induction false} UnfoldingIsUnique(m: Reading, n: Reading, h: Heap, v: Val, a: Json, b: Json)
    requires Unfolds(m, h, v, a) && Unfolds(n, h, v, b)
    ensures a == b
    decreases a, 0
  {
    if v.Object? {
      match h[v.ref]
      case ArrayObj(items) => ItemsAreUnique(m, n, h, items, a.items, b.items);
      case RecordObj(_, fields) => FieldsAreUnique(m, n, h, fields, SortedKeys(fields.Keys), a.fields, b.fields);
    }
  }

  lemma {:induction false} ItemsAreUnique(m: Reading, n: Reading, h: Heap, items: seq<Val>, a: Items, b: Items)
    requires UnfoldsItems(m, h, items, a) && UnfoldsItems(n, h, items, b)
    ensures a == b
    decreases a, 0
  {
    if a.Item? {
      UnfoldingIsUnique(m, n, h, items[0], a.head, b.head);
      ItemsAreUnique(m, n, h, items[1..], a.tail, b.tail);
    }
  }

  lemma {:induction false} FieldsAreUnique(m: Reading, n: Reading, h: Heap, fields: map<Text, Val>, keys: seq<Text>,
                                           a: Fields, b: Fields)
    requires UnfoldsFields(m, h, fields, keys, a) && UnfoldsFields(n, h, fields, keys, b)
    ensures a == b
    decreases a, 0
  {
    if a.Field? {
      UnfoldingIsUnique(m, n, h, fields[a.key], a.value, b.value);
      FieldsAreUnique(m, n, h, fields, keys[1..], a.rest, b.rest);
    }
  }

  // ---- A printed value has an unfolding, and the text is that tree's text ----

  function PartsOf(items: Items): seq<Text>
    requires ValidItems(items)
  {
    match items case NoItems => [] case Item(head, tail) => [Print(head)] + PartsOf(tail)
  }

  function FieldParts(fields: Fields): seq<Text>
    requires ValidFields(fields)
  {
    match fields
    case NoFields => []
    case Field(key, value, rest) => [PrintField(key, value)] + FieldParts(rest)
  }

  lemma {:induction false} JoinedItems(items: Items)
    requires ValidItems(items)
    ensures Join(PartsOf(items), COMMA) == PrintItems(items)
  {
    if items.Item? {
      JoinedItems(items.tail);
      assert PartsOf(items)[1..] == PartsOf(items.tail);
    }
  }

  lemma {:induction false} JoinedFields(fields: Fields)
    requires ValidFields(fields)
    ensures Join(FieldParts(fields), COMMA) == PrintFields(fields)
  {
    if fields.Field? {
      JoinedFields(fields.rest);
      assert FieldParts(fields)[1..] == FieldParts(fields.rest);
    }
  }

  lemma {:induction false} PrintedUnfolds(h: Heap, v: Val, stack: set<Ref>) returns (j: Json)
    requires ProperHeap(h) && Proper(h, v)
    requires Serialize(h, v, stack).Printed?
    ensures Unfolds(Strict, h, v, j) && Valid(j) && Serialize(h, v, stack).text == Print(j)
    decreases h.Keys - stack, 0, 0
  {
    match v
    case Null => j := JNull;
    case Bool(value) => j := JBool(value);
    case Str(text) => j := JString(text);
    case Num(Finite(token)) => j := JNumber(token);
    case Num(NegativeZero) => j := JNumber(ZERO);
    case Object(ref) =>
      match h[ref] {
        case ArrayObj(items) =>
          var list := ItemsUnfold(h, items, stack + {ref});
          JoinedItems(list);
          j := JArray(list);
        case RecordObj(_, fields) =>
          var list := FieldsUnfold(h, fields, SortedKeys(fields.Keys), stack + {ref});
          JoinedFields(list);
          j := JObject(list);
      }
  }

  lemma {:induction false} ItemsUnfold(h: Heap, items: seq<Val>, stack: set<Ref>) returns (list: Items)
    requires ProperHeap(h) && forall v <- items :: Proper(h, v)
    requires SerializeItems(h, items, stack).Parts?
    ensures UnfoldsItems(Strict, h, items, list) && ValidItems(list)
    ensures SerializeItems(h, items, stack).parts == PartsOf(list)
    decreases h.Keys - stack, 1, |items|
  {
    if items == [] {
      list := NoItems;
    } else {
      var head := PrintedUnfolds(h, items[0], stack);
      var tail := ItemsUnfold(h, items[1..], stack);
      list := Item(head, tail);
    }
  }

  lemma {:induction false} FieldsUnfold(h: Heap, fields: map<Text, Val>, keys: seq<Text>, stack: set<Ref>)
    returns (list: Fields)
    requires ProperHeap(h) && ProperFields(h, fields, keys)
    requires SerializeFields(h, fields, keys, stack).Parts?
    ensures UnfoldsFields(Strict, h, fields, keys, list) && ValidFields(list)
    ensures SerializeFields(h, fields, keys, stack).parts == FieldParts(list)
    decreases h.Keys - stack, 1, |keys|
  {
    if keys == [] {
      list := NoFields;
    } else {
      var value := PrintedUnfolds(h, fields[keys[0]], stack);
      var rest := FieldsUnfold(h, fields, keys[1..], stack);
      list := Field(keys[0], value, rest);
    }
  }

  // ---- A value that unfolds is printed ----

  /** Number of nodes of a tree. */
  function Size(j: Json): nat {
    match j
    case JArray(items) => 1 + ItemsSize(items)
    case JObject(fields) => 1 + FieldsSize(fields)
    case _ => 1
  }

  function ItemsSize(items: Items): nat {
    match items case NoItems => 0 case Item(head, tail) => Size(head) + ItemsSize(tail)
  }

  function FieldsSize(fields: Fields): nat {
    match fields case NoFields => 0 case Field(_, value, rest) => Size(value) + FieldsSize(rest)
  }

  /** Every ancestor unfolds to a strictly larger tree. */
  ghost predicate Enclosing(h: Heap, trees: map<Ref, Json>, size: nat) {
    forall r <- trees :: Unfolds(Strict, h, Object(r), trees[r]) && Size(trees[r]) > size
  }

  lemma {:induction false} UnfoldingPrints(h: Heap, v: Val, j: Json, trees: map<Ref, Json>)
    requires ProperHeap(h) && Proper(h, v)
    requires Unfolds(Strict, h, v, j) && Enclosing(h, trees, Size(j))
    ensures Serialize(h, v, trees.Keys).Printed?
    decreases j, 0
  {
    hide SortedKeys;
    if v.Object? {
      if v.ref in trees {
        UnfoldingIsUnique(Strict, Strict, h, v, trees[v.ref], j);
      }
      var more := trees[v.ref := j];
      assert more.Keys == trees.Keys + {v.ref};
      match h[v.ref]
      case ArrayObj(items) =>
        UnfoldingPrintsItems(h, items, j.items, more);
      case RecordObj(_, fields) =>
        UnfoldingPrintsFields(h, fields, SortedKeys(fields.Keys), j.fields, more);
    }
  }

  lemma {:induction false} UnfoldingPrintsItems(h: Heap, items: seq<Val>, list: Items, trees: map<Ref, Json>)
    requires ProperHeap(h) && forall v <- items :: Proper(h, v)
    requires UnfoldsItems(Strict, h, items, list) && Enclosing(h, trees, ItemsSize(list))
    ensures SerializeItems(h, items, trees.Keys).Parts?
    decreases list, 0
  {
    if list.Item? {
      UnfoldingPrints(h, items[0], list.head, trees);
      UnfoldingPrintsItems(h, items[1..], list.tail, trees);
    }
  }

  lemma {:induction false} UnfoldingPrintsFields(h: Heap, fields: map<Text, Val>, keys: seq<Text>, list: Fields,
                                                 trees: map<Ref, Json>)
    requires ProperHeap(h) && ProperFields(h, fields, keys)
    requires UnfoldsFields(Strict, h, fields, keys, list) && Enclosing(h, trees, FieldsSize(list))
    ensures SerializeFields(h, fields, keys, trees.Keys).Parts?
    decreases list, 0
  {
    if list.Field? {
      UnfoldingPrints(h, fields[keys[0]], list.value, trees);
      UnfoldingPrintsFields(h, fields, keys[1..], list.rest, trees);
    }
  }

  /** Serializing succeeds exactly on values that unfold to a finite tree, with
      the text of that tree; sharing is no obstacle. */
  lemma SerializesIffUnfolds(h: Heap, v: Val)
    requires ProperHeap(h) && Proper(h, v)
    ensures Serialize(h, v, {}).Printed? <==> exists j :: ReadsAs(h, v, j)
    ensures forall j :: ReadsAs(h, v, j) ==> Valid(j) && Serialize(h, v, {}) == Printed(Print(j))
  {
    if Serialize(h, v, {}).Printed? {
      var j := PrintedUnfolds(h, v, {});
      assert ReadsAs(h, v, j);
      forall k | ReadsAs(h, v, k)
        ensures k == j
      {
        UnfoldingIsUnique(Strict, Strict, h, v, j, k);
      }
    } else {
      forall j
        ensures !ReadsAs(h, v, j)
      {
        if ReadsAs(h, v, j) {
          UnfoldingPrints(h, v, j, map[]);
        }
      }
    }
  }

  /** Equal payloads mean equal values, also across two different graphs: the
      payload decodes to the tree that both values unfold to. */
  lemma PayloadsDetermineValues(h: Heap, v: Val, g: Heap, w: Val)
    requires ProperHeap(h) && Proper(h, v) && ProperHeap(g) && Proper(g, w)
    requires Serialize(h, v, {}).Printed? && Serialize(g, w, {}).Printed?
    ensures Decode(Serialize(h, v, {}).text).Good? && Decode(Serialize(h, v, {}).text).rest == []
    ensures Unfolds(Strict, h, v, Decode(Serialize(h, v, {}).text).value)
    ensures Serialize(h, v, {}) == Serialize(g, w, {}) <==> exists j :: ReadsAs(h, v, j) && ReadsAs(g, w, j)
  {
    var a := PrintedUnfolds(h, v, {});
    var b := PrintedUnfolds(g, w, {});
    DecodePrint(a, []);
    assert Print(a) + [] == Print(a);
    PrintIsInjective(a, b);
    assert ReadsAs(h, v, a) && ReadsAs(g, w, b);
    forall j | ReadsAs(h, v, j) && ReadsAs(g, w, j)
      ensures a == b
    {
      UnfoldingIsUnique(Strict, Strict, h, v, a, j);
      UnfoldingIsUnique(Strict, Strict, g, w, b, j);
    }
  }

  // ---- Reachable cycles ----

  ghost predicate ChildOf(h: Heap, r: Ref, v: Val) {
    r in h &&
    match h[r]
    case ArrayObj(items) => v in items
    case RecordObj(_, fields) => exists k <- fields :: fields[k] == v
  }

  /** A path of references leading from a value downwards. */
  ghost predicate IsPath(h: Heap, v: Val, path: seq<Ref>)
    decreases |path|
  {
    && path != [] && v == Object(path[0])
    && (|path| > 1 ==> ChildOf(h, path[0], Object(path[1])) && IsPath(h, Object(path[1]), path[1..]))
  }

  ghost predicate Repeats(path: seq<Ref>) {
    exists i, j :: 0 <= i < j < |path| && path[i] == path[j]
  }

  /** The value itself, or a child of the last node of a path from it. */
  ghost predicate Reaches(h: Heap, v: Val, w: Val) {
    v == w || exists path :: IsPath(h, v, path) && ChildOf(h, path[|path| - 1], w)
  }

  /** Nothing about this value alone makes the serializer refuse it. */
  ghost predicate Acceptable(h: Heap, v: Val) {
    match v
    case Num(number) => !number.NonFinite?
    case Object(ref) => ref in h && (h[ref].RecordObj? ==> h[ref].plain && PROTO !in h[ref].fields)
    case _ => v.Null? || v.Bool? || v.Str?
  }

  lemma ArrayChildPrints(h: Heap, r: Ref, items: seq<Val>, v: Val, stack: set<Ref>)
    requires ProperHeap(h) && r in h && h[r] == ArrayObj(items) && v in items
    requires Serialize(h, Object(r), stack).Printed?
    ensures Proper(h, v) && r !in stack && Serialize(h, v, stack + {r}).Printed?
  {
    var i :| 0 <= i < |items| && items[i] == v;
    ItemPrints(h, items, i, stack + {r});
  }

  lemma RecordChildPrints(h: Heap, r: Ref, fields: map<Text, Val>, k: Text, stack: set<Ref>)
    requires ProperHeap(h) && r in h && h[r].RecordObj? && h[r].fields == fields && k in fields
    requires Serialize(h, Object(r), stack).Printed?
    ensures Proper(h, fields[k]) && r !in stack && Serialize(h, fields[k], stack + {r}).Printed?
  {
    hide SortedKeys;
    var keys := SortedKeys(fields.Keys);
    var i :| 0 <= i < |keys| && keys[i] == k;
    FieldPrints(h, fields, keys, i, stack + {r});
  }

  lemma ChildPrints(h: Heap, r: Ref, v: Val, stack: set<Ref>)
    requires ProperHeap(h) && r in h && ChildOf(h, r, v)
    requires Serialize(h, Object(r), stack).Printed?
    ensures Proper(h, v) && r !in stack && Serialize(h, v, stack + {r}).Printed?
  {
    hide Serialize;
    match h[r]
    case ArrayObj(items) =>
      ArrayChildPrints(h, r, items, v, stack);
    case RecordObj(_, fields) =>
      var k :| k in fields && fields[k] == v;
      RecordChildPrints(h, r, fields, k, stack);
  }

  lemma {:induction false} ItemPrints(h: Heap, items: seq<Val>, i: nat, stack: set<Ref>)
    requires ProperHeap(h) && (forall v <- items :: Proper(h, v)) && i < |items|
    requires SerializeItems(h, items, stack).Parts?
    ensures Serialize(h, items[i], stack).Printed?
  {
    if i > 0 {
      ItemPrints(h, items[1..], i - 1, stack);
    }
  }

  lemma {:induction false} FieldPrints(h: Heap, fields: map<Text, Val>, keys: seq<Text>, i: nat, stack: set<Ref>)
    requires ProperHeap(h) && ProperFields(h, fields, keys) && i < |keys|
    requires SerializeFields(h, fields, keys, stack).Parts?
    ensures Serialize(h, fields[keys[i]], stack).Printed?
  {
    if i > 0 {
      FieldPrints(h, fields, keys[1..], i - 1, stack);
    }
  }

  lemma NoRepeatWithFirst(path: seq<Ref>)
    requires path != [] && !Repeats(path[1..]) && path[0] !in path[1..]
    ensures !Repeats(path)
  {
    forall i, j | 0 <= i < j < |path|
      ensures path[i] != path[j]
    {
      assert path[j] == path[1..][j - 1];
      if i > 0 {
        assert path[i] == path[1..][i - 1];
      }
    }
  }

  lemma ElementPrints(h: Heap, v: Val, stack: set<Ref>)
    requires ProperHeap(h) && Proper(h, v) && Serialize(h, v, stack).Printed?
    ensures v.Object? ==> v.ref !in stack
  {
  }

  lemma PrintedIsAcceptable(h: Heap, v: Val, stack: set<Ref>)
    requires ProperHeap(h) && Proper(h, v) && Serialize(h, v, stack).Printed?
    ensures Acceptable(h, v)
  {
  }

  lemma {:induction false} PrintedPathsAreSimple(h: Heap, v: Val, stack: set<Ref>, path: seq<Ref>)
    requires ProperHeap(h) && Proper(h, v)
    requires Serialize(h, v, stack).Printed? && IsPath(h, v, path)
    ensures !Repeats(path) && forall r <- path :: r !in stack
    ensures forall w :: ChildOf(h, path[|path| - 1], w) ==> Acceptable(h, w)
    decreases |path|
  {
    hide Serialize, Acceptable;
    if |path| > 1 {
      var child := Object(path[1]);
      ChildPrints(h, path[0], child, stack);
      assert path == [path[0]] + path[1..];
      PrintedPathsAreSimple(h, child, stack + {path[0]}, path[1..]);
      NoRepeatWithFirst(path);
    } else {
      ElementPrints(h, v, stack);
      forall w | ChildOf(h, path[0], w)
        ensures Acceptable(h, w)
      {
        ChildPrints(h, path[0], w, stack);
        PrintedIsAcceptable(h, w, stack + {path[0]});
      }
    }
  }

  /** What makes the serializer refuse a value, whatever is below or above it. */
  ghost predicate Shows(h: Heap, v: Val, reason: Reason) {
    match reason
    case NonFiniteNumber => v == Num(NonFinite)
    case BigintUnsupported => v == BigInt
    case UndefinedUnsupported => v == Undefined || v == Hole
    case FunctionUnsupported => v == Function
    case SymbolUnsupported => v == Symbol
    case NonPlainObject => v.Object? && v.ref in h && h[v.ref].RecordObj? && !h[v.ref].plain
    case ReservedKey =>
      v.Object? && v.ref in h && h[v.ref].RecordObj? && h[v.ref].plain && U("__proto__") in h[v.ref].fields
    case CircularReference => false
  }

  lemma AcceptableIff(h: Heap, v: Val)
    requires Proper(h, v)
    ensures Acceptable(h, v) <==> forall reason :: !Shows(h, v, reason)
  {
    NamesAreLiteral();
    if !Acceptable(h, v) {
      assert Shows(h, v, NonFiniteNumber) || Shows(h, v, BigintUnsupported) || Shows(h, v, UndefinedUnsupported)
          || Shows(h, v, FunctionUnsupported) || Shows(h, v, SymbolUnsupported) || Shows(h, v, NonPlainObject)
          || Shows(h, v, ReservedKey);
    }
  }

  lemma ShownIsRefused(h: Heap, v: Val, reason: Reason)
    requires Shows(h, v, reason)
    ensures !Acceptable(h, v)
  {
    NamesAreLiteral();
  }

  /** That reason can be reached from the value. */
  ghost predicate RefusedFor(h: Heap, v: Val, reason: Reason) {
    || (exists w :: Reaches(h, v, w) && Shows(h, w, reason))
    || (reason == CircularReference && exists path :: IsPath(h, v, path) && Repeats(path))
  }

  ghost predicate Trail(h: Heap, root: Val, trail: seq<Ref>, v: Val) {
    if trail == [] then v == root
    else IsPath(h, root, trail) && ChildOf(h, trail[|trail| - 1], v)
  }

  lemma {:induction false} PathExtends(h: Heap, root: Val, trail: seq<Ref>, r: Ref)
    requires Trail(h, root, trail, Object(r))
    ensures IsPath(h, root, trail + [r])
    decreases |trail|
  {
    if |trail| > 1 {
      PathExtends(h, Object(trail[1]), trail[1..], r);
      assert (trail + [r])[1..] == trail[1..] + [r];
    } else if |trail| == 1 {
      assert (trail + [r])[1..] == [r];
    }
  }

  ghost function Nodes(trail: seq<Ref>): set<Ref> {
    set r | r in trail
  }

  lemma TrailReaches(h: Heap, root: Val, trail: seq<Ref>, v: Val)
    requires Trail(h, root, trail, v)
    ensures Reaches(h, root, v)
  {
  }

  lemma RefusedHere(h: Heap, v: Val, stack: set<Ref>)
    requires ProperHeap(h) && Proper(h, v) && !Acceptable(h, v)
    ensures Serialize(h, v, stack).Rejected? && Shows(h, v, Serialize(h, v, stack).reason)
  {
    NamesAreLiteral();
  }

  lemma RefusedBelow(h: Heap, v: Val, stack: set<Ref>)
    requires ProperHeap(h) && Proper(h, v) && Acceptable(h, v) && Serialize(h, v, stack).Rejected?
    ensures v.Object?
    ensures var out := Serialize(h, v, stack);
            if v.ref in stack then out.reason == CircularReference
            else match h[v.ref]
              case ArrayObj(items) => SerializeItems(h, items, stack + {v.ref}) == NoParts(out.reason)
              case RecordObj(_, fields) =>
                SerializeFields(h, fields, SortedKeys(fields.Keys), stack + {v.ref}) == NoParts(out.reason)
  {
    hide SortedKeys, SerializeItems, SerializeFields;
  }

  lemma {:induction false} RejectedIsRefused(h: Heap, root: Val, trail: seq<Ref>, v: Val)
    requires ProperHeap(h) && Proper(h, v) && Trail(h, root, trail, v)
    requires Serialize(h, v, Nodes(trail)).Rejected?
    ensures RefusedFor(h, root, Serialize(h, v, Nodes(trail)).reason)
    decreases h.Keys - Nodes(trail), 0, 0
  {
    hide SortedKeys, Shows, Serialize, Acceptable;
    TrailReaches(h, root, trail, v);
    if !Acceptable(h, v) {
      RefusedHere(h, v, Nodes(trail));
    } else {
      RefusedBelow(h, v, Nodes(trail));
      PathExtends(h, root, trail, v.ref);
      var longer := trail + [v.ref];
      if v.ref in trail {
        var i :| 0 <= i < |trail| && trail[i] == v.ref;
        assert longer[i] == longer[|trail|];
      } else {
        assert Nodes(longer) == Nodes(trail) + {v.ref};
        assert v.ref in h.Keys - Nodes(trail);
        match h[v.ref]
        case ArrayObj(items) => RejectedItems(h, root, longer, items);
        case RecordObj(_, fields) => RejectedFields(h, root, longer, fields, SortedKeys(fields.Keys));
      }
    }
  }

  lemma {:induction false} RejectedItems(h: Heap, root: Val, trail: seq<Ref>, items: seq<Val>)
    requires ProperHeap(h) && forall v <- items :: Proper(h, v) && Trail(h, root, trail, v)
    requires SerializeItems(h, items, Nodes(trail)).NoParts?
    ensures RefusedFor(h, root, SerializeItems(h, items, Nodes(trail)).reason)
    decreases h.Keys - Nodes(trail), 1, |items|
  {
    if Serialize(h, items[0], Nodes(trail)).Rejected? {
      RejectedIsRefused(h, root, trail, items[0]);
    } else {
      RejectedItems(h, root, trail, items[1..]);
    }
  }

  lemma {:induction false} RejectedFields(h: Heap, root: Val, trail: seq<Ref>, fields: map<Text, Val>, keys: seq<Text>)
    requires ProperHeap(h) && ProperFields(h, fields, keys)
    requires forall k <- keys :: Trail(h, root, trail, fields[k])
    requires SerializeFields(h, fields, keys, Nodes(trail)).NoParts?
    ensures RefusedFor(h, root, SerializeFields(h, fields, keys, Nodes(trail)).reason)
    decreases h.Keys - Nodes(trail), 1, |keys|
  {
    if Serialize(h, fields[keys[0]], Nodes(trail)).Rejected? {
      RejectedIsRefused(h, root, trail, fields[keys[0]]);
    } else {
      RejectedFields(h, root, trail, fields, keys[1..]);
    }
  }

  /** On an arbitrary graph the serializer succeeds exactly when everything
      reachable is acceptable and no path from the value meets a node twice. */
  lemma SerializesIffAcyclic(h: Heap, v: Val)
    requires ProperHeap(h) && Proper(h, v)
    ensures Serialize(h, v, {}).Printed? <==>
            && (forall w :: Reaches(h, v, w) ==> Acceptable(h, w))
            && (forall path :: IsPath(h, v, path) ==> !Repeats(path))
  {
    hide Shows;
    if Serialize(h, v, {}).Printed? {
      forall path | IsPath(h, v, path)
        ensures !Repeats(path)
        ensures forall w :: ChildOf(h, path[|path| - 1], w) ==> Acceptable(h, w)
      {
        PrintedPathsAreSimple(h, v, {}, path);
      }
    } else {
      assert Nodes([]) == {};
      RejectedIsRefused(h, v, [], v);
      forall w | Shows(h, w, Serialize(h, v, {}).reason)
        ensures !Acceptable(h, w)
      {
        ShownIsRefused(h, w, Serialize(h, v, {}).reason);
      }
    }
  }

  /** The reason given for a refusal is a true one. */
  lemma ReasonIsTrue(h: Heap, v: Val)
    requires ProperHeap(h) && Proper(h, v)
    ensures Serialize(h, v, {}).Rejected? ==> RefusedFor(h, v, Serialize(h, v, {}).reason)
  {
    assert Nodes([]) == {};
    if Serialize(h, v, {}).Rejected? {
      RejectedIsRefused(h, v, [], v);
    }
  }

  lemma NegativeZeroIsZero(h: Heap)
    requires ProperHeap(h)
    ensures Serialize(h, Num(NegativeZero), {}) == Printed(U("0"))
  {
  }
}
