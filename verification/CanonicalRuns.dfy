/** The exporter's printer on an arbitrary graph, where it may also throw or
    recurse without end: it keeps no track of ancestors. */
module CanonicalRuns {
  import opened JsText
  import opened JsonText
  import opened CanonicalPayload
  import opened CanonicalPayloadLaws
  import opened CanonicalJson

  /** One call, observed down to some depth of objects within objects. */
  datatype Observed = Ends(text: Text) | Throws | GoesOn

  datatype Pieces = Pieces(texts: seq<Text>) | Thrown | Unfinished

  /** The first piece that does not end decides. */
  function More(first: Observed, rest: Pieces): Pieces {
    match first
    case Throws => Thrown
    case GoesOn => Unfinished
    case Ends(text) => if rest.Pieces? then Pieces([text] + rest.texts) else rest
  }

  function Enclose(open: Unit, pieces: Pieces, close: Unit): Observed {
    match pieces
    case Thrown => Throws
    case Unfinished => GoesOn
    case Pieces(texts) => Ends([open] + Join(texts, COMMA) + [close])
  }

  ghost function Call(h: Heap, v: Val, depth: nat): Observed
    requires ProperHeap(h) && Proper(h, v)
    decreases depth, 0, 0
  {
    match v
    case Null => Ends(NULL_TEXT)
    case Str(text) => Ends(Quote(text))
    case Bool(value) => Ends(if value then TRUE_TEXT else FALSE_TEXT)
    case Num(Finite(token)) => Ends(token)
    case Num(NegativeZero) => Ends(ZERO)
    case Hole => Ends([])
    case Object(ref) =>
      if depth == 0 then GoesOn
      else
        (match h[ref]
         case ArrayObj(items) => Enclose(OPEN_BRACKET, CallItems(h, items, depth - 1), CLOSE_BRACKET)
         case RecordObj(_, fields) =>
           Enclose(OPEN_BRACE, CallMembers(h, fields, SortedKeys(fields.Keys), depth - 1), CLOSE_BRACE))
    case _ => Throws
  }

  ghost function CallItems(h: Heap, items: seq<Val>, depth: nat): Pieces
    requires ProperHeap(h) && forall v <- items :: Proper(h, v)
    decreases depth, 1, |items|
  {
    if items == [] then Pieces([]) else More(Call(h, items[0], depth), CallItems(h, items[1..], depth))
  }

  function Member(key: Text, value: Observed): Observed
    requires IsUnits(key)
  {
    if value.Ends? then Ends(Quote(key) + [COLON] + value.text) else value
  }

  ghost function CallMembers(h: Heap, fields: map<Text, Val>, keys: seq<Text>, depth: nat): Pieces
    requires ProperHeap(h) && ProperFields(h, fields, keys)
    decreases depth, 1, |keys|
  {
    if keys == [] then Pieces([])
    else More(Member(keys[0], Call(h, fields[keys[0]], depth)), CallMembers(h, fields, keys[1..], depth))
  }

  // ---- It ends only on values that read as a finite tree ----

  lemma {:induction false} EndsOnTree(h: Heap, v: Val, depth: nat) returns (j: Json)
    requires ProperHeap(h) && Proper(h, v) && Call(h, v, depth).Ends?
    ensures Unfolds(WithHoles, h, v, j) && Call(h, v, depth).text == CanonicalValue(h, v, j)
    decreases depth, 1
  {
    match v
    case Null => j := JNull;
    case Bool(value) => j := JBool(value);
    case Str(text) => j := JString(text);
    case Num(Finite(token)) => j := JNumber(token);
    case Num(NegativeZero) => j := JNumber(ZERO);
    case Hole => j := JNull;
    case Object(ref) => j := ObjectEnds(h, ref, depth);
  }

  lemma {:induction false} ObjectEnds(h: Heap, ref: Ref, depth: nat) returns (j: Json)
    requires ProperHeap(h) && ref in h && Call(h, Object(ref), depth).Ends?
    ensures Unfolds(WithHoles, h, Object(ref), j)
    ensures Call(h, Object(ref), depth).text == CanonicalValue(h, Object(ref), j)
    decreases depth, 0
  {
    hide SortedKeys, Quote;
    assert depth > 0;
    match h[ref] {
      case ArrayObj(items) =>
        var list := ItemsEnd(h, items, depth - 1);
        j := JArray(list);
      case RecordObj(_, fields) =>
        var list := MembersEnd(h, fields, SortedKeys(fields.Keys), depth - 1);
        j := JObject(list);
    }
  }

  lemma {:induction false} ItemsEnd(h: Heap, items: seq<Val>, depth: nat) returns (list: Items)
    requires ProperHeap(h) && (forall v <- items :: Proper(h, v)) && CallItems(h, items, depth).Pieces?
    ensures UnfoldsItems(WithHoles, h, items, list)
    ensures CallItems(h, items, depth).texts == ItemTexts(h, items, list)
    decreases depth, 2, |items|
  {
    if items == [] {
      list := NoItems;
    } else {
      var head := EndsOnTree(h, items[0], depth);
      var tail := ItemsEnd(h, items[1..], depth);
      list := Item(head, tail);
    }
  }

  lemma {:induction false} MembersEnd(h: Heap, fields: map<Text, Val>, keys: seq<Text>, depth: nat)
    returns (list: Fields)
    requires ProperHeap(h) && ProperFields(h, fields, keys) && CallMembers(h, fields, keys, depth).Pieces?
    ensures UnfoldsFields(WithHoles, h, fields, keys, list)
    ensures CallMembers(h, fields, keys, depth).texts == MemberTexts(h, fields, keys, list)
    decreases depth, 2, |keys|
  {
    if keys == [] {
      list := NoFields;
    } else {
      var value := EndsOnTree(h, fields[keys[0]], depth);
      var rest := MembersEnd(h, fields, keys[1..], depth);
      list := Field(keys[0], value, rest);
    }
  }

  // ---- When it throws, something unprintable is reachable ----

  /** Nothing about this value alone makes this printer throw. */
  predicate Printable(v: Val) {
    match v
    case Num(number) => !number.NonFinite?
    case _ => v.Null? || v.Bool? || v.Str? || v.Hole? || v.Object?
  }

  ghost predicate AllPrintable(h: Heap, root: Val) {
    forall w :: Reaches(h, root, w) ==> Printable(w)
  }

  lemma {:induction false} ThrowsAtUnprintable(h: Heap, root: Val, trail: seq<Ref>, v: Val, depth: nat)
    requires ProperHeap(h) && Proper(h, v) && Trail(h, root, trail, v) && Call(h, v, depth).Throws?
    ensures !AllPrintable(h, root)
    decreases depth, 0, 0
  {
    hide SortedKeys, Quote;
    if v.Object? {
      PathExtends(h, root, trail, v.ref);
      match h[v.ref]
      case ArrayObj(items) => ItemThrows(h, root, trail + [v.ref], items, depth - 1);
      case RecordObj(_, fields) =>
        MemberThrows(h, root, trail + [v.ref], fields, SortedKeys(fields.Keys), depth - 1);
    } else {
      TrailReaches(h, root, trail, v);
    }
  }

  lemma {:induction false} ItemThrows(h: Heap, root: Val, trail: seq<Ref>, items: seq<Val>, depth: nat)
    requires ProperHeap(h) && (forall v <- items :: Proper(h, v))
    requires forall v <- items :: Trail(h, root, trail, v)
    requires CallItems(h, items, depth) == Thrown
    ensures !AllPrintable(h, root)
    decreases depth, 1, |items|
  {
    hide Trail;
    if Call(h, items[0], depth).Throws? {
      ThrowsAtUnprintable(h, root, trail, items[0], depth);
    } else {
      ItemThrows(h, root, trail, items[1..], depth);
    }
  }

  lemma {:induction false} MemberThrows(h: Heap, root: Val, trail: seq<Ref>, fields: map<Text, Val>, keys: seq<Text>,
                                        depth: nat)
    requires ProperHeap(h) && ProperFields(h, fields, keys)
    requires forall k <- keys :: Trail(h, root, trail, fields[k])
    requires CallMembers(h, fields, keys, depth) == Thrown
    ensures !AllPrintable(h, root)
    decreases depth, 1, |keys|
  {
    hide Trail;
    if Call(h, fields[keys[0]], depth).Throws? {
      ThrowsAtUnprintable(h, root, trail, fields[keys[0]], depth);
    } else {
      MemberThrows(h, root, trail, fields, keys[1..], depth);
    }
  }

  // ---- When it goes on, there is a path as long as the depth ----

  lemma {:induction false} GoesOnIsDeep(h: Heap, v: Val, depth: nat) returns (path: seq<Ref>)
    requires ProperHeap(h) && Proper(h, v) && Call(h, v, depth).GoesOn?
    ensures IsPath(h, v, path) && |path| == depth + 1
    decreases depth, 0, 0
  {
    hide SortedKeys, Quote;
    path := [v.ref];
    if depth > 0 {
      match h[v.ref] {
        case ArrayObj(items) =>
          var w, below := ItemGoesOn(h, items, depth - 1);
          path := path + below;
          PathGrows(h, v.ref, w, below);
        case RecordObj(_, fields) =>
          var w, below := MemberGoesOn(h, fields, SortedKeys(fields.Keys), depth - 1);
          path := path + below;
          PathGrows(h, v.ref, w, below);
      }
    }
  }

  lemma PathGrows(h: Heap, r: Ref, w: Val, below: seq<Ref>)
    requires ChildOf(h, r, w) && IsPath(h, w, below)
    ensures IsPath(h, Object(r), [r] + below)
  {
    assert ([r] + below)[1..] == below;
  }

  lemma {:induction false} ItemGoesOn(h: Heap, items: seq<Val>, depth: nat) returns (w: Val, path: seq<Ref>)
    requires ProperHeap(h) && (forall v <- items :: Proper(h, v)) && CallItems(h, items, depth) == Unfinished
    ensures w in items && IsPath(h, w, path) && |path| == depth + 1
    decreases depth, 1, |items|
  {
    if Call(h, items[0], depth).GoesOn? {
      w := items[0];
      path := GoesOnIsDeep(h, w, depth);
    } else {
      w, path := ItemGoesOn(h, items[1..], depth);
    }
  }

  lemma {:induction false} MemberGoesOn(h: Heap, fields: map<Text, Val>, keys: seq<Text>, depth: nat)
    returns (w: Val, path: seq<Ref>)
    requires ProperHeap(h) && ProperFields(h, fields, keys) && CallMembers(h, fields, keys, depth) == Unfinished
    ensures (exists k <- keys :: fields[k] == w) && IsPath(h, w, path) && |path| == depth + 1
    decreases depth, 1, |keys|
  {
    if Call(h, fields[keys[0]], depth).GoesOn? {
      w := fields[keys[0]];
      path := GoesOnIsDeep(h, w, depth);
    } else {
      w, path := MemberGoesOn(h, fields, keys[1..], depth);
    }
  }

  lemma SubsetSize<T>(a: set<T>, b: set<T>)
    requires a <= b
    ensures |a| <= |b|
  {
    if a != {} {
      var x :| x in a;
      SubsetSize(a - {x}, b - {x});
    }
  }

  lemma {:induction false} PathStaysInHeap(h: Heap, v: Val, path: seq<Ref>)
    requires ProperHeap(h) && Proper(h, v) && IsPath(h, v, path)
    ensures Elements(path) <= h.Keys
    decreases |path|
  {
    if |path| > 1 {
      PathStaysInHeap(h, Object(path[1]), path[1..]);
      assert path == [path[0]] + path[1..];
    }
  }

  /** A path without repetition is no longer than the heap is large. */
  lemma SimplePathsAreShort(h: Heap, v: Val, path: seq<Ref>)
    requires ProperHeap(h) && Proper(h, v) && IsPath(h, v, path) && !Repeats(path)
    ensures |path| <= |h|
  {
    PathStaysInHeap(h, v, path);
    DistinctIff(path);
    SubsetSize(Elements(path), h.Keys);
    assert |h.Keys| == |h|;
  }

  // ---- A value that reads as a tree has no cycle and nothing unprintable below it ----

  lemma {:induction false} ItemTree(h: Heap, items: seq<Val>, list: Items, i: nat) returns (k: Json)
    requires UnfoldsItems(WithHoles, h, items, list) && i < |items|
    ensures Unfolds(WithHoles, h, items[i], k) && Size(k) <= ItemsSize(list)
  {
    if i == 0 {
      k := list.head;
    } else {
      k := ItemTree(h, items[1..], list.tail, i - 1);
    }
  }

  lemma {:induction false} MemberTree(h: Heap, fields: map<Text, Val>, keys: seq<Text>, list: Fields, i: nat)
    returns (k: Json)
    requires UnfoldsFields(WithHoles, h, fields, keys, list) && i < |keys|
    ensures keys[i] in fields && Unfolds(WithHoles, h, fields[keys[i]], k) && Size(k) <= FieldsSize(list)
  {
    if i == 0 {
      k := list.value;
    } else {
      k := MemberTree(h, fields, keys[1..], list.rest, i - 1);
    }
  }

  lemma ChildTree(h: Heap, r: Ref, j: Json, w: Val) returns (k: Json)
    requires Unfolds(WithHoles, h, Object(r), j) && ChildOf(h, r, w)
    ensures Unfolds(WithHoles, h, w, k) && Size(k) < Size(j)
  {
    hide SortedKeys;
    match h[r] {
      case ArrayObj(items) =>
        var i :| 0 <= i < |items| && items[i] == w;
        k := ItemTree(h, items, j.items, i);
      case RecordObj(_, fields) =>
        var key :| key in fields && fields[key] == w;
        var keys := SortedKeys(fields.Keys);
        var i :| 0 <= i < |keys| && keys[i] == key;
        k := MemberTree(h, fields, keys, j.fields, i);
    }
  }

  lemma {:induction false} PathShrinks(h: Heap, v: Val, j: Json, path: seq<Ref>) returns (k: Json)
    requires Unfolds(WithHoles, h, v, j) && IsPath(h, v, path)
    ensures Unfolds(WithHoles, h, Object(path[|path| - 1]), k) && Size(k) + |path| - 1 <= Size(j)
    decreases |path|
  {
    if |path| == 1 {
      k := j;
    } else {
      var child := ChildTree(h, path[0], j, Object(path[1]));
      k := PathShrinks(h, Object(path[1]), child, path[1..]);
    }
  }

  lemma {:induction false} SubPath(h: Heap, v: Val, path: seq<Ref>, i: nat, n: nat)
    requires IsPath(h, v, path) && i < n <= |path|
    ensures IsPath(h, Object(path[i]), path[i..n])
    decreases |path|
  {
    if i > 0 {
      SubPath(h, Object(path[1]), path[1..], i - 1, n - 1);
      assert path[1..][i - 1..n - 1] == path[i..n];
    } else if n > 1 {
      SubPath(h, Object(path[1]), path[1..], 0, n - 1);
      assert path[..n][1..] == path[1..][..n - 1];
    }
  }

  lemma TreePathsAreSimple(h: Heap, v: Val, j: Json, path: seq<Ref>)
    requires Unfolds(WithHoles, h, v, j) && IsPath(h, v, path)
    ensures !Repeats(path)
  {
    forall i, n | 0 <= i < n < |path|
      ensures path[i] != path[n]
    {
      LaterIsSmaller(h, v, j, path, i, n);
    }
  }

  lemma LaterIsSmaller(h: Heap, v: Val, j: Json, path: seq<Ref>, i: nat, n: nat)
    requires Unfolds(WithHoles, h, v, j) && IsPath(h, v, path) && i < n < |path|
    ensures path[i] != path[n]
  {
    hide IsPath, Unfolds, Size;
    SubPath(h, v, path, 0, i + 1);
    SubPath(h, v, path, i, n + 1);
    StartsAt(h, v, path);
    assert path[0..i + 1][i] == path[i] && path[i..n + 1][n - i] == path[n];
    var a := PathShrinks(h, v, j, path[0..i + 1]);
    var b := PathShrinks(h, Object(path[i]), a, path[i..n + 1]);
    SmallerIsOther(h, path[i], a, path[n], b);
  }

  lemma SmallerIsOther(h: Heap, x: Ref, a: Json, y: Ref, b: Json)
    requires Unfolds(WithHoles, h, Object(x), a) && Unfolds(WithHoles, h, Object(y), b) && Size(b) < Size(a)
    ensures x != y
  {
    hide Unfolds, Size;
    if x == y {
      UnfoldingIsUnique(WithHoles, WithHoles, h, Object(x), a, b);
    }
  }

  lemma StartsAt(h: Heap, v: Val, path: seq<Ref>)
    requires IsPath(h, v, path)
    ensures path != [] && v == Object(path[0])
  {
  }

  lemma TreeIsPrintable(h: Heap, v: Val, j: Json)
    requires Unfolds(WithHoles, h, v, j)
    ensures AllPrintable(h, v)
  {
    forall w | Reaches(h, v, w)
      ensures Printable(w)
    {
      if v != w {
        var path :| IsPath(h, v, path) && ChildOf(h, path[|path| - 1], w);
        var k := PathShrinks(h, v, j, path);
        var below := ChildTree(h, path[|path| - 1], k, w);
      }
    }
  }

  // ---- All outcomes ----

  /** The call under a name of its own, for quantifying over depths. */
  ghost function At(h: Heap, v: Val, depth: nat): Observed
    requires ProperHeap(h) && Proper(h, v)
  {
    Call(h, v, depth)
  }

  ghost predicate Acyclic(h: Heap, v: Val) {
    forall path :: IsPath(h, v, path) ==> !Repeats(path)
  }

  lemma AcyclicIsFinite(h: Heap, v: Val)
    requires ProperHeap(h) && Proper(h, v) && Acyclic(h, v)
    ensures !At(h, v, |h|).GoesOn?
  {
    if At(h, v, |h|).GoesOn? {
      var path := GoesOnIsDeep(h, v, |h|);
      SimplePathsAreShort(h, v, path);
      assert false;
    }
  }

  lemma EndingIsATree(h: Heap, v: Val, depth: nat)
    requires ProperHeap(h) && Proper(h, v) && At(h, v, depth).Ends?
    ensures exists j :: ReadsWithHoles(h, v, j) && At(h, v, depth).text == CanonicalValue(h, v, j)
    ensures AllPrintable(h, v) && Acyclic(h, v)
  {
    var j := EndsOnTree(h, v, depth);
    assert ReadsWithHoles(h, v, j);
    TreeIsPrintable(h, v, j);
    forall path | IsPath(h, v, path) ensures !Repeats(path) {
      TreePathsAreSimple(h, v, j, path);
    }
  }

  /** What this printer does on an arbitrary graph. It prints, within as many
      levels as there are objects, exactly when nothing unprintable and no cycle
      is reachable. Without a cycle it throws otherwise; with a cycle and nothing
      unprintable it recurses without end; with both it does one of the two. */
  lemma CanonicalOutcomes(h: Heap, v: Val)
    requires ProperHeap(h) && Proper(h, v)
    ensures (exists depth :: At(h, v, depth).Ends?) <==> AllPrintable(h, v) && Acyclic(h, v)
    ensures AllPrintable(h, v) && Acyclic(h, v) ==> At(h, v, |h|).Ends?
    ensures !AllPrintable(h, v) && Acyclic(h, v) ==> At(h, v, |h|).Throws?
    ensures AllPrintable(h, v) && !Acyclic(h, v) ==> forall depth :: At(h, v, depth).GoesOn?
    ensures !AllPrintable(h, v) && !Acyclic(h, v) ==> forall depth :: !At(h, v, depth).Ends?
  {
    forall depth | At(h, v, depth).Ends? ensures AllPrintable(h, v) && Acyclic(h, v) {
      EndingIsATree(h, v, depth);
    }
    forall depth | At(h, v, depth).Throws? ensures !AllPrintable(h, v) {
      ThrowsAtUnprintable(h, v, [], v, depth);
    }
    if Acyclic(h, v) {
      AcyclicIsFinite(h, v);
    }
  }

  /** What it prints is what the recursion on the tree the value reads as gives,
      and without holes that is the text of that tree. */
  lemma PrintedTextIsOfTree(h: Heap, v: Val, depth: nat, j: Json)
    requires ProperHeap(h) && Proper(h, v) && At(h, v, depth).Ends? && Unfolds(WithHoles, h, v, j)
    ensures At(h, v, depth).text == CanonicalValue(h, v, j)
    ensures Unfolds(Loose, h, v, j) ==> Valid(j) && At(h, v, depth).text == Print(j)
  {
    var k := EndsOnTree(h, v, depth);
    UnfoldingIsUnique(WithHoles, WithHoles, h, v, j, k);
    if Unfolds(Loose, h, v, j) {
      CanonicalValuePrints(h, v, j);
    }
  }

  /** The two printers both end, with one text. */
  ghost predicate SameText(h: Heap, v: Val, depth: nat)
    requires ProperHeap(h) && Proper(h, v)
  {
    At(h, v, depth).Ends? && Serialize(h, v, {}) == Printed(At(h, v, depth).text)
  }

  /** On an arbitrary graph, with cycles, holes and anything else, the two
      printers give one text exactly when the payload serializer takes everything
      reachable and there is no cycle. */
  lemma GraphsAgreeIff(h: Heap, v: Val)
    requires ProperHeap(h) && Proper(h, v)
    ensures (exists depth :: SameText(h, v, depth)) <==>
            (forall w :: Reaches(h, v, w) ==> Acceptable(h, w)) && Acyclic(h, v)
  {
    hide SortedKeys;
    SerializesIffAcyclic(h, v);
    if (forall w :: Reaches(h, v, w) ==> Acceptable(h, w)) && Acyclic(h, v) {
      forall w | Reaches(h, v, w) ensures Printable(w) {
        assert Acceptable(h, w);
      }
      CanonicalOutcomes(h, v);
      var j := EndsOnTree(h, v, |h|);
      PrintersAgreeIff(h, v, j);
      assert SameText(h, v, |h|);
    }
  }
}
