/** The canonical payload serializer: a printer over an arbitrary, possibly
    cyclic graph of JavaScript objects, with an ancestor set for cycles. */
module CanonicalPayload {
  import opened JsText
  import opened JsonText
  import opened Wrappers

  type Ref = nat

  /** A number is its printed token; negative zero prints like zero. */
  datatype Number = Finite(token: Text) | NegativeZero | NonFinite

  /** A hole is an absent slot of an array; reading it gives undefined. */
  datatype Val =
    | Null | Bool(value: bool) | Str(text: Text) | Num(number: Number)
    | BigInt | Undefined | Function | Symbol | Hole
    | Object(ref: Ref)

  datatype Obj =
    | ArrayObj(items: seq<Val>)
    | RecordObj(plain: bool, fields: map<Text, Val>)

  type Heap = map<Ref, Obj>

  const ZERO: Text := [48]

  datatype Reason =
    | NonFiniteNumber | BigintUnsupported | UndefinedUnsupported | FunctionUnsupported
    | SymbolUnsupported | CircularReference | NonPlainObject | ReservedKey

  /** Strings hold code units, number tokens look like numbers, references
      resolve; holes are in arrays only. */
  predicate Proper(h: Heap, v: Val) {
    match v
    case Str(text) => IsUnits(text)
    case Num(Finite(token)) => NumberToken(token)
    case Object(ref) => ref in h
    case _ => true
  }

  ghost predicate ProperHeap(h: Heap) {
    forall r <- h ::
      match h[r]
      case ArrayObj(items) => forall v <- items :: Proper(h, v)
      case RecordObj(_, fields) => forall k <- fields :: IsUnits(k) && Proper(h, fields[k]) && !fields[k].Hole?
  }

  // ---- The serializer as a function of the value and the ancestors ----

  datatype Outcome = Printed(text: Text) | Rejected(reason: Reason)

  datatype Parts = Parts(parts: seq<Text>) | NoParts(reason: Reason)

  function Cons(first: Outcome, rest: Parts): Parts {
    if first.Rejected? then NoParts(first.reason)
    else if rest.NoParts? then rest
    else Parts([first.text] + rest.parts)
  }

  function Scalar(v: Val): Outcome
    requires !v.Object? && (v.Str? ==> IsUnits(v.text))
  {
    match v
    case Null => Printed(NULL_TEXT)
    case Bool(value) => Printed(if value then TRUE_TEXT else FALSE_TEXT)
    case Str(text) => Printed(Quote(text))
    case Num(Finite(token)) => Printed(token)
    case Num(NegativeZero) => Printed(ZERO)
    case Num(NonFinite) => Rejected(NonFiniteNumber)
    case BigInt => Rejected(BigintUnsupported)
    case Undefined => Rejected(UndefinedUnsupported)
    case Hole => Rejected(UndefinedUnsupported)
    case Function => Rejected(FunctionUnsupported)
    case Symbol => Rejected(SymbolUnsupported)
  }

  ghost function Serialize(h: Heap, v: Val, stack: set<Ref>): Outcome
    requires ProperHeap(h) && Proper(h, v)
    decreases h.Keys - stack, 0, 0
  {
    if !v.Object? then Scalar(v)
    else match h[v.ref]
      case ArrayObj(items) =>
        if v.ref in stack then Rejected(CircularReference)
        else
          var parts := SerializeItems(h, items, stack + {v.ref});
          if parts.NoParts? then Rejected(parts.reason)
          else Printed([OPEN_BRACKET] + Join(parts.parts, COMMA) + [CLOSE_BRACKET])
      case RecordObj(plain, fields) =>
        if !plain then Rejected(NonPlainObject)
        else if PROTO in fields then Rejected(ReservedKey)
        else if v.ref in stack then Rejected(CircularReference)
        else
          var parts := SerializeFields(h, fields, SortedKeys(fields.Keys), stack + {v.ref});
          if parts.NoParts? then Rejected(parts.reason)
          else Printed([OPEN_BRACE] + Join(parts.parts, COMMA) + [CLOSE_BRACE])
  }

  ghost function SerializeItems(h: Heap, items: seq<Val>, stack: set<Ref>): Parts
    requires ProperHeap(h) && forall v <- items :: Proper(h, v)
    decreases h.Keys - stack, 1, |items|
  {
    if items == [] then Parts([])
    else Cons(Serialize(h, items[0], stack), SerializeItems(h, items[1..], stack))
  }

  function Keyed(key: Text, out: Outcome): Outcome
    requires IsUnits(key)
  {
    if out.Rejected? then out else Printed(Quote(key) + [COLON] + out.text)
  }

  predicate ProperFields(h: Heap, fields: map<Text, Val>, keys: seq<Text>) {
    forall k <- keys :: k in fields && IsUnits(k) && Proper(h, fields[k]) && !fields[k].Hole?
  }

  ghost function SerializeFields(h: Heap, fields: map<Text, Val>, keys: seq<Text>, stack: set<Ref>): Parts
    requires ProperHeap(h) && ProperFields(h, fields, keys)
    decreases h.Keys - stack, 1, |keys|
  {
    if keys == [] then Parts([])
    else
      Cons(Keyed(keys[0], Serialize(h, fields[keys[0]], stack)), SerializeFields(h, fields, keys[1..], stack))
  }

  // ---- The program ----

  datatype Result = Ok(payload: Text) | Fail(reasons: seq<Reason>)

  class Serializer {
    const heap: Heap
    var reasons: seq<Reason>
    var stack: set<Ref>

    constructor (heap: Heap)
      ensures this.heap == heap && reasons == [] && stack == {}
    {
      this.heap := heap;
      reasons, stack := [], {};
    }

    method Reject(reason: Reason)
      modifies this
      ensures reasons == old(reasons) + [reason] && stack == old(stack)
    {
      reasons := reasons + [reason];
    }

    /** On success nothing is left behind; on failure exactly one reason is added. */
    ghost predicate Did(out: Outcome, r: Option<Text>, reasonsBefore: seq<Reason>, stackBefore: set<Ref>)
      reads this
    {
      match out
      case Printed(text) => r == Some(text) && reasons == reasonsBefore && stack == stackBefore
      case Rejected(reason) => r == None && reasons == reasonsBefore + [reason]
    }

    method SerializeValue(v: Val) returns (r: Option<Text>)
      requires ProperHeap(heap) && Proper(heap, v)
      modifies this
      ensures Did(Serialize(heap, v, old(stack)), r, old(reasons), old(stack))
      decreases heap.Keys - stack, 2, 0
    {
      if !v.Object? {
        var scalar := Scalar(v);
        if scalar.Rejected? {
          Reject(scalar.reason);
          return None;
        }
        return Some(scalar.text);
      }
      match heap[v.ref] {
        case ArrayObj(items) =>
          if v.ref in stack {
            Reject(CircularReference);
            return None;
          }
          r := SerializeArray(v.ref, items);
        case RecordObj(plain, fields) =>
          if !plain {
            Reject(NonPlainObject);
            return None;
          }
          if PROTO in fields {
            Reject(ReservedKey);
            return None;
          }
          if v.ref in stack {
            Reject(CircularReference);
            return None;
          }
          r := SerializeRecord(v.ref, fields);
      }
    }

    method SerializeArray(ref: Ref, items: seq<Val>) returns (r: Option<Text>)
      requires ProperHeap(heap) && ref in heap && heap[ref] == ArrayObj(items) && ref !in stack
      modifies this
      ensures Did(Serialize(heap, Object(ref), old(stack)), r, old(reasons), old(stack))
      decreases heap.Keys - stack, 1, 0
    {
      ghost var before, inner := stack, stack + {ref};
      stack := stack + {ref};
      var parts: seq<Text> := [];
      var i := 0;
      while i < |items|
        invariant 0 <= i <= |items|
        invariant stack == inner && reasons == old(reasons)
        invariant SerializeItems(heap, items, inner) == After(parts, SerializeItems(heap, items[i..], inner))
      {
        NextItem(heap, items, i, inner, parts);
        assert ref in heap.Keys - before && ref !in heap.Keys - inner;
        var part := SerializeValue(items[i]);
        if part.None? {
          return None;
        }
        parts := parts + [part.value];
        i := i + 1;
      }
      assert items[i..] == [] && parts + [] == parts;
      stack := stack - {ref};
      assert stack == before;
      r := Some([OPEN_BRACKET] + Join(parts, COMMA) + [CLOSE_BRACKET]);
    }

    method SerializeRecord(ref: Ref, fields: map<Text, Val>) returns (r: Option<Text>)
      requires ProperHeap(heap) && ref in heap && heap[ref] == RecordObj(true, fields) && ref !in stack
      requires PROTO !in fields
      modifies this
      ensures Did(Serialize(heap, Object(ref), old(stack)), r, old(reasons), old(stack))
      decreases heap.Keys - stack, 1, 0
    {
      hide SortedKeys, SerializeFields;
      ghost var before := stack;
      stack := stack + {ref};
      assert ref in heap.Keys - before && ref !in heap.Keys - stack;
      var parts := MemberTexts(fields);
      if parts.None? {
        return None;
      }
      stack := stack - {ref};
      assert stack == before;
      r := Some([OPEN_BRACE] + Join(parts.value, COMMA) + [CLOSE_BRACE]);
    }

    /** The loop over the sorted keys. */
    method MemberTexts(fields: map<Text, Val>) returns (r: Option<seq<Text>>)
      requires ProperHeap(heap) && ProperFields(heap, fields, SortedKeys(fields.Keys))
      modifies this
      ensures match SerializeFields(heap, fields, SortedKeys(fields.Keys), old(stack))
              case Parts(parts) => r == Some(parts) && reasons == old(reasons) && stack == old(stack)
              case NoParts(reason) => r == None && reasons == old(reasons) + [reason]
      decreases heap.Keys - stack, 3, 0
    {
      hide SortedKeys;
      var parts: seq<Text> := [];
      var keys := SortedEnumeration(fields.Keys);
      var i := 0;
      while i < |keys|
        invariant 0 <= i <= |keys|
        invariant stack == old(stack) && reasons == old(reasons)
        invariant SerializeFields(heap, fields, keys, stack) ==
                  After(parts, SerializeFields(heap, fields, keys[i..], stack))
      {
        var key := keys[i];
        NextField(heap, fields, keys, i, stack, parts);
        var part := SerializeValue(fields[key]);
        if part.None? {
          return None;
        }
        parts := parts + [Quote(key) + [COLON] + part.value];
        i := i + 1;
      }
      assert keys[i..] == [] && parts + [] == parts;
      r := Some(parts);
    }

    /** `Object.keys(record).sort()`: insertion order is forgotten. */
    method SortedEnumeration(keys: set<Text>) returns (r: seq<Text>)
      ensures r == SortedKeys(keys)
    {
      var listed := Enumerate(keys);
      SortAnyOrder(listed, keys);
      r := Sort(listed);
    }

    /** `canonicalizeSandboxPolicyPayload` */
    method Canonicalize(v: Val) returns (result: Result)
      requires ProperHeap(heap) && Proper(heap, v)
      requires reasons == [] && stack == {}
      modifies this
      ensures match Serialize(heap, v, {})
              case Printed(text) => result == Ok(text) && stack == {}
              case Rejected(reason) => result == Fail([reason])
    {
      var payload := SerializeValue(v);
      if payload.None? || |reasons| > 0 {
        return Fail(reasons);
      }
      return Ok(payload.value);
    }
  }

  /** Parts already made, followed by the parts still to come. */
  function After(done: seq<Text>, rest: Parts): Parts {
    if rest.NoParts? then rest else Parts(done + rest.parts)
  }

  lemma NextItem(h: Heap, items: seq<Val>, i: nat, stack: set<Ref>, parts: seq<Text>)
    requires ProperHeap(h) && (forall v <- items :: Proper(h, v)) && i < |items|
    ensures var out := Serialize(h, items[i], stack);
            After(parts, SerializeItems(h, items[i..], stack)) ==
            if out.Rejected? then NoParts(out.reason)
            else After(parts + [out.text], SerializeItems(h, items[i + 1..], stack))
  {
    assert items[i..][1..] == items[i + 1..];
    var out, rest := Serialize(h, items[i], stack), SerializeItems(h, items[i + 1..], stack);
    if out.Printed? && rest.Parts? {
      Associative(parts, [out.text], rest.parts);
    }
  }

  lemma NextField(h: Heap, fields: map<Text, Val>, keys: seq<Text>, i: nat, stack: set<Ref>, parts: seq<Text>)
    requires ProperHeap(h) && ProperFields(h, fields, keys) && i < |keys|
    ensures var out := Keyed(keys[i], Serialize(h, fields[keys[i]], stack));
            After(parts, SerializeFields(h, fields, keys[i..], stack)) ==
            if out.Rejected? then NoParts(out.reason)
            else After(parts + [out.text], SerializeFields(h, fields, keys[i + 1..], stack))
  {
    assert keys[i..][1..] == keys[i + 1..];
    var out := Keyed(keys[i], Serialize(h, fields[keys[i]], stack));
    var rest := SerializeFields(h, fields, keys[i + 1..], stack);
    if out.Printed? && rest.Parts? {
      Associative(parts, [out.text], rest.parts);
    }
  }
}
