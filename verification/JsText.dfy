/** JavaScript strings as sequences of UTF-16 code units, with the few `String`
    and `Array` operations the modelled code calls. */
module JsText {

  /** A UTF-16 code unit; the few results that need its range say so. */
  type Unit = int

  type Text = seq<Unit>

  type Byte = b: int | 0 <= b < 0x100

  /** `__proto__` */
  const PROTO: Text := [95, 95, 112, 114, 111, 116, 111, 95, 95]

  const NUL: Unit := 0
  const NEWLINE: Unit := 10
  const DOT: Unit := 46
  const SLASH: Unit := 47
  const COLON: Unit := 58
  const BACKSLASH: Unit := 92

  /** The code units of an ASCII literal. */
  function U(s: string): (t: Text)
    ensures |t| == |s|
  {
    seq(|s|, i requires 0 <= i < |s| => if s[i] as int < 0x80 then s[i] as int else 0)
  }

  /** The named units and texts are what their names say. */
  lemma NamesAreLiteral()
    ensures [NUL, NEWLINE, DOT, SLASH, COLON, BACKSLASH] == U("\0\n./:\\") && PROTO == U("__proto__")
  {
  }

  predicate IsUnits(s: Text) {
    forall i :: 0 <= i < |s| ==> 0 <= s[i] < 0x1_0000
  }

  predicate HighSurrogate(u: Unit) { 0xD800 <= u <= 0xDBFF }

  predicate LowSurrogate(u: Unit) { 0xDC00 <= u <= 0xDFFF }

  /** Whether the string starts with a surrogate pair. */
  predicate StartsWithPair(s: Text) {
    |s| >= 2 && HighSurrogate(s[0]) && LowSurrogate(s[1])
  }

  /** Well-formed UTF-16: no surrogate without its other half. */
  predicate WellPaired(s: Text) {
    if s == [] then true
    else if StartsWithPair(s) then WellPaired(s[2..])
    else 0 <= s[0] < 0x1_0000 && !HighSurrogate(s[0]) && !LowSurrogate(s[0]) && WellPaired(s[1..])
  }

  lemma {:induction false} WellPairedIsUnits(s: Text)
    requires WellPaired(s)
    ensures IsUnits(s)
  {
    if s != [] {
      if StartsWithPair(s) {
        WellPairedIsUnits(s[2..]);
        assert s == [s[0], s[1]] + s[2..];
      } else {
        WellPairedIsUnits(s[1..]);
        assert s == [s[0]] + s[1..];
      }
    }
  }

  predicate StartsWith(s: Text, prefix: Text) {
    prefix <= s
  }

  predicate EndsWith(s: Text, suffix: Text) {
    |suffix| <= |s| && s[|s| - |suffix|..] == suffix
  }

  /** `s.includes(part)` for a nonempty part. */
  predicate Includes(s: Text, part: Text) {
    exists i :: 0 <= i <= |s| && StartsWith(s[i..], part)
  }

  /** `s.split(sep)` for a one-unit separator. */
  function Split(s: Text, sep: Unit): (parts: seq<Text>)
    ensures |parts| >= 1
  {
    if s == [] then
      [[]]
    else if s[0] == sep then
      [[]] + Split(s[1..], sep)
    else
      var rest := Split(s[1..], sep);
      [[s[0]] + rest[0]] + rest[1..]
  }

  /** `parts.join(sep)`. */
  function Join(parts: seq<Text>, sep: Unit): Text {
    if parts == [] then []
    else if |parts| == 1 then parts[0]
    else parts[0] + [sep] + Join(parts[1..], sep)
  }

  predicate Distinct<T(==)>(s: seq<T>) {
    forall i, j :: 0 <= i < j < |s| ==> s[i] != s[j]
  }

  function Elements<T>(s: seq<T>): set<T> {
    set x | x in s
  }

  lemma DistinctHead<T>(s: seq<T>)
    requires s != []
    ensures Distinct(s) <==> Distinct(s[1..]) && forall i | 1 <= i < |s| :: s[i] != s[0]
  {
    var rest := s[1..];
    assert forall i | 0 <= i < |rest| :: rest[i] == s[i + 1];
    if Distinct(rest) && forall i | 1 <= i < |s| :: s[i] != s[0] {
      forall i, j | 0 <= i < j < |s| ensures s[i] != s[j] {
        assert s[j] == rest[j - 1];
      }
    }
    if Distinct(s) {
      forall i, j | 0 <= i < j < |rest| ensures rest[i] != rest[j] {
        assert s[i + 1] != s[j + 1];
      }
    }
  }

  lemma {:induction false} DistinctIff<T>(s: seq<T>)
    ensures |Elements(s)| <= |s|
    ensures |Elements(s)| == |s| <==> Distinct(s)
  {
    if s == [] {
      assert Elements(s) == {};
    } else {
      var rest := s[1..];
      DistinctIff(rest);
      assert s == [s[0]] + rest;
      assert Elements(s) == {s[0]} + Elements(rest);
      if s[0] in rest {
        assert Elements(s) == Elements(rest);
        var j :| 0 <= j < |rest| && rest[j] == s[0];
        assert s[0] == s[j + 1];
      } else {
        DistinctHead(s);
        assert forall i | 1 <= i < |s| :: s[i] == rest[i - 1];
      }
    }
  }

  function Filter<T>(keep: T -> bool, s: seq<T>): (r: seq<T>)
    ensures forall x <- r :: x in s && keep(x)
    ensures forall x <- s :: keep(x) ==> x in r
  {
    if s == [] then []
    else if keep(s[0]) then [s[0]] + Filter(keep, s[1..])
    else Filter(keep, s[1..])
  }

  lemma Associative<T>(a: seq<T>, b: seq<T>, c: seq<T>)
    ensures (a + b) + c == a + (b + c)
  {
  }

  lemma EmptyPrefix<T>(s: seq<T>)
    ensures [] + s == s
  {
  }

  lemma {:induction false} FilterAppend<T>(keep: T -> bool, a: seq<T>, b: seq<T>)
    ensures Filter(keep, a + b) == Filter(keep, a) + Filter(keep, b)
  {
    if a == [] {
      assert a + b == b;
    } else {
      assert (a + b)[1..] == a[1..] + b;
      FilterAppend(keep, a[1..], b);
    }
  }

  lemma {:induction false} FilterAll<T>(keep: T -> bool, s: seq<T>)
    requires forall x <- s :: keep(x)
    ensures Filter(keep, s) == s
  {
    if s != [] {
      FilterAll(keep, s[1..]);
    }
  }

  lemma {:induction false} FilterNone<T>(keep: T -> bool, s: seq<T>)
    requires forall x <- s :: !keep(x)
    ensures Filter(keep, s) == []
  {
    if s != [] {
      FilterNone(keep, s[1..]);
    }
  }

  // ---- Split and Join ----

  lemma {:induction false} SplitPartsAreClean(s: Text, sep: Unit)
    ensures forall part <- Split(s, sep) :: sep !in part
  {
    if s != [] {
      SplitPartsAreClean(s[1..], sep);
    }
  }

  lemma {:induction false} SplitAppend(a: Text, sep: Unit, b: Text)
    ensures Split(a + [sep] + b, sep) == Split(a, sep) + Split(b, sep)
  {
    if a == [] {
      assert a + [sep] + b == [sep] + b;
      assert ([sep] + b)[1..] == b;
    } else {
      assert (a + [sep] + b)[1..] == a[1..] + [sep] + b;
      SplitAppend(a[1..], sep, b);
    }
  }

  lemma {:induction false} SplitClean(s: Text, sep: Unit)
    requires sep !in s
    ensures Split(s, sep) == [s]
  {
    if s != [] {
      SplitClean(s[1..], sep);
      assert [s[0]] + s[1..] == s;
    }
  }

  lemma {:induction false} SplitJoin(parts: seq<Text>, sep: Unit)
    requires parts != []
    requires forall part <- parts :: sep !in part
    ensures Split(Join(parts, sep), sep) == parts
  {
    if |parts| == 1 {
      SplitClean(parts[0], sep);
    } else {
      SplitJoin(parts[1..], sep);
      SplitClean(parts[0], sep);
      SplitAppend(parts[0], sep, Join(parts[1..], sep));
      assert parts == [parts[0]] + parts[1..];
    }
  }

  lemma {:induction false} JoinSplit(s: Text, sep: Unit)
    ensures Join(Split(s, sep), sep) == s
  {
    if s != [] {
      JoinSplit(s[1..], sep);
      var rest := Split(s[1..], sep);
      if s[0] == sep {
        assert ([[]] + rest)[1..] == rest;
        assert s == [] + [sep] + s[1..];
      } else {
        var parts := [[s[0]] + rest[0]] + rest[1..];
        assert parts[1..] == rest[1..];
        if |rest| == 1 {
          assert parts[0] == s;
        } else {
          assert Join(parts, sep) == [s[0]] + (rest[0] + [sep] + Join(rest[1..], sep));
        }
      }
    }
  }

  lemma {:induction false} JoinAppend(a: seq<Text>, b: seq<Text>, sep: Unit)
    requires a != [] && b != []
    ensures Join(a + b, sep) == Join(a, sep) + [sep] + Join(b, sep)
  {
    assert (a + b)[1..] == a[1..] + b;
    if |a| > 1 {
      JoinAppend(a[1..], b, sep);
      assert Join(a + b, sep) == a[0] + [sep] + (Join(a[1..], sep) + [sep] + Join(b, sep));
    } else {
      assert a[1..] + b == b;
    }
  }

  // ---- The default string order: ascending UTF-16 code units ----

  predicate Before(a: Text, b: Text)
  {
    if b == [] then false
    else if a == [] then true
    else a[0] < b[0] || (a[0] == b[0] && Before(a[1..], b[1..]))
  }

  lemma {:induction false} BeforeIsTotal(a: Text, b: Text)
    ensures Before(a, b) || a == b || Before(b, a)
    ensures !(Before(a, b) && Before(b, a))
    ensures !Before(a, a)
  {
    if a != [] {
      BeforeIsTotal(a[1..], a[1..]);
      if b != [] {
        BeforeIsTotal(a[1..], b[1..]);
        assert a == [a[0]] + a[1..] && b == [b[0]] + b[1..];
      }
    }
  }

  lemma {:induction false} BeforeIsTransitive(a: Text, b: Text, c: Text)
    requires Before(a, b) && Before(b, c)
    ensures Before(a, c)
  {
    if a != [] && a[0] == b[0] == c[0] {
      BeforeIsTransitive(a[1..], b[1..], c[1..]);
    }
  }

  /** One text comes before another when it is its beginning, or has the smaller
      unit where they first differ. */
  lemma {:induction false} BeforeIff(a: Text, b: Text)
    ensures Before(a, b) <==>
            (a < b || exists i :: 0 <= i < |a| && i < |b| && a[i] < b[i] && a[..i] == b[..i])
  {
    if a != [] && b != [] {
      BeforeIff(a[1..], b[1..]);
      if a[0] < b[0] {
        assert a[..0] == b[..0];
      } else if a[0] == b[0] {
        assert a == [a[0]] + a[1..] && b == [b[0]] + b[1..];
        if i :| 0 <= i < |a[1..]| && i < |b[1..]| && a[1..][i] < b[1..][i] && a[1..][..i] == b[1..][..i] {
          assert a[..i + 1] == [a[0]] + a[1..][..i] && b[..i + 1] == [b[0]] + b[1..][..i];
          assert a[i + 1] < b[i + 1];
        }
      }
      if i :| 0 <= i < |a| && i < |b| && a[i] < b[i] && a[..i] == b[..i] {
        FirstDifference(a, b, i);
      }
    }
  }

  lemma FirstDifference(a: Text, b: Text, i: nat)
    requires i < |a| && i < |b| && a[i] < b[i] && a[..i] == b[..i]
    ensures i == 0 ==> a[0] < b[0]
    ensures i > 0 ==> a[0] == b[0] && a[1..][i - 1] < b[1..][i - 1] && a[1..][..i - 1] == b[1..][..i - 1]
  {
    if i > 0 {
      assert a[..i][0] == b[..i][0];
      assert a[1..][..i - 1] == a[..i][1..] && b[1..][..i - 1] == b[..i][1..];
    }
  }

  ghost predicate Sorted(s: seq<Text>) {
    forall i, j :: 0 <= i < j < |s| ==> !Before(s[j], s[i])
  }

  function Insert(x: Text, s: seq<Text>): (r: seq<Text>)
    requires Sorted(s)
    ensures Sorted(r) && multiset(r) == multiset(s) + multiset{x}
  {
    if s == [] then
      [x]
    else if Before(s[0], x) then
      var r := [s[0]] + Insert(x, s[1..]);
      assert Sorted(r) by {
        forall t | t in multiset(Insert(x, s[1..]))
          ensures !Before(t, s[0])
        {
          BeforeIsTotal(s[0], x);
          if t in multiset(s[1..]) {
            var i :| 0 <= i < |s[1..]| && s[1..][i] == t;
            assert s[i + 1] == t;
          }
        }
        InTail(s[0], Insert(x, s[1..]));
      }
      assert s == [s[0]] + s[1..];
      r
    else
      assert Sorted([x] + s) by {
        forall k | 0 <= k < |s|
          ensures !Before(s[k], x)
        {
          if Before(s[k], x) {
            if k > 0 {
              BeforeIsTotal(s[0], s[k]);
              BeforeIsTotal(s[0], x);
              if s[0] != s[k] {
                BeforeIsTransitive(s[0], s[k], x);
              }
            }
          }
        }
      }
      [x] + s
  }

  lemma InTail(x: Text, s: seq<Text>)
    requires Sorted(s) && forall t :: t in multiset(s) ==> !Before(t, x)
    ensures Sorted([x] + s)
  {
    forall k | 0 <= k < |s|
      ensures !Before(s[k], x)
    {
      assert s[k] in multiset(s);
    }
  }

  /** `names.sort()`. */
  function Sort(names: seq<Text>): (r: seq<Text>)
    ensures Sorted(r) && multiset(r) == multiset(names)
  {
    if names == [] then
      []
    else
      assert names == [names[0]] + names[1..];
      Insert(names[0], Sort(names[1..]))
  }

  lemma FirstIsLeast(s: seq<Text>, x: Text)
    requires Sorted(s) && x in multiset(s)
    ensures s != [] && !Before(x, s[0])
  {
    var i :| 0 <= i < |s| && s[i] == x;
    BeforeIsTotal(s[0], s[0]);
  }

  lemma SameFirst(a: seq<Text>, b: seq<Text>)
    requires Sorted(a) && Sorted(b) && multiset(a) == multiset(b)
    requires a != [] && b != []
    ensures a[0] == b[0]
  {
    assert a[0] in multiset(a) && b[0] in multiset(b);
    FirstIsLeast(b, a[0]);
    FirstIsLeast(a, b[0]);
    BeforeIsTotal(a[0], b[0]);
  }

  lemma TailMultiset(s: seq<Text>)
    requires s != []
    ensures multiset(s[1..]) == multiset(s) - multiset{s[0]}
  {
    assert s == [s[0]] + s[1..];
  }

  /** A list has only one sorted arrangement. */
  lemma {:induction false} SortedIsUnique(a: seq<Text>, b: seq<Text>)
    requires Sorted(a) && Sorted(b) && multiset(a) == multiset(b)
    ensures a == b
  {
    assert |a| == |multiset(a)| == |multiset(b)| == |b|;
    if a != [] {
      SameFirst(a, b);
      TailMultiset(a);
      TailMultiset(b);
      SortedIsUnique(a[1..], b[1..]);
      assert a == [a[0]] + a[1..] && b == [b[0]] + b[1..];
    }
  }

  ghost function Enumerated(keys: set<Text>): (r: seq<Text>)
    ensures multiset(r) == multiset(keys)
  {
    if keys == {} then
      []
    else
      var k :| k in keys;
      assert multiset(keys) == multiset(keys - {k}) + multiset{k};
      [k] + Enumerated(keys - {k})
  }

  /** The keys of a map in ascending order: what sorting any enumeration gives. */
  ghost function SortedKeys(keys: set<Text>): (r: seq<Text>)
    ensures forall k :: k in r <==> k in keys
  {
    var r := Sort(Enumerated(keys));
    assert forall k :: k in r <==> k in multiset(r);
    r
  }

  lemma SortedKeysIsSorted(keys: set<Text>)
    ensures Sorted(SortedKeys(keys)) && multiset(SortedKeys(keys)) == multiset(keys)
  {
  }

  lemma SortAnyOrder(names: seq<Text>, keys: set<Text>)
    requires multiset(names) == multiset(keys)
    ensures Sort(names) == SortedKeys(keys)
  {
    SortedIsUnique(Sort(names), SortedKeys(keys));
  }

  /** Enumerates a set; the contract promises nothing about the order. */
  method Enumerate(keys: set<Text>) returns (names: seq<Text>)
    ensures multiset(names) == multiset(keys)
  {
    names := [];
    var rest := keys;
    while rest != {}
      invariant rest <= keys
      invariant multiset(names) == multiset(keys - rest)
      decreases rest
    {
      var k :| k in rest;
      assert keys - (rest - {k}) == (keys - rest) + {k};
      names := names + [k];
      rest := rest - {k};
    }
    assert keys - rest == keys;
  }
}
