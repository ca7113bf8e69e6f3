/** The lexical path algebra: normalisation of absolute POSIX paths and
    containment decided segment by segment. Nothing here touches a filesystem. */
module Paths {
  import opened JsText

  datatype PathError =
    | PathEmpty
    | PathInvalidNul
    | PathNotAbsolute
    | PathEscapeAboveRoot
    | PathNotWithinRoot
    | PathMalformed

  datatype PathResult = Ok(value: Text) | Err(reason: PathError)

  const ROOT: Text := [SLASH]
  const CURRENT: Text := [DOT]
  const PARENT: Text := [DOT, DOT]

  function NormalizeSeparators(input: Text): (r: Text)
    ensures |r| == |input|
    ensures BACKSLASH !in r
    ensures NUL in input <==> NUL in r
    ensures BACKSLASH !in input ==> r == input
  {
    var r := seq(|input|, i requires 0 <= i < |input| => if input[i] == BACKSLASH then SLASH else input[i]);
    assert forall i :: 0 <= i < |input| && input[i] == NUL ==> r[i] == NUL;
    r
  }

  // ---- Canonical paths, described independently of the normaliser ----

  predicate CleanSegment(s: Text) {
    s != [] && s != CURRENT && s != PARENT && SLASH !in s && BACKSLASH !in s && NUL !in s
  }

  predicate Clean(segs: seq<Text>) {
    forall s <- segs :: CleanSegment(s)
  }

  function Render(segs: seq<Text>): Text {
    if segs == [] then ROOT else ROOT + Join(segs, SLASH)
  }

  /** The segments of a path: its nonempty pieces between separators. */
  function Segments(path: Text): seq<Text> {
    if path == ROOT then [] else Filter(s => s != [], Split(path, SLASH))
  }

  // ---- canonicalizePath ----

  datatype Resolution = Resolved(segs: seq<Text>) | Escapes

  /** One raw segment pushed onto, or popping, the segments so far. */
  function Resolve(parts: seq<Text>, segs: seq<Text>): Resolution {
    if parts == [] then Resolved(segs)
    else if parts[0] == [] || parts[0] == CURRENT then Resolve(parts[1..], segs)
    else if parts[0] == PARENT then
      if segs == [] then Escapes else Resolve(parts[1..], segs[..|segs| - 1])
    else Resolve(parts[1..], segs + [parts[0]])
  }

  function CanonicalizePath(input: Text): PathResult {
    if input == [] then Err(PathEmpty)
    else if NUL in input then Err(PathInvalidNul)
    else
      var posix := NormalizeSeparators(input);
      if !StartsWith(posix, ROOT) then Err(PathNotAbsolute)
      else match Resolve(Split(posix, SLASH), [])
        case Escapes => Err(PathEscapeAboveRoot)
        case Resolved(segs) => Ok(Render(segs))
  }

  /** The loop of the source, popping and pushing one segment list. */
  method CanonicalizePathLoop(input: Text) returns (r: PathResult)
    ensures r == CanonicalizePath(input)
  {
    if input == [] {
      return Err(PathEmpty);
    }
    if NUL in input {
      return Err(PathInvalidNul);
    }
    var posix := NormalizeSeparators(input);
    if !StartsWith(posix, ROOT) {
      return Err(PathNotAbsolute);
    }
    var segments: seq<Text> := [];
    var parts := Split(posix, SLASH);
    var i := 0;
    while i < |parts|
      invariant 0 <= i <= |parts|
      invariant Resolve(parts, []) == Resolve(parts[i..], segments)
    {
      var segment := parts[i];
      i := i + 1;
      if segment == [] || segment == CURRENT {
        continue;
      }
      if segment == PARENT {
        if segments == [] {
          return Err(PathEscapeAboveRoot);
        }
        segments := segments[..|segments| - 1];
        continue;
      }
      segments := segments + [segment];
    }
    r := Ok(if segments == [] then ROOT else ROOT + Join(segments, SLASH));
  }

  function IsCanonicalForm(path: Text): bool {
    path != [] && CanonicalizePath(path) == Ok(path)
  }

  function IsWithin(root: Text, target: Text): bool {
    IsCanonicalForm(root) && IsCanonicalForm(target) && Segments(root) <= Segments(target)
  }

  /** The loop of the source, comparing segments by index. */
  method IsWithinLoop(root: Text, target: Text) returns (within: bool)
    ensures within == IsWithin(root, target)
  {
    if !IsCanonicalForm(root) || !IsCanonicalForm(target) {
      return false;
    }
    var rootSegments, targetSegments := Segments(root), Segments(target);
    if |rootSegments| == 0 {
      return true;
    }
    if |targetSegments| < |rootSegments| {
      return false;
    }
    var i := 0;
    while i < |rootSegments|
      invariant 0 <= i <= |rootSegments|
      invariant rootSegments[..i] == targetSegments[..i]
    {
      if rootSegments[i] != targetSegments[i] {
        return false;
      }
      i := i + 1;
    }
    return true;
  }

  predicate IsWithinAny(roots: seq<Text>, target: Text) {
    exists i :: 0 <= i < |roots| && IsWithin(roots[i], target)
  }

  function CanonicalizeWithinRoot(root: Text, candidate: Text): PathResult {
    match CanonicalizePath(root)
    case Err(reason) => Err(reason)
    case Ok(rootValue) =>
      if candidate == [] then Err(PathEmpty)
      else
        var posix := NormalizeSeparators(candidate);
        if StartsWith(posix, ROOT) then
          match CanonicalizePath(posix)
          case Err(reason) => Err(reason)
          case Ok(value) => if IsWithin(rootValue, value) then Ok(value) else Err(PathNotWithinRoot)
        else
          match CanonicalizePath(rootValue + ROOT + posix)
          case Err(reason) => Err(if reason == PathEscapeAboveRoot then PathEscapeAboveRoot else PathMalformed)
          case Ok(value) => if IsWithin(rootValue, value) then Ok(value) else Err(PathNotWithinRoot)
  }

  const RELATIVE_PATH_MAX := 1024

  predicate IsCanonicalRelativePath(value: Text) {
    && |value| <= RELATIVE_PATH_MAX
    && !StartsWith(value, ROOT) && !StartsWith(value, [BACKSLASH])
    && !Includes(value, PARENT)
    && BACKSLASH !in value && NUL !in value && COLON !in value
  }

  // ---- Canonical form ----

  lemma {:induction false} ResolveIsClean(parts: seq<Text>, segs: seq<Text>)
    requires Clean(segs)
    requires forall p <- parts :: SLASH !in p && BACKSLASH !in p && NUL !in p
    ensures match Resolve(parts, segs) case Escapes => true case Resolved(r) => Clean(r)
  {
    if parts != [] {
      if parts[0] == [] || parts[0] == CURRENT {
        ResolveIsClean(parts[1..], segs);
      } else if parts[0] == PARENT {
        if segs != [] {
          ResolveIsClean(parts[1..], segs[..|segs| - 1]);
        }
      } else {
        ResolveIsClean(parts[1..], segs + [parts[0]]);
      }
    }
  }

  lemma {:induction false} ResolveKeepsClean(parts: seq<Text>, segs: seq<Text>)
    requires Clean(parts)
    ensures Resolve(parts, segs) == Resolved(segs + parts)
  {
    if parts == [] {
      assert segs + parts == segs;
    } else {
      assert CleanSegment(parts[0]);
      ResolveKeepsClean(parts[1..], segs + [parts[0]]);
      assert segs + [parts[0]] + parts[1..] == segs + parts;
    }
  }

  lemma {:induction false} JoinIsClean(segs: seq<Text>, u: Unit)
    requires u != SLASH && forall s <- segs :: u !in s
    ensures u !in Join(segs, SLASH)
  {
    if |segs| > 1 {
      JoinIsClean(segs[1..], u);
    }
  }

  lemma {:induction false} SplitKeepsUnits(s: Text, sep: Unit, u: Unit)
    requires u !in s
    ensures forall p <- Split(s, sep) :: u !in p
  {
    if s != [] {
      SplitKeepsUnits(s[1..], sep, u);
    }
  }

  lemma SplitRendered(segs: seq<Text>)
    requires Clean(segs)
    ensures Split(Render(segs), SLASH) == if segs == [] then [[], []] else [[]] + segs
  {
    if segs == [] {
      assert Split(ROOT, SLASH) == [[]] + Split([], SLASH);
    } else {
      SplitJoin(segs, SLASH);
      assert Render(segs) == [] + [SLASH] + Join(segs, SLASH);
      SplitAppend([], SLASH, Join(segs, SLASH));
    }
  }

  lemma JoinIsNonempty(segs: seq<Text>)
    requires Clean(segs) && segs != []
    ensures |Join(segs, SLASH)| > 0
  {
    assert CleanSegment(segs[0]);
  }

  lemma SegmentsOfRendered(segs: seq<Text>)
    requires Clean(segs)
    ensures Segments(Render(segs)) == segs
  {
    SplitRendered(segs);
    if segs != [] {
      var keep := (s: Text) => s != [];
      JoinIsNonempty(segs);
      assert |Render(segs)| > 1;
      FilterAppend(keep, [[]], segs);
      FilterAll(keep, segs);
      FilterNone(keep, [[]]);
      assert Filter(keep, [[]] + segs) == segs;
      assert Segments(Render(segs)) == Filter(keep, [[]] + segs);
    }
  }

  lemma CanonicalizeRendered(segs: seq<Text>)
    requires Clean(segs)
    ensures CanonicalizePath(Render(segs)) == Ok(Render(segs))
  {
    SplitRendered(segs);
    JoinIsClean(segs, NUL);
    JoinIsClean(segs, BACKSLASH);
    assert NormalizeSeparators(Render(segs)) == Render(segs);
    if segs == [] {
      assert Resolve([[], []], []) == Resolve([[]], []) == Resolved([]) by {
        var two: seq<Text> := [[], []];
        assert two[1..] == [[]];
        var one: seq<Text> := [[]];
        assert one[1..] == [];
      }
    } else {
      assert ([[]] + segs)[1..] == segs;
      ResolveKeepsClean(segs, []);
      assert [] + segs == segs;
    }
  }

  /** Every output of the normaliser is a rendering of clean segments. */
  lemma CanonicalizeYieldsRendered(input: Text) returns (segs: seq<Text>)
    requires CanonicalizePath(input).Ok?
    ensures Clean(segs) && CanonicalizePath(input).value == Render(segs)
  {
    var posix := NormalizeSeparators(input);
    SplitPartsAreClean(posix, SLASH);
    SplitKeepsUnits(posix, SLASH, BACKSLASH);
    SplitKeepsUnits(posix, SLASH, NUL);
    ResolveIsClean(Split(posix, SLASH), []);
    segs := Resolve(Split(posix, SLASH), []).segs;
  }

  /** The canonical paths are exactly the renderings of clean segment lists. */
  lemma CanonicalFormIff(path: Text)
    ensures IsCanonicalForm(path) <==> Clean(Segments(path)) && path == Render(Segments(path))
  {
    if IsCanonicalForm(path) {
      var segs := CanonicalizeYieldsRendered(path);
      SegmentsOfRendered(segs);
    }
    if Clean(Segments(path)) && path == Render(Segments(path)) {
      CanonicalizeRendered(Segments(path));
    }
  }

  /** Normalising is idempotent, and its outputs are the canonical forms. */
  lemma CanonicalizeIdempotent(input: Text)
    requires CanonicalizePath(input).Ok?
    ensures IsCanonicalForm(CanonicalizePath(input).value)
    ensures CanonicalizePath(CanonicalizePath(input).value) == CanonicalizePath(input)
  {
    var segs := CanonicalizeYieldsRendered(input);
    CanonicalizeRendered(segs);
  }

  // ---- What resolution computes ----

  lemma {:induction false} ResolveAppend(a: seq<Text>, b: seq<Text>, segs: seq<Text>)
    ensures Resolve(a + b, segs) ==
            match Resolve(a, segs) case Escapes => Escapes case Resolved(r) => Resolve(b, r)
  {
    if a == [] {
      assert a + b == b;
    } else {
      assert (a + b)[1..] == a[1..] + b;
      if a[0] == [] || a[0] == CURRENT {
        ResolveAppend(a[1..], b, segs);
      } else if a[0] == PARENT {
        if segs != [] {
          ResolveAppend(a[1..], b, segs[..|segs| - 1]);
        }
      } else {
        ResolveAppend(a[1..], b, segs + [a[0]]);
      }
    }
  }

  /** `name/..` cancels anywhere in a path. */
  lemma ParentCancelsName(before: seq<Text>, name: Text, after: seq<Text>, segs: seq<Text>)
    requires name != [] && name != CURRENT && name != PARENT
    ensures Resolve(before + [name, PARENT] + after, segs) == Resolve(before + after, segs)
  {
    ResolveAppend(before + [name, PARENT], after, segs);
    ResolveAppend(before, [name, PARENT], segs);
    ResolveAppend(before, after, segs);
    match Resolve(before, segs)
    case Escapes =>
    case Resolved(r) =>
      assert [name, PARENT][1..] == [PARENT];
      assert [PARENT][1..] == [];
      assert (r + [name])[..|r + [name]| - 1] == r;
      assert Resolve([name, PARENT], r) == Resolve([PARENT], r + [name]) == Resolved(r);
  }

  /** How far below the start a list of raw segments leads. */
  function Height(parts: seq<Text>): int {
    if parts == [] then 0
    else
      var last := parts[|parts| - 1];
      Height(parts[..|parts| - 1]) +
      if last == [] || last == CURRENT then 0 else if last == PARENT then -1 else 1
  }

  ghost predicate ClimbsAboveStart(parts: seq<Text>) {
    exists k :: 0 <= k <= |parts| && Height(parts[..k]) < 0
  }

  lemma {:induction false} ResolveHeight(parts: seq<Text>)
    ensures Resolve(parts, []).Resolved? ==> |Resolve(parts, []).segs| == Height(parts)
    ensures Resolve(parts, []).Escapes? <==> ClimbsAboveStart(parts)
  {
    if parts == [] {
      assert parts[..0] == parts;
    } else {
      var init, last := parts[..|parts| - 1], parts[|parts| - 1];
      ResolveHeight(init);
      ResolveAppend(init, [last], []);
      assert parts == init + [last];
      var one := [last];
      assert one[1..] == [];
      assert forall k :: 0 <= k <= |init| ==> init[..k] == parts[..k];
      assert parts[..|parts|] == parts;
      if Resolve(init, []).Escapes? {
        var k :| 0 <= k <= |init| && Height(init[..k]) < 0;
        assert Height(parts[..k]) < 0;
      } else if Resolve(parts, []).Escapes? {
        assert Height(parts[..|parts|]) < 0;
      }
    }
  }

  /** A path is refused as an escape exactly when some prefix of it climbs
      above the filesystem root, even if the rest comes back down. */
  lemma EscapeIff(input: Text)
    requires input != [] && NUL !in input && StartsWith(NormalizeSeparators(input), ROOT)
    ensures CanonicalizePath(input) == Err(PathEscapeAboveRoot) <==>
            ClimbsAboveStart(Split(NormalizeSeparators(input), SLASH))
  {
    ResolveHeight(Split(NormalizeSeparators(input), SLASH));
  }

  /** A backslash separates like a slash; nothing else changes. */
  lemma NormalizedAt(input: Text, i: nat)
    requires i < |input|
    ensures NormalizeSeparators(input)[i] == if input[i] == '\\' as int then '/' as int else input[i]
  {
  }

  /** Which paths are refused, and as what. */
  lemma RefusedIff(input: Text)
    ensures var r := CanonicalizePath(input);
            var separated := input != [] && (input[0] == '/' as int || input[0] == '\\' as int);
            && (r == Err(PathEmpty) <==> input == [])
            && (r == Err(PathInvalidNul) <==> 0 in input)
            && (r == Err(PathNotAbsolute) <==> input != [] && 0 !in input && !separated)
            && (r == Err(PathEscapeAboveRoot) <==>
                  separated && 0 !in input && ClimbsAboveStart(Split(NormalizeSeparators(input), SLASH)))
  {
    hide NormalizeSeparators, Resolve, ClimbsAboveStart;
    if input != [] {
      NormalizedAt(input, 0);
      var posix := NormalizeSeparators(input);
      assert StartsWith(posix, ROOT) <==> posix[0] == SLASH;
      if 0 !in input && StartsWith(posix, ROOT) {
        EscapeIff(input);
      }
    }
  }

  // ---- Containment is a tree order ----

  lemma WithinIsPartialOrder(a: Text, b: Text, c: Text)
    ensures IsCanonicalForm(a) ==> IsWithin(a, a)
    ensures IsWithin(a, b) && IsWithin(b, a) ==> a == b
    ensures IsWithin(a, b) && IsWithin(b, c) ==> IsWithin(a, c)
    ensures IsCanonicalForm(a) ==> IsWithin(ROOT, a)
  {
    CanonicalFormIff(a);
    CanonicalFormIff(b);
    if IsWithin(a, b) && IsWithin(b, a) {
      assert Segments(a) == Segments(b);
    }
    assert Render([]) == ROOT;
    CanonicalizeRendered([]);
  }

  /** Any two ancestors of one path are comparable. */
  lemma AncestorsAreComparable(a: Text, b: Text, target: Text)
    requires IsWithin(a, target) && IsWithin(b, target)
    ensures IsWithin(a, b) || IsWithin(b, a)
    ensures |Segments(a)| <= |Segments(b)| ==> IsWithin(a, b)
  {
    var sa, sb, st := Segments(a), Segments(b), Segments(target);
    if |sa| <= |sb| {
      assert sa == st[..|sa|] && sb == st[..|sb|];
      assert st[..|sb|][..|sa|] == st[..|sa|];
    } else {
      assert st[..|sa|][..|sb|] == st[..|sb|];
    }
  }

  lemma CanonicalSplit(path: Text)
    requires IsCanonicalForm(path) && path != ROOT
    ensures Split(path, SLASH) == [[]] + Segments(path)
  {
    CanonicalFormIff(path);
    SplitRendered(Segments(path));
  }

  lemma ContinuedIsWithin(root: Text, target: Text)
    requires IsCanonicalForm(root) && IsCanonicalForm(target)
    requires root != ROOT && StartsWith(target, root + ROOT)
    ensures IsWithin(root, target)
  {
    hide IsCanonicalForm;
    CanonicalIsNonempty(root);
    CanonicalSplit(root);
    CanonicalSplit(target);
    var tail := target[|root| + 1..];
    assert target == root + [SLASH] + tail;
    SplitAppend(root, SLASH, tail);
    SameAfterFirst([], Segments(target), Segments(root), Split(tail, SLASH));
  }

  lemma SameAfterFirst(x: Text, s: seq<Text>, a: seq<Text>, b: seq<Text>)
    requires [x] + s == [x] + a + b
    ensures s == a + b
  {
    assert [x] + a + b == [x] + (a + b);
    assert s == ([x] + s)[1..] && a + b == ([x] + (a + b))[1..];
  }

  lemma CanonicalIsNonempty(path: Text)
    requires IsCanonicalForm(path)
    ensures path != []
  {
  }

  lemma RenderAppend(a: seq<Text>, b: seq<Text>)
    requires a != [] && b != []
    ensures Render(a + b) == Render(a) + ROOT + Join(b, SLASH)
  {
    JoinAppend(a, b, SLASH);
  }

  lemma WithinContinues(root: Text, target: Text)
    requires IsWithin(root, target) && root != target && root != ROOT
    ensures StartsWith(target, root + ROOT)
  {
    CanonicalFormIff(root);
    CanonicalFormIff(target);
    var sr, st := Segments(root), Segments(target);
    assert st == sr + st[|sr|..] && sr != st;
    RenderAppend(sr, st[|sr|..]);
  }

  /** Containment read off the text: equal, or the target continues the root
      with a separator. A sibling with a common prefix is never inside. */
  lemma WithinByText(root: Text, target: Text)
    requires IsCanonicalForm(root) && IsCanonicalForm(target)
    ensures IsWithin(root, target) <==> root == target || root == ROOT || StartsWith(target, root + ROOT)
  {
    if root == ROOT {
      assert Segments(ROOT) == [];
    } else if IsWithin(root, target) && root != target {
      WithinContinues(root, target);
    } else if StartsWith(target, root + ROOT) {
      ContinuedIsWithin(root, target);
    }
  }

  lemma {:induction false} LongerIsDeeper(a: seq<Text>, b: seq<Text>)
    requires Clean(a) && Clean(b) && a <= b
    ensures |Render(a)| <= |Render(b)|
    ensures |Render(a)| == |Render(b)| ==> a == b
  {
    if a != b {
      var rest := b[|a|..];
      assert b == a + rest && rest != [];
      assert Clean(rest);
      JoinIsNonempty(rest);
      if a != [] {
        JoinAppend(a, rest, SLASH);
      }
    }
  }

  /** On the ancestors of one path, text length and segment depth agree. */
  lemma AncestorsByLength(a: Text, b: Text, target: Text)
    requires IsWithin(a, target) && IsWithin(b, target)
    ensures |a| <= |b| <==> IsWithin(a, b)
  {
    CanonicalFormIff(a);
    CanonicalFormIff(b);
    AncestorsAreComparable(a, b, target);
    if IsWithin(a, b) {
      LongerIsDeeper(Segments(a), Segments(b));
    } else {
      LongerIsDeeper(Segments(b), Segments(a));
    }
  }

  // ---- Resolution against a root ----

  lemma WithinRootStaysInside(root: Text, candidate: Text)
    requires CanonicalizeWithinRoot(root, candidate).Ok?
    ensures CanonicalizePath(root).Ok?
    ensures IsWithin(CanonicalizePath(root).value, CanonicalizeWithinRoot(root, candidate).value)
  {
  }

  predicate Trivial(s: Text) {
    s == [] || s == CURRENT
  }

  lemma {:induction false} ResolveDropsTrivial(parts: seq<Text>, segs: seq<Text>)
    requires PARENT !in parts
    ensures Resolve(parts, segs) == Resolved(segs + Filter(p => !Trivial(p), parts))
  {
    if parts == [] {
      assert segs + [] == segs;
    } else if Trivial(parts[0]) {
      assert PARENT !in parts[1..];
      ResolveDropsTrivial(parts[1..], segs);
    } else {
      ResolveDropsTrivial(parts[1..], segs + [parts[0]]);
      var keep := p => !Trivial(p);
      assert segs + [parts[0]] + Filter(keep, parts[1..]) == segs + Filter(keep, parts);
    }
  }

  lemma {:induction false} NoParentSegment(s: Text)
    requires !Includes(s, PARENT)
    ensures PARENT !in Split(s, SLASH)
  {
    JoinSplit(s, SLASH);
    var parts := Split(s, SLASH);
    if PARENT in parts {
      var k :| 0 <= k < |parts| && parts[k] == PARENT;
      PartIsInside(parts, k);
    }
  }

  lemma {:induction false} PartIsInside(parts: seq<Text>, k: nat)
    requires k < |parts|
    ensures exists i :: 0 <= i <= |Join(parts, SLASH)| && StartsWith(Join(parts, SLASH)[i..], parts[k])
  {
    var s := Join(parts, SLASH);
    if k == 0 {
      assert s[0..] == s;
      assert StartsWith(s[0..], parts[k]);
    } else {
      PartIsInside(parts[1..], k - 1);
      var t := Join(parts[1..], SLASH);
      var i :| 0 <= i <= |t| && StartsWith(t[i..], parts[1..][k - 1]);
      assert s == parts[0] + [SLASH] + t;
      assert s[|parts[0]| + 1 + i..] == t[i..];
    }
  }

  lemma JoinedResolves(sr: seq<Text>, candidate: Text)
    requires Clean(sr)
    requires PARENT !in Split(candidate, SLASH) && NUL !in candidate && BACKSLASH !in candidate
    ensures CanonicalizePath(Render(sr) + ROOT + candidate) ==
            Ok(Render(sr + Filter(p => !Trivial(p), Split(candidate, SLASH))))
  {
    var base := Render(sr);
    var joined := base + ROOT + candidate;
    JoinIsClean(sr, NUL);
    JoinIsClean(sr, BACKSLASH);
    assert NormalizeSeparators(joined) == joined;
    SplitAppend(base, SLASH, candidate);
    SplitRendered(sr);
    ResolveAppend(Split(base, SLASH), Split(candidate, SLASH), []);
    RenderedResolvesToItself(sr);
    ResolveDropsTrivial(Split(candidate, SLASH), sr);
  }

  lemma RenderedResolvesToItself(sr: seq<Text>)
    requires Clean(sr)
    ensures Resolve(Split(Render(sr), SLASH), []) == Resolved(sr)
  {
    SplitRendered(sr);
    CanonicalizeRendered(sr);
    if sr == [] {
      ResolveDropsTrivial([[], []], []);
      assert Filter(p => !Trivial(p), [[], []]) == [];
    } else {
      assert ([[]] + sr)[1..] == sr;
      ResolveKeepsClean(sr, []);
      assert [] + sr == sr;
    }
  }

  lemma OwnSegmentsAreClean(candidate: Text)
    requires PARENT !in Split(candidate, SLASH) && NUL !in candidate && BACKSLASH !in candidate
    ensures Clean(Filter(p => !Trivial(p), Split(candidate, SLASH)))
  {
    SplitPartsAreClean(candidate, SLASH);
    SplitKeepsUnits(candidate, SLASH, BACKSLASH);
    SplitKeepsUnits(candidate, SLASH, NUL);
  }

  /** A nonempty path accepted as canonical relative resolves to the root's
      segments followed by its own segments other than `` and `.`. */
  lemma RelativePathResolves(root: Text, candidate: Text)
    requires CanonicalizePath(root).Ok?
    requires candidate != [] && IsCanonicalRelativePath(candidate)
    ensures CanonicalizeWithinRoot(root, candidate) ==
            Ok(Render(Segments(CanonicalizePath(root).value)
                      + Filter(p => !Trivial(p), Split(candidate, SLASH))))
  {
    var sr := CanonicalizeYieldsRendered(root);
    SegmentsOfRendered(sr);
    CanonicalizeRendered(sr);
    NoParentSegment(candidate);
    OwnSegmentsAreClean(candidate);
    JoinedResolves(sr, candidate);
    var own := Filter(p => !Trivial(p), Split(candidate, SLASH));
    SegmentsOfRendered(sr + own);
    CanonicalizeRendered(sr + own);
    assert NormalizeSeparators(candidate) == candidate;
    assert IsWithin(Render(sr), Render(sr + own));
  }
}
