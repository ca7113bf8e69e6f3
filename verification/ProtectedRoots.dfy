/** Protected roots: which class of root, and which root, encloses a path. */
module ProtectedRoots {
  import opened JsText
  import opened Paths
  import opened Wrappers

  datatype Intent = Read | Write | Delete

  datatype RootClass = DelegatedWriteDenied | AbsoluteDenial

  datatype ProtectedRootsConfig = ProtectedRootsConfig(
    delegatedWriteDeniedOwnerApprovable: seq<Text>,
    absoluteDenial: seq<Text>)

  datatype PathClass = Unprotected | Protected(rootClass: RootClass, root: Text)

  /** The longest enclosing root, the earliest of equals, against a best so far. */
  function Longest(roots: seq<Text>, path: Text, best: Option<Text>): Option<Text> {
    if roots == [] then best
    else
      Longest(roots[1..], path,
              if IsWithin(roots[0], path) && (best.Some? ==> |roots[0]| > |best.value|) then Some(roots[0]) else best)
  }

  function ClassifyProtectedPath(config: ProtectedRootsConfig, path: Text): PathClass {
    match Longest(config.absoluteDenial, path, None)
    case Some(root) => Protected(AbsoluteDenial, root)
    case None =>
      match Longest(config.delegatedWriteDeniedOwnerApprovable, path, None)
      case Some(root) => Protected(DelegatedWriteDenied, root)
      case None => Unprotected
  }

  /** One loop of the source, keeping the best root and its length. */
  method LongestLoop(roots: seq<Text>, path: Text) returns (best: Option<Text>)
    ensures best == Longest(roots, path, None)
  {
    hide IsWithin;
    best := None;
    var bestLen := -1;
    var i := 0;
    while i < |roots|
      invariant 0 <= i <= |roots|
      invariant bestLen == if best.None? then -1 else |best.value|
      invariant Longest(roots, path, None) == Longest(roots[i..], path, best)
    {
      assert roots[i..] == [roots[i]] + roots[i + 1..];
      if IsWithin(roots[i], path) && |roots[i]| > bestLen {
        best, bestLen := Some(roots[i]), |roots[i]|;
      }
      i := i + 1;
    }
  }

  method ClassifyLoop(config: ProtectedRootsConfig, path: Text) returns (r: PathClass)
    ensures r == ClassifyProtectedPath(config, path)
  {
    var bestAbsolute := LongestLoop(config.absoluteDenial, path);
    if bestAbsolute.Some? {
      return Protected(AbsoluteDenial, bestAbsolute.value);
    }
    var bestDelegated := LongestLoop(config.delegatedWriteDeniedOwnerApprovable, path);
    return if bestDelegated.Some? then Protected(DelegatedWriteDenied, bestDelegated.value) else Unprotected;
  }

  datatype Conflict = NoConflict | Conflict(rootClass: RootClass, root: Text)

  function ProtectedConflictForIntent(config: ProtectedRootsConfig, path: Text, intent: Intent): Conflict {
    match ClassifyProtectedPath(config, path)
    case Unprotected => NoConflict
    case Protected(AbsoluteDenial, root) => Conflict(AbsoluteDenial, root)
    case Protected(DelegatedWriteDenied, root) =>
      if intent != Read then Conflict(DelegatedWriteDenied, root) else NoConflict
  }

  // ---- The innermost enclosing root ----

  /** A member that encloses the path and lies inside every other that does. */
  ghost predicate Innermost(roots: seq<Text>, path: Text, root: Text) {
    && root in roots && IsWithin(root, path)
    && forall other <- roots :: IsWithin(other, path) ==> IsWithin(other, root)
  }

  lemma {:induction false} LongestIsLongest(roots: seq<Text>, path: Text, best: Option<Text>)
    ensures var r := Longest(roots, path, best);
            && (r.None? <==> best.None? && forall x <- roots :: !IsWithin(x, path))
            && (r.Some? ==>
                  && (r == best || (r.value in roots && IsWithin(r.value, path)))
                  && (best.Some? ==> |r.value| >= |best.value|)
                  && (forall x <- roots :: IsWithin(x, path) ==> |x| <= |r.value|))
  {
    hide IsWithin;
    if roots != [] {
      var first := roots[0];
      var next := if IsWithin(first, path) && (best.Some? ==> |first| > |best.value|) then Some(first) else best;
      LongestIsLongest(roots[1..], path, next);
      assert roots == [first] + roots[1..];
    }
  }

  /** The loop finds the innermost enclosing root, and nothing only if no root
      encloses the path. */
  lemma LongestIsInnermost(roots: seq<Text>, path: Text)
    ensures Longest(roots, path, None).None? <==> forall x <- roots :: !IsWithin(x, path)
    ensures Longest(roots, path, None).Some? ==> Innermost(roots, path, Longest(roots, path, None).value)
  {
    hide IsWithin;
    LongestIsLongest(roots, path, None);
    var r := Longest(roots, path, None);
    if r.Some? {
      forall other | other in roots && IsWithin(other, path)
        ensures IsWithin(other, r.value)
      {
        AncestorsByLength(other, r.value, path);
      }
    }
  }

  lemma InnermostIsUnique(a: seq<Text>, b: seq<Text>, path: Text, x: Text, y: Text)
    requires (forall r :: r in a <==> r in b) && Innermost(a, path, x) && Innermost(b, path, y)
    ensures x == y
  {
    hide IsWithin;
    WithinIsPartialOrder(x, y, path);
  }

  lemma LongestIgnoresOrder(a: seq<Text>, b: seq<Text>, path: Text)
    requires forall r :: r in a <==> r in b
    ensures Longest(a, path, None) == Longest(b, path, None)
  {
    hide IsWithin, Longest;
    LongestIsInnermost(a, path);
    LongestIsInnermost(b, path);
    if Longest(a, path, None).Some? && Longest(b, path, None).Some? {
      InnermostIsUnique(a, b, path, Longest(a, path, None).value, Longest(b, path, None).value);
    }
  }

  /** The classification depends only on which roots are configured, not on
      their order or on repetitions. */
  lemma ClassificationIgnoresOrder(c: ProtectedRootsConfig, d: ProtectedRootsConfig, path: Text)
    requires forall r :: r in c.absoluteDenial <==> r in d.absoluteDenial
    requires forall r :: r in c.delegatedWriteDeniedOwnerApprovable <==> r in d.delegatedWriteDeniedOwnerApprovable
    ensures ClassifyProtectedPath(c, path) == ClassifyProtectedPath(d, path)
  {
    hide Longest;
    LongestIgnoresOrder(c.absoluteDenial, d.absoluteDenial, path);
    LongestIgnoresOrder(c.delegatedWriteDeniedOwnerApprovable, d.delegatedWriteDeniedOwnerApprovable, path);
  }

  /** Absolute denial wins; within a class the unique innermost root does. */
  lemma ClassificationIff(config: ProtectedRootsConfig, path: Text, root: Text)
    ensures ClassifyProtectedPath(config, path) == Protected(AbsoluteDenial, root) <==>
            Innermost(config.absoluteDenial, path, root)
    ensures ClassifyProtectedPath(config, path) == Protected(DelegatedWriteDenied, root) <==>
            && (forall r <- config.absoluteDenial :: !IsWithin(r, path))
            && Innermost(config.delegatedWriteDeniedOwnerApprovable, path, root)
    ensures ClassifyProtectedPath(config, path) == Unprotected <==>
            && (forall r <- config.absoluteDenial :: !IsWithin(r, path))
            && (forall r <- config.delegatedWriteDeniedOwnerApprovable :: !IsWithin(r, path))
  {
    hide IsWithin, Longest;
    LongestIff(config.absoluteDenial, path, root);
    LongestIff(config.delegatedWriteDeniedOwnerApprovable, path, root);
  }

  lemma LongestIff(roots: seq<Text>, path: Text, root: Text)
    ensures Longest(roots, path, None) == Some(root) <==> Innermost(roots, path, root)
    ensures Longest(roots, path, None).None? <==> forall x <- roots :: !IsWithin(x, path)
  {
    hide IsWithin, Longest;
    LongestIsInnermost(roots, path);
    if Innermost(roots, path, root) && Longest(roots, path, None).Some? {
      InnermostIsUnique(roots, roots, path, root, Longest(roots, path, None).value);
    }
  }
}
