/** What holds of every run of the copy, also of one that fails half-way. */
module TreeCopySafety {
  import opened JsText
  import opened Paths
  import opened Exclusions
  import opened ProtectedRoots
  import opened Wrappers
  import opened TreeCopy
  import opened TreeCopyLaws

  // ---- Paths of a well-formed tree are pairwise distinct ----

  function PathsOf(v: seq<Entry>): (paths: seq<Text>)
    ensures |paths| == |v| && forall i :: 0 <= i < |v| ==> paths[i] == v[i].path
  {
    seq(|v|, i requires 0 <= i < |v| => v[i].path)
  }

  ghost predicate UnderOneOf(rel: Text, names: seq<Text>, path: Text) {
    exists n <- names :: AtOrBelow(Child(rel, n), path)
  }

  lemma BelowChildIsBelow(c: Text, name: Text, path: Text)
    requires c != [] && AtOrBelow(Child(c, name), path)
    ensures StartsWith(path, c + ROOT)
  {
    assert Child(c, name)[..|c| + 1] == c + ROOT;
    assert path[..|c| + 1] == c + ROOT;
  }

  lemma {:induction false} EntriesAreUnder(rel: Text, f: Forest)
    requires WellFormedForest(f)
    ensures forall e <- AllEntries(rel, f) :: UnderOneOf(rel, Names(f), e.path)
    decreases f, 0
  {
    if f.Cons? {
      var c := Child(rel, f.name);
      EntriesAreUnder(rel, f.rest);
      var below := if f.node.Dir? then AllEntries(c, f.node.children) else [];
      if f.node.Dir? {
        EntriesBelow(c, f.node.children);
      }
      forall e | e in AllEntries(rel, f)
        ensures UnderOneOf(rel, Names(f), e.path)
      {
        if e == Entry(c, f.node) || e in below {
          assert f.name in Names(f) && AtOrBelow(c, e.path);
        } else {
          var n :| n in Names(f.rest) && AtOrBelow(Child(rel, n), e.path);
          assert n in Names(f);
        }
      }
    }
  }

  lemma {:induction false} EntriesBelow(c: Text, f: Forest)
    requires WellFormedForest(f) && c != []
    ensures forall e <- AllEntries(c, f) :: StartsWith(e.path, c + ROOT)
    decreases f, 1
  {
    EntriesAreUnder(c, f);
    forall e | e in AllEntries(c, f)
      ensures StartsWith(e.path, c + ROOT)
    {
      var n :| n in Names(f) && AtOrBelow(Child(c, n), e.path);
      BelowChildIsBelow(c, n, e.path);
    }
  }

  lemma NameInPath(rel: Text, n: Text, path: Text)
    requires AtOrBelow(Child(rel, n), path)
    ensures var start := if rel == [] then 0 else |rel| + 1;
            && start + |n| <= |path| && path[start..start + |n|] == n
            && (start + |n| < |path| ==> path[start + |n|] == SLASH)
  {
    var start := if rel == [] then 0 else |rel| + 1;
    assert Child(rel, n)[start..] == n;
    assert path[..start + |n|] == Child(rel, n);
    assert path[start..start + |n|] == path[..start + |n|][start..];
  }

  lemma OneNameOnly(rel: Text, n: Text, m: Text, path: Text)
    requires AtOrBelow(Child(rel, n), path) && AtOrBelow(Child(rel, m), path)
    ensures |n| < |m| ==> SLASH in m
    ensures |n| == |m| ==> n == m
  {
    NameInPath(rel, n, path);
    NameInPath(rel, m, path);
    if |n| < |m| {
      var start := if rel == [] then 0 else |rel| + 1;
      assert m[|n|] == path[start + |n|];
    }
  }

  lemma DistinctAppend(a: seq<Text>, b: seq<Text>)
    requires Distinct(a) && Distinct(b)
    requires forall x <- a :: x !in b
    ensures Distinct(a + b)
  {
    forall i, j | 0 <= i < j < |a + b|
      ensures (a + b)[i] != (a + b)[j]
    {
      if j < |a| {
        assert a[i] != a[j];
      } else if i < |a| {
        assert a[i] in a && b[j - |a|] in b;
      } else {
        assert b[i - |a|] != b[j - |a|];
      }
    }
  }

  lemma LaterSiblingsAreApart(rel: Text, f: Forest, x: Text)
    requires WellFormedForest(f) && f.Cons?
    requires x in PathsOf(AllEntries(rel, f.rest))
    ensures !AtOrBelow(Child(rel, f.name), x)
  {
    var rest := AllEntries(rel, f.rest);
    EntriesAreUnder(rel, f.rest);
    var i :| 0 <= i < |rest| && rest[i].path == x;
    assert rest[i] in rest;
    var n :| n in Names(f.rest) && AtOrBelow(Child(rel, n), x);
    NamesAreClean(f.rest);
    BeforeIsTotal(f.name, n);
    if AtOrBelow(Child(rel, f.name), x) {
      OneNameOnly(rel, f.name, n, x);
      OneNameOnly(rel, n, f.name, x);
    }
  }

  lemma SubtreePathsAreUnder(rel: Text, f: Forest, x: Text)
    requires WellFormedForest(f) && f.Cons? && f.node.Dir?
    requires x in PathsOf(AllEntries(Child(rel, f.name), f.node.children))
    ensures x != Child(rel, f.name) && AtOrBelow(Child(rel, f.name), x)
  {
    var c := Child(rel, f.name);
    var below := AllEntries(c, f.node.children);
    EntriesBelow(c, f.node.children);
    var i :| 0 <= i < |below| && below[i].path == x;
    assert below[i] in below;
  }

  lemma {:induction false} PathsAreDistinct(rel: Text, f: Forest)
    requires WellFormedForest(f)
    ensures Distinct(PathsOf(AllEntries(rel, f)))
    decreases f
  {
    if f.Cons? {
      var c := Child(rel, f.name);
      var below := if f.node.Dir? then AllEntries(c, f.node.children) else [];
      if f.node.Dir? {
        PathsAreDistinct(c, f.node.children);
        forall x | x in PathsOf(below)
          ensures x != c && AtOrBelow(c, x)
        {
          SubtreePathsAreUnder(rel, f, x);
        }
      }
      PathsAreDistinct(rel, f.rest);
      var rest := PathsOf(AllEntries(rel, f.rest));
      forall x | x in rest
        ensures !AtOrBelow(c, x)
      {
        LaterSiblingsAreApart(rel, f, x);
      }
      DistinctAppend([c], PathsOf(below));
      DistinctAppend([c] + PathsOf(below), rest);
      assert PathsOf(AllEntries(rel, f)) == [c] + PathsOf(below) + rest;
    }
  }

  lemma {:induction false} NamesAreClean(f: Forest)
    requires WellFormedForest(f)
    ensures forall n <- Names(f) :: n != [] && SLASH !in n
  {
    if f.Cons? {
      NamesAreClean(f.rest);
    }
  }

  lemma {:induction false} FilterKeepsDistinct(keep: Entry -> bool, v: seq<Entry>)
    requires Distinct(PathsOf(v))
    ensures Distinct(PathsOf(Filter(keep, v)))
  {
    if v != [] {
      assert PathsOf(v[1..]) == PathsOf(v)[1..];
      FilterKeepsDistinct(keep, v[1..]);
      var rest := Filter(keep, v[1..]);
      if keep(v[0]) {
        forall i | 0 <= i < |rest|
          ensures rest[i].path != v[0].path
        {
          assert rest[i] in v[1..];
          var j :| 0 <= j < |v[1..]| && v[1..][j] == rest[i];
          assert PathsOf(v)[j + 1] != PathsOf(v)[0];
        }
        assert PathsOf([v[0]] + rest) == [v[0].path] + PathsOf(rest);
      }
    }
  }

  /** After a successful copy the digest of a kept file is on record, under its
      path, exactly when that path is not `__proto__`. */
  lemma DigestIsRecordedIff(host: Host, o: Options, root: Forest, e: Entry)
    requires WellFormedForest(root) && FullRun(host, o, root).Running? && o.digests
    requires e in Kept(Excluding(o), root) && e.node.File?
    ensures var digests := FullRun(host, o, root).progress.fileDigests;
            && (e.path in digests <==> e.path != PROTO)
            && (e.path in digests ==> digests[e.path] == host.contentHash(e.node.content))
  {
    var v := Kept(Excluding(o), root);
    var digests := FullRun(host, o, root).progress.fileDigests;
    CopyDelivers(host, o, root);
    assert FileAt(v, e.path);
    if e.path in digests {
      var d :| d in v && d.node.File? && d.path == e.path && host.contentHash(d.node.content) == digests[e.path];
      PathsAreDistinct([], root);
      FilterKeepsDistinct(Keeping(Excluding(o)), AllEntries([], root));
      SamePathSameEntry(v, d, e);
    }
  }

  lemma SamePathSameEntry(v: seq<Entry>, d: Entry, e: Entry)
    requires Distinct(PathsOf(v)) && d in v && e in v && d.path == e.path
    ensures d == e
  {
    var i :| 0 <= i < |v| && v[i] == d;
    var j :| 0 <= j < |v| && v[j] == e;
    assert PathsOf(v)[i] == PathsOf(v)[j];
  }

  /** A host where nothing fails, and one file `__proto__` to copy. */
  const EASY_HOST := Host(false, (tick: nat) => false, (rel: Text) => false, (rel: Text) => false,
                          (rel: Text) => Done, (rel: Text) => Written, (rel: Text) => rel,
                          (content: seq<Byte>) => [], (text: Text) => text)

  const EASY_OPTIONS := Options(ExclusionSet([], []), Limits(1, 1, 1, 9, 1, 1), false, true)

  const PROTO_FILE := File([], false, 1)

  lemma ProtoIsKept()
    ensures var root := Cons(PROTO, PROTO_FILE, Nil);
            && WellFormedForest(root) && Kept(Excluding(EASY_OPTIONS), root) == [Entry(PROTO, PROTO_FILE)]
            && Frontier(Excluding(EASY_OPTIONS), [], root) == 0
            && Acceptable(EASY_HOST, EASY_OPTIONS, Entry(PROTO, PROTO_FILE))
  {
    var entry := Entry(PROTO, PROTO_FILE);
    SplitClean(PROTO, SLASH);
    assert !EASY_OPTIONS.exclusions.Excludes(PROTO);
    assert Child([], PROTO) == PROTO;
    assert AllEntries([], Cons(PROTO, PROTO_FILE, Nil)) == [entry];
    FilterAll(Keeping(Excluding(EASY_OPTIONS)), [entry]);
  }

  /** The copy of a tree of one file `__proto__` succeeds and digests the file,
      and its record of digests is empty. */
  lemma ProtoFileIsNotRecorded()
    ensures var out := FullRun(EASY_HOST, EASY_OPTIONS, Cons(PROTO, PROTO_FILE, Nil));
            && out.Running? && out.progress.placed == [Copied(PROTO, [])]
            && out.progress.aggregate == DigestLine(PROTO, []) && out.progress.fileDigests == map[]
  {
    hide Acceptable, FullRun, Frontier, Kept, DigestLine;
    var root, v := Cons(PROTO, PROTO_FILE, Nil), [Entry(PROTO, PROTO_FILE)];
    ProtoIsKept();
    assert v[1..] == [];
    assert Registered(v) == [PROTO] && Sum(IsFile, v) == 1 && Sum(Size, v) == 0;
    assert Admissible(EASY_HOST, EASY_OPTIONS, root);
    CopySucceedsIff(EASY_HOST, EASY_OPTIONS, root);
    CopyDelivers(EASY_HOST, EASY_OPTIONS, root);
    assert Effects(v) == [Copied(PROTO, [])] && DigestText(EASY_HOST, v) == DigestLine(PROTO, []);
    var digests := FullRun(EASY_HOST, EASY_OPTIONS, root).progress.fileDigests;
    forall path ensures path !in digests {
      assert FileAt(v, path) ==> path == PROTO;
    }
  }

  // ---- Every visit was scanned, and not excluded ----

  ghost predicate ScannedWithin(ex: Text -> bool, before: seq<Event>, events: seq<Event>) {
    forall k :: 0 <= k < |events| && events[k].Visit? ==>
      !ex(events[k].rel) && Scan(events[k].rel) in before + events[..k]
  }

  lemma ScannedAppend(ex: Text -> bool, before: seq<Event>, a: seq<Event>, b: seq<Event>)
    requires ScannedWithin(ex, before, a) && ScannedWithin(ex, before + a, b)
    ensures ScannedWithin(ex, before, a + b)
  {
    forall k | 0 <= k < |a + b| && (a + b)[k].Visit?
      ensures !ex((a + b)[k].rel) && Scan((a + b)[k].rel) in before + (a + b)[..k]
    {
      if k < |a| {
        assert (a + b)[..k] == a[..k];
      } else {
        assert before + (a + b)[..k] == before + a + b[..k - |a|];
      }
    }
  }

  lemma ScansHaveNoVisits(ex: Text -> bool, before: seq<Event>, rel: Text, f: Forest)
    ensures ScannedWithin(ex, before, Listing(rel, f))
  {
    OnlyScans(rel, f);
    forall k | 0 <= k < |Listing(rel, f)|
      ensures !Listing(rel, f)[k].Visit?
    {
      if k > 0 {
        assert Listing(rel, f)[k] == Scans(rel, f)[k - 1];
        assert Scans(rel, f)[k - 1] in Scans(rel, f);
      }
    }
  }

  lemma {:induction false} OnlyScans(rel: Text, f: Forest)
    ensures forall e <- Scans(rel, f) :: e.Scan?
  {
    if f.Cons? {
      OnlyScans(rel, f.rest);
    }
  }

  lemma {:induction false} VisitsAreScanned(ex: Text -> bool, before: seq<Event>, rel: Text, f: Forest)
    requires forall e <- Scans(rel, f) :: e in before
    ensures ScannedWithin(ex, before, Visits(ex, rel, f))
    decreases f, 0
  {
    if f.Cons? {
      var c := Child(rel, f.name);
      assert Scan(c) in Scans(rel, f);
      assert forall e <- Scans(rel, f.rest) :: e in Scans(rel, f);
      if ex(c) {
        VisitsAreScanned(ex, before, rel, f.rest);
        EmptyPrefix(Visits(ex, rel, f.rest));
      } else {
        var visit := [Visit(c, f.node)];
        assert ScannedWithin(ex, before, visit);
        var own := if f.node.Dir? then Tour(ex, c, f.node.children) else [];
        if f.node.Dir? {
          TourIsScanned(ex, before + visit, c, f.node.children);
        }
        ScannedAppend(ex, before, visit, own);
        VisitsAreScanned(ex, before + Subtree(ex, c, f.node), rel, f.rest);
        ScannedAppend(ex, before, Subtree(ex, c, f.node), Visits(ex, rel, f.rest));
      }
    }
  }

  lemma {:induction false} TourIsScanned(ex: Text -> bool, before: seq<Event>, rel: Text, f: Forest)
    ensures ScannedWithin(ex, before, Tour(ex, rel, f))
    decreases f, 1
  {
    ScansHaveNoVisits(ex, before, rel, f);
    VisitsAreScanned(ex, before + Listing(rel, f), rel, f);
    ScannedAppend(ex, before, Listing(rel, f), Visits(ex, rel, f));
  }

  lemma EventsAreScanned(ex: Text -> bool, root: Forest)
    ensures ScannedWithin(ex, [], Events(ex, root))
  {
    TourIsScanned(ex, [] + [Begin], [], root);
    ScannedAppend(ex, [], [Begin], Tour(ex, [], root));
  }

  // ---- Safety ----

  function PlacedPaths(placed: seq<Placed>): seq<Text> {
    if placed == [] then [] else [placed[0].path] + PlacedPaths(placed[1..])
  }

  function CopiedFiles(placed: seq<Placed>): nat {
    if placed == [] then 0 else (if placed[0].Copied? then 1 else 0) + CopiedFiles(placed[1..])
  }

  function CopiedBytes(placed: seq<Placed>): nat {
    if placed == [] then 0 else (if placed[0].Copied? then |placed[0].content| else 0) + CopiedBytes(placed[1..])
  }

  /** A path that a run may create. */
  predicate Permitted(o: Options, path: Text) {
    && !o.exclusions.Excludes(path) && SafeRelPath(path)
    && Depth(path) <= o.limits.maxDepth && |path| <= o.limits.maxPathLength
  }

  /** Files that are there, whole or in part, and their bytes. */
  function FilesPlaced(placed: seq<Placed>): nat {
    if placed == [] then 0 else (if placed[0].Made? then 0 else 1) + FilesPlaced(placed[1..])
  }

  function BytesPlaced(placed: seq<Placed>): nat {
    if placed == [] then 0 else (if placed[0].Made? then 0 else |placed[0].content|) + BytesPlaced(placed[1..])
  }

  ghost predicate Safe(host: Host, o: Options, p: Progress) {
    && p.counts.files == CopiedFiles(p.placed)
    && p.counts.bytes == CopiedBytes(p.placed)
    && (FilesPlaced(p.placed) == 0 ||
        (FilesPlaced(p.placed) <= o.limits.maxFiles && BytesPlaced(p.placed) <= o.limits.maxBytes))
    && (forall path <- PlacedPaths(p.placed) :: Permitted(o, path))
    && (forall i, j :: 0 <= i < j < |PlacedPaths(p.placed)| ==>
          host.lower(PlacedPaths(p.placed)[i]) != host.lower(PlacedPaths(p.placed)[j]))
  }

  /** Moreover at a loop head: nothing beyond the other two ceilings. */
  predicate WithinScanCeilings(o: Options, p: Progress) {
    && (p.scanned == 0 || p.scanned <= o.limits.maxFiles + o.limits.maxExcludedEntries)
    && (p.counts.excluded == 0 || p.counts.excluded <= o.limits.maxExcludedEntries)
  }

  lemma {:induction false} EffectsMeasure(v: seq<Entry>)
    ensures PlacedPaths(Effects(v)) == Registered(v)
    ensures CopiedFiles(Effects(v)) == Sum(IsFile, v)
    ensures CopiedBytes(Effects(v)) == Sum(Size, v)
    ensures FilesPlaced(Effects(v)) == Sum(IsFile, v) && BytesPlaced(Effects(v)) == Sum(Size, v)
  {
    if v != [] {
      EffectsMeasure(v[1..]);
      var rest := Effects(v[1..]);
      if v[0].node.File? {
        var first := Copied(v[0].path, v[0].node.content);
        assert Effects(v)[0] == first && Effects(v)[1..] == rest;
      } else if v[0].node.Dir? {
        assert Effects(v)[0] == Made(v[0].path) && Effects(v)[1..] == rest;
      } else {
        EmptyPrefix(rest);
        EmptyPrefix(Registered(v[1..]));
      }
    }
  }

  lemma {:induction false} RegisteredAreVisited(v: seq<Entry>)
    ensures forall path <- Registered(v) :: path in PathsOf(v)
    ensures Distinct(PathsOf(v)) ==> Distinct(Registered(v))
  {
    if v != [] {
      RegisteredAreVisited(v[1..]);
      assert PathsOf(v) == [v[0].path] + PathsOf(v[1..]);
      assert PathsOf(v)[1..] == PathsOf(v[1..]);
      if Distinct(PathsOf(v)) && (v[0].node.File? || v[0].node.Dir?) {
        forall x | x in PathsOf(v[1..])
          ensures x != v[0].path
        {
          var i :| 0 <= i < |v[1..]| && PathsOf(v[1..])[i] == x;
          assert PathsOf(v)[i + 1] != PathsOf(v)[0];
        }
        DistinctAppend([v[0].path], Registered(v[1..]));
      }
    }
  }

  lemma FirstAreDistinct(v: seq<Entry>, rest: seq<Entry>)
    requires Distinct(PathsOf(v + rest))
    ensures Distinct(PathsOf(v))
  {
    assert forall i | 0 <= i < |v| :: PathsOf(v)[i] == PathsOf(v + rest)[i];
  }

  /** What a prefix of the full run has visited starts the kept entries. */
  lemma PrefixVisits(o: Options, root: Forest, k: nat)
    requires WellFormedForest(root)
    requires k <= |Events(Excluding(o), root)|
    ensures Distinct(PathsOf(Visited(Events(Excluding(o), root)[..k])))
  {
    hide Visited, Events, Excluding, PathsOf, Distinct, AllEntries;
    var events := Events(Excluding(o), root);
    assert events == events[..k] + events[k..];
    VisitedAppend(events[..k], events[k..]);
    PruningIsFiltering(o, root);
    PathsAreDistinct([], root);
    FilterKeepsDistinct(Keeping(Excluding(o)), AllEntries([], root));
    FirstAreDistinct(Visited(events[..k]), Visited(events[k..]));
  }

  lemma {:induction false} VisitedInEvents(events: seq<Event>, path: Text)
    requires path in PathsOf(Visited(events))
    ensures exists k :: 0 <= k < |events| && events[k].Visit? && events[k].rel == path
  {
    if events != [] {
      if events[0].Visit? && events[0].rel == path {
        assert events[0].Visit? && events[0].rel == path;
      } else {
        var v := Visited(events[1..]);
        var i :| 0 <= i < |Visited(events)| && Visited(events)[i].path == path;
        assert path in PathsOf(v) by {
          if events[0].Visit? {
            assert Visited(events)[i] == v[i - 1];
            assert PathsOf(v)[i - 1] == path;
          } else {
            EmptyPrefix(v);
            assert PathsOf(v)[i] == path;
          }
        }
        VisitedInEvents(events[1..], path);
        var k :| 0 <= k < |events[1..]| && events[1..][k].Visit? && events[1..][k].rel == path;
        assert events[k + 1].Visit? && events[k + 1].rel == path;
      }
    }
  }

  lemma VisitedArePermitted(host: Host, o: Options, root: Forest, k: nat, path: Text)
    requires k <= |Events(Excluding(o), root)|
    requires AllLocal(host, o, Events(Excluding(o), root)[..k])
    requires path in PathsOf(Visited(Events(Excluding(o), root)[..k]))
    ensures Permitted(o, path)
  {
    hide Permitted, LocallyOk, Events, Visited, PathsOf, Excluding;
    var ex := Excluding(o);
    var events := Events(ex, root)[..k];
    VisitedInEvents(events, path);
    var i :| 0 <= i < |events| && events[i].Visit? && events[i].rel == path;
    EventsAreScanned(ex, root);
    assert Events(ex, root)[i] == events[i];
    assert [] + Events(ex, root)[..i] == events[..i];
    assert Scan(path) in events;
    LocalIsPermitted(host, o, events[i]);
  }

  lemma LocalIsPermitted(host: Host, o: Options, e: Event)
    requires e.Visit? && LocallyOk(host, o, e) && LocallyOk(host, o, Scan(e.rel)) && !Excluding(o)(e.rel)
    ensures Permitted(o, e.rel)
  {
    hide SafeRelPath, Depth;
  }

  lemma RegisteredAreApart(host: Host, names: seq<Text>)
    requires Distinct(names) && CaseDistinct(host, names)
    ensures forall i, j :: 0 <= i < j < |names| ==> host.lower(names[i]) != host.lower(names[j])
  {
  }

  /** At every point of every run where it has not stopped, so at every loop head. */
  lemma EveryPointIsSafe(host: Host, o: Options, root: Forest, k: nat)
    requires WellFormedForest(root)
    requires k <= |Events(Excluding(o), root)|
    requires Run(Stepping(host, o), Events(Excluding(o), root)[..k], START).Running?
    ensures var p := Run(Stepping(host, o), Events(Excluding(o), root)[..k], START).progress;
            Safe(host, o, p) && WithinScanCeilings(o, p)
  {
    hide Permitted, LocallyOk;
    var events := Events(Excluding(o), root)[..k];
    var v := Visited(events);
    RunAccounts(host, o, events, START);
    RunIff(host, o, events, START);
    EmptyPrefix(Effects(v));
    EffectsMeasure(v);
    PrefixVisits(o, root, k);
    RegisteredAreVisited(v);
    NoCollisionIff(host, Registered(v), map[]);
    RegisteredAreApart(host, Registered(v));
    forall path | path in Registered(v)
      ensures Permitted(o, path)
    {
      VisitedArePermitted(host, o, root, k, path);
    }
  }

  lemma {:induction false} StopsSomewhere(step: Stepper, events: seq<Event>, p: Progress) returns (k: nat)
    requires Run(step, events, p).Stopped?
    ensures k < |events|
    ensures Run(step, events[..k], p).Running?
    ensures step(events[k], Run(step, events[..k], p).progress) == Run(step, events, p)
  {
    var out := step(events[0], p);
    if out.Stopped? {
      k := 0;
    } else {
      var j := StopsSomewhere(step, events[1..], out.progress);
      k := j + 1;
      assert events[..k] == [events[0]] + events[1..][..j];
      FirstEvent(step, events[0], events[1..][..j], p);
    }
  }

  // ---- What a failing step leaves ----

  /** The same world, but every copy and every directory succeeds. */
  function Healed(host: Host): Host {
    host.(copy := (rel: Text) => Written, mkdir := (rel: Text) => Done)
  }

  lemma HealedStep(host: Host, o: Options, e: Event, p: Progress)
    requires Step(host, o, e, p).Running?
    ensures Step(Healed(host), o, e, p) == Step(host, o, e, p)
  {
  }

  lemma {:induction false} HealedRun(host: Host, o: Options, events: seq<Event>, p: Progress)
    requires Run(Stepping(host, o), events, p).Running?
    ensures Run(Stepping(Healed(host), o), events, p) == Run(Stepping(host, o), events, p)
  {
    hide Step;
    if events != [] {
      HealedStep(host, o, events[0], p);
      HealedRun(host, o, events[1..], Step(host, o, events[0], p).progress);
    }
  }

  /** What is there of an entry: less than, or as much as, a success would place. */
  predicate PartOf(x: Placed, y: Placed) {
    x.path == y.path && !x.Copied? && (x.Made? <==> y.Made?) && (x.Partial? ==> y.Copied? && x.content <= y.content)
  }

  ghost predicate LeavesPartOf(q: Progress, healed: Progress, p: Progress) {
    exists x, y :: PartOf(x, y) && q.placed == p.placed + [x] && healed.placed == p.placed + [y]
  }

  /** A stopping step counts no file, and leaves nothing, or a part of what it
      would have placed. */
  lemma StoppingFile(host: Host, o: Options, rel: Text, file: Node, p: Progress)
    requires file.File? && StepFile(host, o, rel, file, p).Stopped?
    ensures var q, h := StepFile(host, o, rel, file, p).progress, StepFile(Healed(host), o, rel, file, p);
            && q.counts.files == p.counts.files && q.counts.bytes == p.counts.bytes
            && q.scanned == p.scanned && q.counts.excluded == p.counts.excluded
            && (q.placed == p.placed || (h.Running? && LeavesPartOf(q, h.progress, p)))
  {
    var q, h := StepFile(host, o, rel, file, p).progress, StepFile(Healed(host), o, rel, file, p);
    if q.placed != p.placed {
      var x, y := q.placed[|p.placed|], Copied(rel, file.content);
      assert PartOf(x, y) && q.placed == p.placed + [x] && h.progress.placed == p.placed + [y];
    }
  }

  lemma StoppingDir(host: Host, rel: Text, p: Progress)
    requires StepDir(host, rel, p).Stopped?
    ensures var q, h := StepDir(host, rel, p).progress, StepDir(Healed(host), rel, p);
            && q.counts.files == p.counts.files && q.counts.bytes == p.counts.bytes
            && q.scanned == p.scanned && q.counts.excluded == p.counts.excluded
            && (q.placed == p.placed || (h.Running? && LeavesPartOf(q, h.progress, p)))
  {
    var q, h := StepDir(host, rel, p).progress, StepDir(Healed(host), rel, p);
    if q.placed != p.placed {
      assert PartOf(Made(rel), Made(rel)) && q.placed == p.placed + [Made(rel)] == h.progress.placed;
    }
  }

  lemma Stopping(host: Host, o: Options, e: Event, p: Progress)
    requires Step(host, o, e, p).Stopped?
    ensures var q, h := Step(host, o, e, p).progress, Step(Healed(host), o, e, p);
            && q.counts.files == p.counts.files && q.counts.bytes == p.counts.bytes
            && q.scanned <= p.scanned + 1 && q.counts.excluded <= p.counts.excluded + 1
            && (q.placed == p.placed || (h.Running? && LeavesPartOf(q, h.progress, p)))
  {
    hide StepFile, StepDir, LeavesPartOf, Healed;
    if e.Visit? {
      HealedIsSame(host);
      var s := p.(ticks := p.ticks + 1, scanned := p.scanned + 1);
      if e.node.File? && StepFile(host, o, e.rel, e.node, s).Stopped? {
        StoppingFile(host, o, e.rel, e.node, s);
        SamePlaced(StepFile(host, o, e.rel, e.node, s).progress, StepFile(Healed(host), o, e.rel, e.node, s).progress,
                   s, p);
      } else if e.node.Dir? && StepDir(host, e.rel, s).Stopped? {
        StoppingDir(host, e.rel, s);
        SamePlaced(StepDir(host, e.rel, s).progress, StepDir(Healed(host), e.rel, s).progress, s, p);
      }
    }
  }

  lemma HealedIsSame(host: Host)
    ensures Healed(host).deadlineArmed == host.deadlineArmed && Healed(host).pastDeadline == host.pastDeadline
    ensures Healed(host).lstatFails == host.lstatFails && Healed(host).lower == host.lower
  {
  }

  lemma SamePlaced(q: Progress, h: Progress, s: Progress, p: Progress)
    requires s.placed == p.placed
    ensures LeavesPartOf(q, h, s) == LeavesPartOf(q, h, p)
  {
  }

  lemma {:induction false} PlacedSnoc(placed: seq<Placed>, x: Placed)
    ensures PlacedPaths(placed + [x]) == PlacedPaths(placed) + [x.path]
    ensures CopiedFiles(placed + [x]) == CopiedFiles(placed) + if x.Copied? then 1 else 0
    ensures CopiedBytes(placed + [x]) == CopiedBytes(placed) + if x.Copied? then |x.content| else 0
    ensures FilesPlaced(placed + [x]) == FilesPlaced(placed) + if x.Made? then 0 else 1
    ensures BytesPlaced(placed + [x]) == BytesPlaced(placed) + if x.Made? then 0 else |x.content|
  {
    if placed == [] {
      assert placed + [x] == [x] && [x][1..] == [];
    } else {
      assert (placed + [x])[1..] == placed[1..] + [x];
      PlacedSnoc(placed[1..], x);
    }
  }

  /** A part in place of the whole is as safe. */
  lemma PartIsSafe(host: Host, o: Options, p: Progress, q: Progress, h: Progress)
    requires Safe(host, o, p) && Safe(Healed(host), o, h) && LeavesPartOf(q, h, p)
    requires q.counts.files == p.counts.files && q.counts.bytes == p.counts.bytes
    ensures Safe(host, o, q)
  {
    hide Permitted;
    var x, y :| PartOf(x, y) && q.placed == p.placed + [x] && h.placed == p.placed + [y];
    PlacedSnoc(p.placed, x);
    PlacedSnoc(p.placed, y);
  }

  /** Nothing is there in part, save perhaps the last effect. */
  predicate WholeButLast(placed: seq<Placed>) {
    forall i | 0 <= i < |placed| - 1 :: !placed[i].Partial?
  }

  lemma {:induction false} EffectsAreWhole(v: seq<Entry>)
    ensures forall x <- Effects(v) :: !x.Partial?
  {
    if v != [] {
      EffectsAreWhole(v[1..]);
    }
  }

  /** However a run ends, what it left behind is safe, also where the last step
      failed half way: at most that one entry is there in part, at a permitted
      path and within the ceilings. Only the entry that stopped the run may have
      been counted beyond a ceiling. */
  lemma EveryRunIsSafe(host: Host, o: Options, root: Forest)
    requires WellFormedForest(root)
    ensures var p := FullRun(host, o, root).progress;
            && Safe(host, o, p) && WholeButLast(p.placed)
            && (p.scanned <= 1 || p.scanned <= o.limits.maxFiles + o.limits.maxExcludedEntries + 1)
            && (p.counts.excluded <= 1 || p.counts.excluded <= o.limits.maxExcludedEntries + 1)
  {
    hide Safe, Step, LeavesPartOf;
    var events := Events(Excluding(o), root);
    assert events[..|events|] == events;
    if FullRun(host, o, root).Running? {
      EveryPointIsSafe(host, o, root, |events|);
      PointIsWhole(host, o, events);
    } else {
      var k := StopsSomewhere(Stepping(host, o), events, START);
      EveryPointIsSafe(host, o, root, k);
      PointIsWhole(host, o, events[..k]);
      StopIsSafe(host, o, root, k);
    }
  }

  lemma PointIsWhole(host: Host, o: Options, events: seq<Event>)
    requires Run(Stepping(host, o), events, START).Running?
    ensures forall x <- Run(Stepping(host, o), events, START).progress.placed :: !x.Partial?
  {
    RunAccounts(host, o, events, START);
    EmptyPrefix(Effects(Visited(events)));
    EffectsAreWhole(Visited(events));
  }

  /** The step that stops a run leaves it safe. */
  lemma StopIsSafe(host: Host, o: Options, root: Forest, k: nat)
    requires WellFormedForest(root)
    requires k < |Events(Excluding(o), root)|
    requires Run(Stepping(host, o), Events(Excluding(o), root)[..k], START).Running?
    requires Step(host, o, Events(Excluding(o), root)[k],
                  Run(Stepping(host, o), Events(Excluding(o), root)[..k], START).progress).Stopped?
    ensures var p := Run(Stepping(host, o), Events(Excluding(o), root)[..k], START).progress;
            var q := Step(host, o, Events(Excluding(o), root)[k], p).progress;
            && Safe(host, o, q) && |q.placed| <= |p.placed| + 1 && p.placed <= q.placed
            && q.scanned <= p.scanned + 1 && q.counts.excluded <= p.counts.excluded + 1
  {
    hide Step, Permitted, Healed;
    var events := Events(Excluding(o), root);
    var e, p := events[k], Run(Stepping(host, o), events[..k], START).progress;
    EveryPointIsSafe(host, o, root, k);
    Stopping(host, o, e, p);
    var q, h := Step(host, o, e, p).progress, Step(Healed(host), o, e, p);
    if q.placed != p.placed {
      HealedRun(host, o, events[..k], START);
      assert events[..k + 1] == events[..k] + [e];
      RunAppend(Stepping(Healed(host), o), events[..k], [e], START);
      OneEvent(Stepping(Healed(host), o), e, p);
      EveryPointIsSafe(Healed(host), o, root, k + 1);
      PartIsSafe(host, o, p, q, h.progress);
    }
  }

  // ---- Protected roots ----

  /** The exclusion set is the one built for these roots and this source. */
  ghost predicate BuiltFor(ex: ExclusionSet, roots: ProtectedRootsConfig, sourceRoot: Text) {
    && ex.rules == MANDATORY_EXCLUSION_RULES
    && forall rel :: rel in ex.protectedPaths <==>
         Contributed(roots.delegatedWriteDeniedOwnerApprovable + roots.absoluteDenial, sourceRoot, rel)
  }

  predicate StrictlyInside(sourceRoot: Text, root: Text) {
    IsWithin(sourceRoot, root) && root != sourceRoot
  }

  lemma RelativesNest(sourceRoot: Text, a: Text, b: Text)
    requires StrictlyInside(sourceRoot, a) && StrictlyInside(sourceRoot, b)
    ensures AtOrBelow(RelativeTo(sourceRoot, a), RelativeTo(sourceRoot, b)) <==> IsWithin(a, b)
  {
    AtSource(sourceRoot, a);
    AtSource(sourceRoot, b);
    WithinByText(a, b);
    PrefixesShift(if sourceRoot == ROOT then ROOT else sourceRoot + ROOT,
                  RelativeTo(sourceRoot, a), RelativeTo(sourceRoot, b));
  }

  lemma PrefixesShift(base: Text, ra: Text, rb: Text)
    requires base != [] && ra != []
    ensures base + ra != ROOT
    ensures AtOrBelow(ra, rb) <==> base + ra == base + rb || StartsWith(base + rb, base + ra + ROOT)
  {
    var a, b := base + ra, base + rb;
    assert |a| >= 2;
    assert a + ROOT == base + (ra + ROOT);
    assert a[|base|..] == ra && b[|base|..] == rb;
    if StartsWith(b, a + ROOT) {
      assert rb[..|ra| + 1] == b[|base|..|base| + |ra| + 1] == ra + ROOT;
    }
    if StartsWith(rb, ra + ROOT) {
      assert b[..|base| + |ra| + 1] == base + rb[..|ra| + 1];
    }
  }

  lemma AtSource(sourceRoot: Text, a: Text)
    requires StrictlyInside(sourceRoot, a)
    ensures a == (if sourceRoot == ROOT then ROOT else sourceRoot + ROOT) + RelativeTo(sourceRoot, a)
    ensures RelativeTo(sourceRoot, a) != []
  {
    RelativeIsJoined(sourceRoot, a);
    CanonicalFormIff(sourceRoot);
    CanonicalFormIff(a);
    var ss, sa := Segments(sourceRoot), Segments(a);
    var rest := sa[|ss|..];
    assert sa == ss + rest && sa != ss;
    if ss == [] {
      assert sa == rest;
    } else {
      RenderAppend(ss, rest);
      JoinIsNonempty(ss);
    }
  }

  /** A protected root inside the source is covered by the protected paths
      exactly when some configured root around it, strictly inside the source,
      has no two consecutive dots in its relative path. */
  lemma ProtectedRootCoveredIff(ex: ExclusionSet, roots: ProtectedRootsConfig, sourceRoot: Text, root: Text)
    requires BuiltFor(ex, roots, sourceRoot) && StrictlyInside(sourceRoot, root)
    ensures (exists p <- ex.protectedPaths :: AtOrBelow(p, RelativeTo(sourceRoot, root))) <==>
            (exists r <- roots.delegatedWriteDeniedOwnerApprovable + roots.absoluteDenial ::
               StrictlyInside(sourceRoot, r) && !Includes(RelativeTo(sourceRoot, r), PARENT) && IsWithin(r, root))
  {
    var all := roots.delegatedWriteDeniedOwnerApprovable + roots.absoluteDenial;
    if p :| p in ex.protectedPaths && AtOrBelow(p, RelativeTo(sourceRoot, root)) {
      var r :| r in all && ProtectedPathRelative(sourceRoot, r) == Some(p);
      ProtectedPathIff(sourceRoot, r);
      RelativesNest(sourceRoot, r, root);
    }
    if r :| r in all && StrictlyInside(sourceRoot, r) && !Includes(RelativeTo(sourceRoot, r), PARENT) &&
            IsWithin(r, root) {
      ProtectedPathIff(sourceRoot, r);
      RelativesNest(sourceRoot, r, root);
      assert Contributed(all, sourceRoot, RelativeTo(sourceRoot, r));
      assert RelativeTo(sourceRoot, r) in ex.protectedPaths;
    }
  }

  /** Nothing at or below a configured protected root is ever created, on any
      run, provided its relative path has no two consecutive dots. */
  lemma ProtectedRootsStayOut(host: Host, o: Options, root: Forest,
                              roots: ProtectedRootsConfig, sourceRoot: Text, protectedRoot: Text, path: Text)
    requires WellFormedForest(root)
    requires BuiltFor(o.exclusions, roots, sourceRoot)
    requires protectedRoot in roots.delegatedWriteDeniedOwnerApprovable + roots.absoluteDenial
    requires StrictlyInside(sourceRoot, protectedRoot) && !Includes(RelativeTo(sourceRoot, protectedRoot), PARENT)
    requires path in PlacedPaths(FullRun(host, o, root).progress.placed)
    ensures !AtOrBelow(RelativeTo(sourceRoot, protectedRoot), path)
  {
    EveryRunIsSafe(host, o, root);
    ProtectedPathIff(sourceRoot, protectedRoot);
    var all := roots.delegatedWriteDeniedOwnerApprovable + roots.absoluteDenial;
    assert Contributed(all, sourceRoot, RelativeTo(sourceRoot, protectedRoot));
  }

  /** Nor is anything with a segment that the static rules bar: no key, no
      credential, no environment, no history. */
  lemma BarredNamesStayOut(host: Host, o: Options, root: Forest, path: Text, segment: Text)
    requires WellFormedForest(root) && o.exclusions.rules == MANDATORY_EXCLUSION_RULES
    requires path in PlacedPaths(FullRun(host, o, root).progress.placed)
    requires segment in Split(path, SLASH) && segment != []
    ensures BarredFor(segment).None?
  {
    hide BarredFor, Hits;
    EveryRunIsSafe(host, o, root);
    MandatoryRulesReport(segment);
    var rules := o.exclusions.rules;
    assert !o.exclusions.Excludes(path);
    assert forall r <- rules :: !Hits(r, segment);
    assert forall i :: 0 <= i < |rules| ==> rules[i] in rules;
  }

  lemma SampleRoots(s: Text, d: Text)
    requires CleanSegment(s) && CleanSegment(d) && Includes(d, PARENT)
    ensures StrictlyInside(Render([s]), Render([s, d])) && RelativeTo(Render([s]), Render([s, d])) == d
    ensures ProtectedPathRelative(Render([s]), Render([s, d])) == None
  {
    SegmentsOfRendered([s]);
    SegmentsOfRendered([s, d]);
    CanonicalizeRendered([s]);
    CanonicalizeRendered([s, d]);
    assert [s, d][1..] == [d];
    assert [s] == [s, d][..1];
    ProtectedPathIff(Render([s]), Render([s, d]));
  }

  lemma SampleTexts()
    ensures U("/s") == Render([U("s")]) && U("/s/a..c") == Render([U("s"), U("a..c")])
    ensures CleanSegment(U("s")) && CleanSegment(U("a..c")) && Includes(U("a..c"), PARENT)
  {
    var s, d: Text := [115], [97, DOT, DOT, 99];
    assert U("s") == s && U("a..c") == d;
    assert [s, d][1..] == [d];
    assert Join([d], SLASH) == d && Join([s, d], SLASH) == s + [SLASH] + d;
    assert U("/s") == [SLASH] + s && U("/s/a..c") == [SLASH] + (s + [SLASH] + d);
    assert StartsWith(d[1..], PARENT);
  }

  /** A configured protected root `/s/a..c` directly below the source `/s`
      contributes nothing: only a shape rule could still exclude it. */
  lemma DottedProtectedRootIsDropped(ex: ExclusionSet)
    requires BuiltFor(ex, ProtectedRootsConfig([], [U("/s/a..c")]), U("/s"))
    ensures StrictlyInside(U("/s"), U("/s/a..c")) && RelativeTo(U("/s"), U("/s/a..c")) == U("a..c")
    ensures ex.protectedPaths == []
    ensures ex.Excludes(U("a..c")) <==> exists r <- ex.rules :: Hits(r, U("a..c"))
  {
    SampleTexts();
    SampleRoots(U("s"), U("a..c"));
    forall rel
      ensures rel !in ex.protectedPaths
    {
      ContributedStep([], U("/s/a..c"), U("/s"), rel);
    }
    NonemptyHasMember(ex.protectedPaths);
    OnlyRulesRemain(ex, U("a..c"));
  }

  lemma NonemptyHasMember(s: seq<Text>)
    ensures s != [] ==> exists x :: x in s
  {
    if s != [] {
      assert s[0] in s;
    }
  }

  lemma OnlyRulesRemain(ex: ExclusionSet, name: Text)
    requires ex.protectedPaths == [] && name != [] && SLASH !in name
    ensures ex.Excludes(name) <==> exists r <- ex.rules :: Hits(r, name)
  {
    SplitClean(name, SLASH);
    assert name in Split(name, SLASH);
  }
}
