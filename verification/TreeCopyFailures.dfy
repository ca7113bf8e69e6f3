/** Why a copy fails: the failure it reports is a true one. */
module TreeCopyFailures {
  import opened JsText
  import opened Paths
  import opened Exclusions
  import opened Wrappers
  import opened TreeCopy
  import opened TreeCopyLaws
  import opened TreeCopySafety
  import opened TreeCopyEntries

  /** The copy is to have a file or a directory there. */
  ghost predicate WantedNode(o: Options, root: Forest, path: Text, node: Node) {
    Wanted(o, root, path, node) && (node.File? || node.Dir?)
  }

  /** What a failure says of the tree, the limits and the host, whatever the run
      had come to. */
  ghost predicate Applies(host: Host, o: Options, root: Forest, f: Failure) {
    var kept := Kept(Excluding(o), root);
    match f
    case DeadlineAtEntry => host.deadlineArmed && host.pastDeadline(0)
    case DeadlineExceeded(path) =>
      host.deadlineArmed && ((exists k: nat :: k > 0 && host.pastDeadline(k)) || host.copy(path).Aborted?)
    case ReaddirFailed(path) => host.readdirFails(path)
    case ExcludedEntriesExceeded(path) =>
      o.exclusions.Excludes(path) && Frontier(Excluding(o), [], root) > o.limits.maxExcludedEntries
    case DepthExceeded(path) => !o.exclusions.Excludes(path) && |Split(path, SLASH)| > o.limits.maxDepth
    case PathLengthExceeded(path) => !o.exclusions.Excludes(path) && |path| > o.limits.maxPathLength
    case ScanExceeded(path) => |kept| > o.limits.maxFiles + o.limits.maxExcludedEntries
    case UnsafeRelativePath(path) => path != [] && (U("..") in Split(path, SLASH) || path[0] == '\\' as int)
    case LstatFailed(path) => host.lstatFails(path)
    case SymlinkForbidden(path) => o.failOnSymlink && Wanted(o, root, path, Symlink)
    case CaseCollision(prior, path) =>
      && prior != path && host.lower(prior) == host.lower(path)
      && exists a, b :: WantedNode(o, root, prior, a) && WantedNode(o, root, path, b)
    case MkdirFailed(path) => !host.mkdir(path).Done? && exists node :: Wanted(o, root, path, node) && node.Dir?
    case SpecialFileForbidden(path) => Wanted(o, root, path, Special)
    case PrivilegedFileForbidden(path) => exists node :: Wanted(o, root, path, node) && node.File? && node.privileged
    case SingleFileBytesExceeded(path) =>
      exists node :: Wanted(o, root, path, node) && node.File? && |node.content| > o.limits.maxSingleFileBytes
    case FilesExceeded(path) => Sum(IsFile, kept) > o.limits.maxFiles
    case BytesExceeded(path) => Sum(Size, kept) > o.limits.maxBytes
    case FileCopyFailed(path) => !host.copy(path).Written? && exists node :: Wanted(o, root, path, node) && node.File?
  }

  /** What makes one event stop the run at a point of it. */
  predicate Causes(host: Host, o: Options, e: Event, p: Progress, f: Failure) {
    match f
    case DeadlineAtEntry => e.Begin? && Expired(host, p)
    case DeadlineExceeded(path) =>
      !e.Begin? && (Expired(host, p) || (host.deadlineArmed && host.copy(path).Aborted?))
    case ReaddirFailed(path) => host.readdirFails(path)
    case ExcludedEntriesExceeded(path) =>
      e == Scan(path) && o.exclusions.Excludes(path) && p.counts.excluded + 1 > o.limits.maxExcludedEntries
    case DepthExceeded(path) => !o.exclusions.Excludes(path) && Depth(path) > o.limits.maxDepth
    case PathLengthExceeded(path) => !o.exclusions.Excludes(path) && |path| > o.limits.maxPathLength
    case ScanExceeded(path) => e.Visit? && p.scanned + 1 > o.limits.maxFiles + o.limits.maxExcludedEntries
    case UnsafeRelativePath(path) => e.Visit? && path == e.rel && !SafeRelPath(path)
    case LstatFailed(path) => host.lstatFails(path)
    case SymlinkForbidden(path) => o.failOnSymlink && e == Visit(path, Symlink)
    case CaseCollision(prior, path) =>
      && e.Visit? && path == e.rel && (e.node.File? || e.node.Dir?)
      && host.lower(path) in p.seenLower && p.seenLower[host.lower(path)] == prior && prior != path
    case MkdirFailed(path) => e.Visit? && path == e.rel && e.node.Dir? && !host.mkdir(path).Done?
    case SpecialFileForbidden(path) => e == Visit(path, Special)
    case PrivilegedFileForbidden(path) => e.Visit? && path == e.rel && e.node.File? && e.node.privileged
    case SingleFileBytesExceeded(path) =>
      e.Visit? && path == e.rel && e.node.File? && |e.node.content| > o.limits.maxSingleFileBytes
    case FilesExceeded(path) => e.Visit? && e.node.File? && p.counts.files + 1 > o.limits.maxFiles
    case BytesExceeded(path) => e.Visit? && e.node.File? && p.counts.bytes + |e.node.content| > o.limits.maxBytes
    case FileCopyFailed(path) => e.Visit? && path == e.rel && e.node.File? && !host.copy(path).Written?
  }

  lemma StepHasCause(host: Host, o: Options, e: Event, p: Progress)
    requires Step(host, o, e, p).Stopped?
    ensures Causes(host, o, e, p, Step(host, o, e, p).failure)
  {
    hide SafeRelPath, Depth, Stored;
  }

  /** What a run has registered are names of what it went through. */
  lemma {:induction false} SeenWereVisited(host: Host, o: Options, events: seq<Event>, p: Progress, l: Text)
    requires Run(Stepping(host, o), events, p).Running?
    requires l in Run(Stepping(host, o), events, p).progress.seenLower
    ensures var name := Run(Stepping(host, o), events, p).progress.seenLower[l];
            || (l in p.seenLower && p.seenLower[l] == name)
            || (host.lower(name) == l &&
                exists e <- events :: e.Visit? && e.rel == name && (e.node.File? || e.node.Dir?))
  {
    hide Step;
    if events != [] {
      var q := Step(host, o, events[0], p).progress;
      StepRegisters(host, o, events[0], p);
      SeenWereVisited(host, o, events[1..], q, l);
      assert events == [events[0]] + events[1..];
    }
  }

  /** What is visited is wanted. */
  lemma VisitIsWanted(o: Options, root: Forest, e: Event)
    requires WellFormedForest(root) && e in Events(Excluding(o), root) && e.Visit?
    ensures Wanted(o, root, e.rel, e.node)
  {
    hide Events, Wanted;
    var events := Events(Excluding(o), root);
    VisitIsEntry(events, e);
    PruningIsFiltering(o, root);
    KeptIff(o, root);
    assert Entry(e.rel, e.node) in Kept(Excluding(o), root);
  }

  lemma {:induction false} VisitIsEntry(events: seq<Event>, e: Event)
    requires e in events && e.Visit?
    ensures Entry(e.rel, e.node) in Visited(events)
  {
    if e != events[0] {
      assert events == [events[0]] + events[1..];
      VisitIsEntry(events[1..], e);
    }
  }

  /** The totals up to and with one event are no larger than those of the whole. */
  lemma TotalsSoFar(o: Options, root: Forest, k: nat)
    requires WellFormedForest(root) && k < |Events(Excluding(o), root)|
    ensures var events, kept := Events(Excluding(o), root), Kept(Excluding(o), root);
            var e, v := events[k], Visited(events[..k]);
            && Total(Exclusion(Excluding(o)), events[..k]) + Exclusion(Excluding(o))(e)
               <= Frontier(Excluding(o), [], root)
            && (e.Visit? ==>
                  && Sum(One, v) + 1 <= |kept|
                  && Sum(IsFile, v) + IsFile(Entry(e.rel, e.node)) <= Sum(IsFile, kept)
                  && Sum(Size, v) + Size(Entry(e.rel, e.node)) <= Sum(Size, kept))
  {
    hide Events;
    var ex := Excluding(o);
    var events := Events(ex, root);
    var e := events[k];
    assert events == events[..k] + ([e] + events[k + 1..]);
    TotalAppend(Exclusion(ex), events[..k], [e] + events[k + 1..]);
    TotalAppend(Exclusion(ex), [e], events[k + 1..]);
    TotalOfOne(Exclusion(ex), e);
    FullTotals(ex, root);
    PruningIsFiltering(o, root);
    SumOfOnes(Kept(ex, root));
    VisitedAppend(events[..k], [e] + events[k + 1..]);
    VisitedAppend([e], events[k + 1..]);
    VisitedOfOne(e);
    SumSplits(One, Visited(events[..k]), Visited([e]), Visited(events[k + 1..]));
    SumSplits(IsFile, Visited(events[..k]), Visited([e]), Visited(events[k + 1..]));
    SumSplits(Size, Visited(events[..k]), Visited([e]), Visited(events[k + 1..]));
    if e.Visit? {
      SumOfOne(One, Entry(e.rel, e.node));
      SumOfOne(IsFile, Entry(e.rel, e.node));
      SumOfOne(Size, Entry(e.rel, e.node));
    }
  }

  lemma SumSplits(m: Entry -> nat, a: seq<Entry>, b: seq<Entry>, c: seq<Entry>)
    ensures Sum(m, a + (b + c)) == Sum(m, a) + Sum(m, b) + Sum(m, c)
  {
    SumAppend(m, a, b + c);
    SumAppend(m, b, c);
  }

  lemma {:induction false} NoBegin(ex: Text -> bool, rel: Text, f: Forest)
    ensures forall e <- Visits(ex, rel, f) :: !e.Begin?
    ensures forall e <- Scans(rel, f) :: !e.Begin?
    decreases f
  {
    if f.Cons? {
      NoBegin(ex, rel, f.rest);
      if f.node.Dir? {
        NoBegin(ex, Child(rel, f.name), f.node.children);
        assert forall e <- Listing(Child(rel, f.name), f.node.children) :: !e.Begin?;
        assert forall e <- Tour(ex, Child(rel, f.name), f.node.children) :: !e.Begin?;
      }
      assert forall e <- Subtree(ex, Child(rel, f.name), f.node) :: !e.Begin?;
    }
  }

  /** The clock is read once before everything else. */
  lemma ReadAtEntry(host: Host, o: Options, root: Forest, k: nat)
    requires k < |Events(Excluding(o), root)|
    requires Run(Stepping(host, o), Events(Excluding(o), root)[..k], START).Running?
    ensures var ticks := Run(Stepping(host, o), Events(Excluding(o), root)[..k], START).progress.ticks;
            if Events(Excluding(o), root)[k].Begin? then k == 0 == ticks else ticks > 0
  {
    hide Tour, Step;
    var ex := Excluding(o);
    var events := Events(ex, root);
    RunAccounts(host, o, events[..k], START);
    if k > 0 {
      var e := events[k];
      assert e == Tour(ex, [], root)[k - 1];
      TourHasNoBegin(ex, root, e);
      assert events[..k] == [Begin] + events[1..k];
      TotalAppend(Reads, [Begin], events[1..k]);
      TotalOfOne(Reads, Begin);
    }
  }

  lemma TourHasNoBegin(ex: Text -> bool, root: Forest, e: Event)
    requires e in Tour(ex, [], root)
    ensures !e.Begin?
  {
    NoBegin(ex, [], root);
  }

  /** What is known at a point of a run, before its next event. */
  ghost predicate SoFar(host: Host, o: Options, root: Forest, e: Event, p: Progress) {
    var kept := Kept(Excluding(o), root);
    && (if e.Begin? then p.ticks == 0 else p.ticks > 0)
    && p.counts.excluded + Exclusion(Excluding(o))(e) <= Frontier(Excluding(o), [], root)
    && (e.Visit? ==>
          && Wanted(o, root, e.rel, e.node)
          && p.scanned + 1 <= |kept|
          && p.counts.files + IsFile(Entry(e.rel, e.node)) <= Sum(IsFile, kept)
          && p.counts.bytes + Size(Entry(e.rel, e.node)) <= Sum(Size, kept))
  }

  lemma PointSoFar(host: Host, o: Options, root: Forest, k: nat)
    requires WellFormedForest(root) && k < |Events(Excluding(o), root)|
    requires Run(Stepping(host, o), Events(Excluding(o), root)[..k], START).Running?
    ensures SoFar(host, o, root, Events(Excluding(o), root)[k],
                  Run(Stepping(host, o), Events(Excluding(o), root)[..k], START).progress)
  {
    hide Events, Frontier, Kept, Run, Effected, Wanted, IsFile, Size;
    var events := Events(Excluding(o), root);
    RunAccounts(host, o, events[..k], START);
    ReadAtEntry(host, o, root, k);
    TotalsSoFar(o, root, k);
    if events[k].Visit? {
      VisitIsWanted(o, root, events[k]);
    }
  }

  /** A cause in a run is one of the tree, the limits and the host. */
  lemma CauseApplies(host: Host, o: Options, root: Forest, e: Event, p: Progress, f: Failure)
    requires WellFormedForest(root) && SoFar(host, o, root, e, p)
    requires Causes(host, o, e, p, f) && !f.CaseCollision?
    ensures Applies(host, o, root, f)
  {
    hide Frontier, Kept, Wanted, SafeRelPath;
    if f.UnsafeRelativePath? {
      UnsafeHasCause(o, root, e);
    }
  }

  lemma UnsafeHasCause(o: Options, root: Forest, e: Event)
    requires WellFormedForest(root) && e.Visit? && Wanted(o, root, e.rel, e.node) && !SafeRelPath(e.rel)
    ensures e.rel != [] && (U("..") in Split(e.rel, SLASH) || e.rel[0] == '\\' as int)
  {
    FirstIsNotSlash(root, e.rel);
    assert PARENT == U("..");
    assert StartsWith(e.rel, [BACKSLASH]) ==> e.rel[0] == BACKSLASH;
  }

  lemma CollisionApplies(host: Host, o: Options, root: Forest, k: nat, prior: Text, path: Text)
    requires WellFormedForest(root) && k < |Events(Excluding(o), root)|
    requires Run(Stepping(host, o), Events(Excluding(o), root)[..k], START).Running?
    requires var e, p := Events(Excluding(o), root)[k],
                         Run(Stepping(host, o), Events(Excluding(o), root)[..k], START).progress;
             Causes(host, o, e, p, CaseCollision(prior, path))
    ensures Applies(host, o, root, CaseCollision(prior, path))
  {
    hide Events, Run, Kept, Frontier, Wanted;
    var events := Events(Excluding(o), root);
    var e := events[k];
    SeenWereVisited(host, o, events[..k], START, host.lower(e.rel));
    var d :| d in events[..k] && d.Visit? && d.rel == prior && (d.node.File? || d.node.Dir?);
    VisitIsWanted(o, root, d);
    VisitIsWanted(o, root, e);
    assert WantedNode(o, root, prior, d.node) && WantedNode(o, root, e.rel, e.node);
  }

  /** A failure is reported only for a cause. */
  lemma FailureIsTrue(host: Host, o: Options, root: Forest)
    requires WellFormedForest(root) && FullRun(host, o, root).Stopped?
    ensures Applies(host, o, root, FullRun(host, o, root).failure)
  {
    hide Applies, Causes, Step, SoFar;
    var events := Events(Excluding(o), root);
    var f := FullRun(host, o, root).failure;
    var k := StopsSomewhere(Stepping(host, o), events, START);
    var p := Run(Stepping(host, o), events[..k], START).progress;
    StepHasCause(host, o, events[k], p);
    if f.CaseCollision? {
      CollisionApplies(host, o, root, k, f.prior, f.path);
    } else {
      PointSoFar(host, o, root, k);
      CauseApplies(host, o, root, events[k], p, f);
    }
  }

  ghost function OneIf(b: bool): nat {
    if b then 1 else 0
  }

  /** A refused object shows in the counters of the failure: special files,
      privileged files and collisions are counted one by one, and never survived. */
  lemma FailureIsCounted(host: Host, o: Options, root: Forest)
    ensures var out := FullRun(host, o, root);
            && out.progress.counts.specialFiles == OneIf(out.Stopped? && out.failure.SpecialFileForbidden?)
            && out.progress.counts.privilegedFiles == OneIf(out.Stopped? && out.failure.PrivilegedFileForbidden?)
            && out.progress.counts.caseCollisions == OneIf(out.Stopped? && out.failure.CaseCollision?)
  {
    hide Step;
    var events := Events(Excluding(o), root);
    if FullRun(host, o, root).Stopped? {
      var k := StopsSomewhere(Stepping(host, o), events, START);
      var p := Run(Stepping(host, o), events[..k], START).progress;
      RunAccounts(host, o, events[..k], START);
      StepCountsRefusal(host, o, events[k], p);
    } else {
      RunAccounts(host, o, events, START);
    }
  }

  ghost predicate CountsRefusal(out: Outcome, p: Progress) {
    out.Stopped? ==>
      var q, f := out.progress, out.failure;
      && q.counts.specialFiles == p.counts.specialFiles + OneIf(f.SpecialFileForbidden?)
      && q.counts.privilegedFiles == p.counts.privilegedFiles + OneIf(f.PrivilegedFileForbidden?)
      && q.counts.caseCollisions == p.counts.caseCollisions + OneIf(f.CaseCollision?)
  }

  lemma FileCountsRefusal(host: Host, o: Options, rel: Text, file: Node, p: Progress)
    requires file.File?
    ensures CountsRefusal(StepFile(host, o, rel, file, p), p)
  {
    hide Stored;
  }

  lemma DirCountsRefusal(host: Host, rel: Text, p: Progress)
    ensures CountsRefusal(StepDir(host, rel, p), p)
  {
  }

  lemma StepCountsRefusal(host: Host, o: Options, e: Event, p: Progress)
    ensures CountsRefusal(Step(host, o, e, p), p)
  {
    hide SafeRelPath, Depth, StepFile, StepDir;
    if e.Visit? {
      var s := p.(ticks := p.ticks + 1, scanned := p.scanned + 1);
      DirCountsRefusal(host, e.rel, s);
      if e.node.File? {
        FileCountsRefusal(host, o, e.rel, e.node, s);
      }
    }
  }

  /** A copy of a file that fails leaves what the host says of it: nothing, or
      that many of its first bytes, or all of them if it has no more. */
  lemma FailedCopyLeaves(host: Host, o: Options, rel: Text, file: Node, p: Progress)
    requires file.File? && StepFile(host, o, rel, file, p).Stopped?
    requires StepFile(host, o, rel, file, p).failure in {FileCopyFailed(rel), DeadlineExceeded(rel)}
    ensures var placed, left := StepFile(host, o, rel, file, p).progress.placed, host.copy(rel).left;
            match left
            case None => placed == p.placed
            case Some(n) =>
              exists c :: placed == p.placed + [Partial(rel, c)] && c <= file.content
                          && (|c| == n || (|c| < n && c == file.content))
  {
    var placed, left := StepFile(host, o, rel, file, p).progress.placed, host.copy(rel).left;
    if left.Some? {
      var c := placed[|placed| - 1].content;
      assert placed == p.placed + [Partial(rel, c)];
    }
  }
}
