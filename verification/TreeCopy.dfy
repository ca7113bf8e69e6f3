/** The sanitized tree copy: an explicit-stack depth-first walk of a static
    source tree under exclusions, ceilings, a case-collision register, a symlink
    policy, a running digest and a cooperative deadline. */
module TreeCopy {
  import opened JsText
  import opened Paths
  import opened Exclusions
  import opened Wrappers

  datatype Node =
    | File(content: seq<Byte>, privileged: bool, links: nat)
    | Symlink
    | Special
    | Dir(children: Forest)

  /** The entries of one directory: a finite map from names to nodes, kept in
      ascending name order. Listing a directory may still return any order. */
  datatype Forest = Nil | Cons(name: Text, node: Node, rest: Forest)

  function Names(f: Forest): seq<Text> {
    match f case Nil => [] case Cons(name, _, rest) => [name] + Names(rest)
  }

  ghost predicate WellFormed(node: Node) {
    node.Dir? ==> WellFormedForest(node.children)
  }

  /** Names are nonempty, free of separators, distinct and ascending, at every depth. */
  ghost predicate WellFormedForest(f: Forest) {
    match f
    case Nil => true
    case Cons(name, node, rest) =>
      && name != [] && SLASH !in name
      && (forall n <- Names(rest) :: Before(name, n))
      && WellFormed(node) && WellFormedForest(rest)
  }

  datatype Limits = Limits(
    maxFiles: int, maxBytes: int, maxSingleFileBytes: int,
    maxPathLength: int, maxDepth: int, maxExcludedEntries: int)

  datatype Options = Options(exclusions: ExclusionSet, limits: Limits, failOnSymlink: bool, digests: bool)

  /** A copy that fails has left nothing, or a file with so many bytes; setting
      the mode may fail after all of them. */
  datatype CopyOutcome = Written | Aborted(left: Option<nat>) | Broken(left: Option<nat>)

  /** A directory may be made and its mode still be refused. */
  datatype MkdirOutcome = Done | Refused | ModeRefused

  /** What the walk cannot control: clock readings by ordinal, failing system
      calls by path, letter case, and the hash. */
  datatype Host = Host(
    deadlineArmed: bool, pastDeadline: nat -> bool,
    readdirFails: Text -> bool, lstatFails: Text -> bool,
    mkdir: Text -> MkdirOutcome, copy: Text -> CopyOutcome,
    lower: Text -> Text, contentHash: seq<Byte> -> Text, textHash: Text -> Text)

  datatype Counts = Counts(
    files: nat, directories: nat, excluded: nat, bytes: nat, skippedSymlinks: nat,
    hardLinkedFiles: nat, specialFiles: nat, privilegedFiles: nat, caseCollisions: nat)

  datatype Failure =
    | DeadlineAtEntry
    | DeadlineExceeded(path: Text)
    | ReaddirFailed(path: Text)
    | ExcludedEntriesExceeded(path: Text)
    | DepthExceeded(path: Text)
    | PathLengthExceeded(path: Text)
    | ScanExceeded(path: Text)
    | UnsafeRelativePath(path: Text)
    | LstatFailed(path: Text)
    | SymlinkForbidden(path: Text)
    | CaseCollision(prior: Text, path: Text)
    | MkdirFailed(path: Text)
    | SpecialFileForbidden(path: Text)
    | PrivilegedFileForbidden(path: Text)
    | SingleFileBytesExceeded(path: Text)
    | FilesExceeded(path: Text)
    | BytesExceeded(path: Text)
    | FileCopyFailed(path: Text)

  /** One effect on the destination; a file that is only partly there is what a
      failed copy may leave. */
  datatype Placed =
    | Made(path: Text)
    | Copied(path: Text, content: seq<Byte>)
    | Partial(path: Text, content: seq<Byte>)

  datatype Result =
    | Completed(counts: Counts, digest: Option<Text>, fileDigests: Option<map<Text, Text>>)
    | Failed(failure: Failure, counts: Counts)

  /** Everything one run accumulates. */
  datatype Progress = Progress(
    counts: Counts, scanned: nat, ticks: nat, seenLower: map<Text, Text>,
    fileDigests: map<Text, Text>, aggregate: Text, placed: seq<Placed>)

  const START := Progress(Counts(0, 0, 0, 0, 0, 0, 0, 0, 0), 0, 0, map[], map[], [], [])

  datatype Outcome = Running(progress: Progress) | Stopped(failure: Failure, progress: Progress)

  function Child(rel: Text, name: Text): Text {
    if rel == [] then name else rel + ROOT + name
  }

  function Depth(rel: Text): nat {
    |Split(rel, SLASH)|
  }

  predicate SafeRelPath(rel: Text) {
    rel != [] && !StartsWith(rel, ROOT) && !StartsWith(rel, [BACKSLASH]) && PARENT !in Split(rel, SLASH)
  }

  function DigestLine(rel: Text, hash: Text): Text {
    rel + [NUL] + hash + [NEWLINE]
  }

  /** The exclusion test as a value. */
  function Excluding(o: Options): Text -> bool {
    rel => o.exclusions.Excludes(rel)
  }

  // ---- The walk as a list of events, by recursion over the tree ----

  datatype Event =
    | Begin                          // the deadline check before anything else
    | Open(rel: Text)                // list a directory
    | Scan(rel: Text)                // consider one listed child
    | Visit(rel: Text, node: Node)   // process one child that was kept

  function Scans(rel: Text, f: Forest): seq<Event> {
    match f case Nil => [] case Cons(name, _, rest) => [Scan(Child(rel, name))] + Scans(rel, rest)
  }

  function Subtree(ex: Text -> bool, rel: Text, node: Node): seq<Event>
    decreases node
  {
    [Visit(rel, node)] + if node.Dir? then Tour(ex, rel, node.children) else []
  }

  function Visits(ex: Text -> bool, rel: Text, f: Forest): seq<Event>
    decreases f, 0
  {
    match f
    case Nil => []
    case Cons(name, node, rest) =>
      var c := Child(rel, name);
      (if ex(c) then [] else Subtree(ex, c, node)) + Visits(ex, rel, rest)
  }

  /** All children are considered, in sorted order, before the first is visited. */
  function Tour(ex: Text -> bool, rel: Text, f: Forest): seq<Event>
    decreases f, 1
  {
    Listing(rel, f) + Visits(ex, rel, f)
  }

  function Listing(rel: Text, f: Forest): seq<Event> {
    [Open(rel)] + Scans(rel, f)
  }

  function Events(ex: Text -> bool, root: Forest): seq<Event> {
    [Begin] + Tour(ex, [], root)
  }

  // ---- What one event does ----

  predicate Expired(host: Host, p: Progress) {
    host.deadlineArmed && host.pastDeadline(p.ticks)
  }

  function StepScan(host: Host, o: Options, rel: Text, p: Progress): Outcome {
    var q := p.(ticks := p.ticks + 1);
    if Expired(host, p) then Stopped(DeadlineExceeded(rel), q)
    else if o.exclusions.Excludes(rel) then
      var r := q.(counts := q.counts.(excluded := q.counts.excluded + 1));
      if r.counts.excluded > o.limits.maxExcludedEntries then Stopped(ExcludedEntriesExceeded(rel), r) else Running(r)
    else if Depth(rel) > o.limits.maxDepth then Stopped(DepthExceeded(rel), q)
    else if |rel| > o.limits.maxPathLength then Stopped(PathLengthExceeded(rel), q)
    else Running(q)
  }

  function Register(host: Host, rel: Text, p: Progress): Outcome {
    var l := host.lower(rel);
    if l in p.seenLower && p.seenLower[l] != rel then
      Stopped(CaseCollision(p.seenLower[l], rel),
              p.(counts := p.counts.(caseCollisions := p.counts.caseCollisions + 1)))
    else
      Running(p.(seenLower := p.seenLower[l := rel]))
  }

  function StepDir(host: Host, rel: Text, p: Progress): Outcome {
    var counted := p.(counts := p.counts.(directories := p.counts.directories + 1));
    var out := Register(host, rel, counted);
    if out.Stopped? then out
    else
      var made := out.progress.(placed := out.progress.placed + [Made(rel)]);
      match host.mkdir(rel)
      case Refused => Stopped(MkdirFailed(rel), out.progress)
      case ModeRefused => Stopped(MkdirFailed(rel), made)
      case Done => Running(made)
  }

  /** What a failed copy leaves of a file: nothing, or its first so many bytes. */
  function Remains(rel: Text, content: seq<Byte>, left: Option<nat>): seq<Placed> {
    match left
    case None => []
    case Some(n) => [Partial(rel, if n <= |content| then content[..n] else content)]
  }

  function StepFile(host: Host, o: Options, rel: Text, file: Node, p: Progress): Outcome
    requires file.File?
  {
    var size := |file.content|;
    if file.privileged then
      Stopped(PrivilegedFileForbidden(rel), p.(counts := p.counts.(privilegedFiles := p.counts.privilegedFiles + 1)))
    else if size > o.limits.maxSingleFileBytes then Stopped(SingleFileBytesExceeded(rel), p)
    else if p.counts.files + 1 > o.limits.maxFiles then Stopped(FilesExceeded(rel), p)
    else if p.counts.bytes + size > o.limits.maxBytes then Stopped(BytesExceeded(rel), p)
    else
      var out := Register(host, rel, p);
      if out.Stopped? then out
      else if host.copy(rel).Written? then Running(Stored(host, o, rel, file, out.progress))
      else
        var left := out.progress.(placed := out.progress.placed + Remains(rel, file.content, host.copy(rel).left));
        if host.copy(rel).Aborted? && host.deadlineArmed then Stopped(DeadlineExceeded(rel), left)
        else Stopped(FileCopyFailed(rel), left)
  }

  /** The record of digests is an ordinary object, where an assignment of a text
      to `__proto__` is ignored. */
  function Recorded(digests: map<Text, Text>, rel: Text, hash: Text): map<Text, Text> {
    if rel == PROTO then digests else digests[rel := hash]
  }

  /** The bookkeeping after one file is written. */
  function Stored(host: Host, o: Options, rel: Text, file: Node, p: Progress): Progress
    requires file.File?
  {
    var hash := host.contentHash(file.content);
    var counts := p.counts.(
      hardLinkedFiles := p.counts.hardLinkedFiles + (if file.links > 1 then 1 else 0),
      files := p.counts.files + 1,
      bytes := p.counts.bytes + |file.content|);
    p.(counts := counts,
       fileDigests := if o.digests then Recorded(p.fileDigests, rel, hash) else p.fileDigests,
       aggregate := if o.digests then p.aggregate + DigestLine(rel, hash) else p.aggregate,
       placed := p.placed + [Copied(rel, file.content)])
  }

  function StepVisit(host: Host, o: Options, rel: Text, node: Node, p: Progress): Outcome {
    var q := p.(ticks := p.ticks + 1);
    if Expired(host, p) then Stopped(DeadlineExceeded(rel), q)
    else
      var s := q.(scanned := q.scanned + 1);
      if s.scanned > o.limits.maxFiles + o.limits.maxExcludedEntries then Stopped(ScanExceeded(rel), s)
      else if !SafeRelPath(rel) then Stopped(UnsafeRelativePath(rel), s)
      else if host.lstatFails(rel) then Stopped(LstatFailed(rel), s)
      else match node
        case Symlink =>
          var t := s.(counts := s.counts.(skippedSymlinks := s.counts.skippedSymlinks + 1));
          if o.failOnSymlink then Stopped(SymlinkForbidden(rel), t) else Running(t)
        case Dir(_) => StepDir(host, rel, s)
        case Special =>
          Stopped(SpecialFileForbidden(rel), s.(counts := s.counts.(specialFiles := s.counts.specialFiles + 1)))
        case File(_, _, _) => StepFile(host, o, rel, node, s)
  }

  function Step(host: Host, o: Options, e: Event, p: Progress): Outcome {
    match e
    case Begin =>
      var q := p.(ticks := p.ticks + 1);
      if Expired(host, p) then Stopped(DeadlineAtEntry, q) else Running(q)
    case Open(rel) => if host.readdirFails(rel) then Stopped(ReaddirFailed(rel), p) else Running(p)
    case Scan(rel) => StepScan(host, o, rel, p)
    case Visit(rel, node) => StepVisit(host, o, rel, node, p)
  }

  /** The step as a value, so that facts about any fold stay free of its detail. */
  type Stepper = (Event, Progress) -> Outcome

  function Stepping(host: Host, o: Options): Stepper {
    (e, p) => Step(host, o, e, p)
  }

  /** The events in order, up to the first that stops the run. */
  function Run(step: Stepper, events: seq<Event>, p: Progress): Outcome
    decreases |events|, 0
  {
    if events == [] then Running(p)
    else Then(step, step(events[0], p), events[1..])
  }

  /** Goes on with more events unless already stopped. */
  function Then(step: Stepper, out: Outcome, events: seq<Event>): Outcome
    decreases |events|, 1
  {
    if out.Stopped? then out else Run(step, events, out.progress)
  }

  function ResultOf(host: Host, o: Options, out: Outcome): Result {
    match out
    case Stopped(f, p) => Failed(f, p.counts)
    case Running(p) =>
      Completed(p.counts,
         if o.digests then Some(host.textHash(p.aggregate)) else None,
         if o.digests then Some(p.fileDigests) else None)
  }

  lemma {:induction false} RunAppend(step: Stepper, a: seq<Event>, b: seq<Event>, p: Progress)
    ensures Run(step, a + b, p) == Then(step, Run(step, a, p), b)
  {
    if a == [] {
      assert a + b == b;
    } else {
      assert (a + b)[1..] == a[1..] + b;
      var out := step(a[0], p);
      if out.Running? {
        RunAppend(step, a[1..], b, out.progress);
      }
    }
  }

  // ---- The stack ----

  /** An entry waiting on the stack. The source also carries the native source
      and destination paths, which are the two roots followed by `rel`. */
  datatype Pending = Pending(rel: Text, node: Node)

  function Reverse<T>(s: seq<T>): seq<T> {
    if s == [] then [] else Reverse(s[1..]) + [s[0]]
  }

  /** The events still owed by a stack whose top is its last element. */
  function Owed(ex: Text -> bool, stack: seq<Pending>): seq<Event> {
    if stack == [] then []
    else
      var top := stack[|stack| - 1];
      Subtree(ex, top.rel, top.node) + Owed(ex, stack[..|stack| - 1])
  }

  function KeptChildren(ex: Text -> bool, rel: Text, f: Forest): seq<Pending> {
    match f
    case Nil => []
    case Cons(name, node, rest) =>
      var c := Child(rel, name);
      (if ex(c) then [] else [Pending(c, node)]) + KeptChildren(ex, rel, rest)
  }

  lemma {:induction false} OwedAfterPush(ex: Text -> bool, stack: seq<Pending>, rel: Text, f: Forest)
    ensures Owed(ex, stack + Reverse(KeptChildren(ex, rel, f))) == Visits(ex, rel, f) + Owed(ex, stack)
  {
    match f
    case Nil =>
      assert stack + [] == stack;
    case Cons(name, node, rest) =>
      OwedAfterPush(ex, stack, rel, rest);
      if !ex(Child(rel, name)) {
        var first, others := Pending(Child(rel, name), node), KeptChildren(ex, rel, rest);
        PushOne(ex, stack, first, others);
        Associative(Subtree(ex, first.rel, node), Visits(ex, rel, rest), Owed(ex, stack));
      } else {
        EmptyPrefix(KeptChildren(ex, rel, rest));
        EmptyPrefix(Visits(ex, rel, rest));
      }
  }

  lemma PushOne(ex: Text -> bool, stack: seq<Pending>, first: Pending, others: seq<Pending>)
    ensures Owed(ex, stack + Reverse([first] + others)) ==
            Subtree(ex, first.rel, first.node) + Owed(ex, stack + Reverse(others))
  {
    ReverseCons(first, others);
    var pushed := stack + Reverse(others);
    assert stack + Reverse([first] + others) == pushed + [first];
    assert (pushed + [first])[..|pushed|] == pushed;
  }

  lemma ReverseCons<T>(x: T, s: seq<T>)
    ensures Reverse([x] + s) == Reverse(s) + [x]
  {
    assert ([x] + s)[1..] == s;
  }

  // ---- The program ----

  class TreeCopier {
    const host: Host
    const options: Options
    var counts: Counts
    var scanned: nat
    var ticks: nat
    var seenLower: map<Text, Text>
    var fileDigests: map<Text, Text>
    var aggregate: Text
    var placed: seq<Placed>

    constructor (host: Host, options: Options)
      ensures this.host == host && this.options == options
      ensures State() == START
    {
      this.host, this.options := host, options;
      counts := Counts(0, 0, 0, 0, 0, 0, 0, 0, 0);
      scanned, ticks := 0, 0;
      seenLower, fileDigests := map[], map[];
      aggregate, placed := [], [];
    }

    ghost function State(): Progress
      reads this
    {
      Progress(counts, scanned, ticks, seenLower, fileDigests, aggregate, placed)
    }

    /** The run so far, from a recorded state to the present one. */
    ghost function Reached(failure: Option<Failure>): Outcome
      reads this
    {
      match failure
      case None => Running(State())
      case Some(f) => Stopped(f, State())
    }

    method ReadClock() returns (expired: bool)
      modifies this
      ensures State() == old(State()).(ticks := old(ticks) + 1)
      ensures expired == Expired(host, old(State()))
    {
      expired := host.deadlineArmed && host.pastDeadline(ticks);
      ticks := ticks + 1;
    }

    method RegisterName(rel: Text) returns (failure: Option<Failure>)
      modifies this
      ensures Reached(failure) == Register(host, rel, old(State()))
    {
      var l := host.lower(rel);
      if l in seenLower && seenLower[l] != rel {
        counts := counts.(caseCollisions := counts.caseCollisions + 1);
        return Some(CaseCollision(seenLower[l], rel));
      }
      seenLower := seenLower[l := rel];
      return None;
    }

    method ExcludeOrFail(rel: Text) returns (excluded: bool, failure: Option<Failure>)
      modifies this
      ensures excluded <==> options.exclusions.Excludes(rel)
      ensures State() == if excluded
                         then old(State()).(counts := old(counts).(excluded := old(counts).excluded + 1))
                         else old(State())
      ensures failure == if excluded && counts.excluded > options.limits.maxExcludedEntries
                         then Some(ExcludedEntriesExceeded(rel)) else None
    {
      var verdict := options.exclusions.Evaluate(rel);
      if verdict.Excluded? {
        counts := counts.(excluded := counts.excluded + 1);
        if counts.excluded > options.limits.maxExcludedEntries {
          return true, Some(ExcludedEntriesExceeded(rel));
        }
        return true, None;
      }
      return false, None;
    }

    method ProcessFile(rel: Text, file: Node) returns (failure: Option<Failure>)
      requires file.File?
      modifies this
      ensures Reached(failure) == StepFile(host, options, rel, file, old(State()))
    {
      var size := |file.content|;
      if file.privileged {
        counts := counts.(privilegedFiles := counts.privilegedFiles + 1);
        return Some(PrivilegedFileForbidden(rel));
      }
      if size > options.limits.maxSingleFileBytes {
        return Some(SingleFileBytesExceeded(rel));
      }
      if counts.files + 1 > options.limits.maxFiles {
        return Some(FilesExceeded(rel));
      }
      if counts.bytes + size > options.limits.maxBytes {
        return Some(BytesExceeded(rel));
      }
      var collision := RegisterName(rel);
      if collision.Some? {
        return collision;
      }
      var outcome := host.copy(rel);
      if !outcome.Written? {
        placed := placed + Remains(rel, file.content, outcome.left);
        return Some(if outcome.Aborted? && host.deadlineArmed then DeadlineExceeded(rel) else FileCopyFailed(rel));
      }
      Store(rel, file);
      return None;
    }

    /** What follows a copy that went well. */
    method Store(rel: Text, file: Node)
      requires file.File?
      modifies this
      ensures State() == Stored(host, options, rel, file, old(State()))
    {
      hide DigestLine;
      placed := placed + [Copied(rel, file.content)];
      if file.links > 1 {
        counts := counts.(hardLinkedFiles := counts.hardLinkedFiles + 1);
      }
      counts := counts.(files := counts.files + 1, bytes := counts.bytes + |file.content|);
      if options.digests {
        var hash := host.contentHash(file.content);
        if rel != PROTO {
          fileDigests := fileDigests[rel := hash];
        }
        aggregate := aggregate + DigestLine(rel, hash);
      }
    }

    /** `readdirSync(src)`; the contract promises no order. */
    method ReadDirectory(f: Forest) returns (names: seq<Text>)
      ensures multiset(names) == multiset(Names(f))
    {
      names := Names(f);
    }

    /** `readdirSync(src).sort()` */
    method SortedListing(f: Forest) returns (entries: seq<Text>)
      requires WellFormedForest(f)
      ensures entries == Names(f)
    {
      var listed := ReadDirectory(f);
      entries := Sort(listed);
      NamesAreSorted(f);
      SortedIsUnique(entries, Names(f));
    }

    method ProcessDir(rel: Text, f: Forest) returns (failure: Option<Failure>, descend: seq<Pending>)
      requires WellFormedForest(f)
      modifies this
      ensures Reached(failure) == Run(Stepping(host, options), Listing(rel, f), old(State()))
      ensures failure.None? ==> descend == KeptChildren(Excluding(options), rel, f)
    {
      ghost var step, ex := Stepping(host, options), Excluding(options);
      ListingOpens(host, options, rel, f, State());
      descend := [];
      if host.readdirFails(rel) {
        return Some(ReaddirFailed(rel)), descend;
      }
      var entries := SortedListing(f);
      var rest := f;
      var i := 0;
      while i < |entries|
        invariant 0 <= i <= |entries|
        invariant entries[i..] == Names(rest)
        invariant Run(step, Scans(rel, f), old(State())) == Run(step, Scans(rel, rest), State())
        invariant KeptChildren(ex, rel, f) == descend + KeptChildren(ex, rel, rest)
      {
        NextName(entries, i, rest);
        var child := Child(rel, entries[i]);
        ScansStep(host, options, rel, rest, State());
        KeptStep(ex, rel, rest, descend);
        var kept;
        kept, failure := ScanChild(child);
        if failure.Some? {
          return failure, descend;
        }
        if kept {
          descend := descend + [Pending(child, rest.node)];
        }
        i, rest := i + 1, rest.rest;
      }
      assert rest == Nil;
      failure := None;
    }

    /** The body of the listing loop. */
    method ScanChild(child: Text) returns (kept: bool, failure: Option<Failure>)
      modifies this
      ensures Reached(failure) == StepScan(host, options, child, old(State()))
      ensures failure.None? ==> (kept <==> !options.exclusions.Excludes(child))
    {
      var expired := ReadClock();
      if expired {
        return false, Some(DeadlineExceeded(child));
      }
      var excluded, exceeded := ExcludeOrFail(child);
      if excluded {
        return false, exceeded;
      }
      if Depth(child) > options.limits.maxDepth {
        return false, Some(DepthExceeded(child));
      }
      if |child| > options.limits.maxPathLength {
        return false, Some(PathLengthExceeded(child));
      }
      return true, None;
    }

    /** Lists a directory and pushes what is kept of it. */
    method EnterDirectory(ghost done: seq<Event>, rel: Text, f: Forest, stack: seq<Pending>)
      returns (failure: Option<Failure>, pushed: seq<Pending>)
      requires WellFormedForest(f) && StackWellFormed(stack)
      requires Run(Stepping(host, options), done, START) == Running(State())
      modifies this
      ensures failure.None? ==>
                && Run(Stepping(host, options), done + Listing(rel, f), START) == Running(State())
                && Tour(Excluding(options), rel, f) + Owed(Excluding(options), stack) ==
                   Listing(rel, f) + Owed(Excluding(options), pushed)
                && StackWellFormed(pushed)
      ensures failure.Some? ==>
                Run(Stepping(host, options),
                    done + (Tour(Excluding(options), rel, f) + Owed(Excluding(options), stack)), START) ==
                Stopped(failure.value, State())
    {
      hide StackWellFormed, Listing;
      ghost var step, ex := Stepping(host, options), Excluding(options);
      TourSplits(ex, rel, f, stack);
      KeptAreWellFormed(ex, rel, f);
      Continue(step, done, Listing(rel, f), Owed(ex, stack + Reverse(KeptChildren(ex, rel, f))), State());
      var descend;
      failure, descend := ProcessDir(rel, f);
      pushed := stack + Reverse(descend);
      if failure.None? {
        PushedAreWellFormed(stack, Reverse(descend));
      }
    }

    /** One turn of the main loop. */
    method TakeTop(ghost done: seq<Event>, stack: seq<Pending>)
      returns (ghost more: seq<Event>, failure: Option<Failure>, next: seq<Pending>)
      requires stack != [] && StackWellFormed(stack)
      requires Run(Stepping(host, options), done, START) == Running(State())
      modifies this
      ensures failure.None? ==>
                && more != [] && Owed(Excluding(options), stack) == more + Owed(Excluding(options), next)
                && Run(Stepping(host, options), done + more, START) == Running(State())
                && StackWellFormed(next)
      ensures failure.Some? ==>
                Run(Stepping(host, options), done + Owed(Excluding(options), stack), START) ==
                Stopped(failure.value, State())
    {
      hide Owed, Listing;
      ghost var step, ex := Stepping(host, options), Excluding(options);
      var entry := stack[|stack| - 1];
      OwedTop(ex, stack);
      next := stack[..|stack| - 1];
      more := [Visit(entry.rel, entry.node)];
      ghost var rest := OwnTour(ex, entry) + Owed(ex, next);
      Continue(step, done, more, rest, State());
      OneEvent(step, Visit(entry.rel, entry.node), State());
      failure := VisitEntry(entry);
      if failure.None? {
        if entry.node.Dir? {
          ghost var sofar := done + more;
          failure, next := EnterDirectory(sofar, entry.rel, entry.node.children, next);
          more := more + Listing(entry.rel, entry.node.children);
          Associative(done, [Visit(entry.rel, entry.node)], Listing(entry.rel, entry.node.children));
          Associative([Visit(entry.rel, entry.node)], Listing(entry.rel, entry.node.children), Owed(ex, next));
        } else {
          EmptyPrefix(Owed(ex, next));
        }
      }
    }

    /** The whole copy is the run of the recursive tour: same outcome, same
        counters, same effects, whatever order the directory listings came in.
        At every loop head the state is that of the events done so far, which
        begin the list of all events. */
    method Copy(root: Forest) returns (result: Result)
      requires WellFormedForest(root)
      requires State() == START
      modifies this
      ensures result == ResultOf(host, options, Run(Stepping(host, options), Events(Excluding(options), root), START))
      ensures State() == Run(Stepping(host, options), Events(Excluding(options), root), START).progress
    {
      hide Owed, Listing, StackWellFormed, Step;
      ghost var step, ex := Stepping(host, options), Excluding(options);
      ghost var all := Events(ex, root);
      ghost var done := [Begin];
      OneEvent(step, Begin, State());
      FirstEvent(step, Begin, Tour(ex, [], root), State());
      BeginReadsClock(host, options, State());
      var expired := ReadClock();
      if expired {
        return Failed(DeadlineAtEntry, counts);
      }
      NothingOwed(ex, Tour(ex, [], root));
      var failed, stack := EnterDirectory(done, [], root, []);
      if failed.Some? {
        return Failed(failed.value, counts);
      }
      Associative(done, Listing([], root), Owed(ex, stack));
      done := done + Listing([], root);
      while stack != []
        invariant done + Owed(ex, stack) == all
        invariant done <= all && Run(step, all[..|done|], START) == Running(State())
        invariant StackWellFormed(stack)
        decreases |Owed(ex, stack)|
      {
        assert all[..|done|] == done;
        ghost var more;
        ghost var owed := Owed(ex, stack);
        more, failed, stack := TakeTop(done, stack);
        if failed.Some? {
          return Failed(failed.value, counts);
        }
        Associative(done, more, Owed(ex, stack));
        done := done + more;
        assert all[..|done|] == done;
      }
      NothingOwed(ex, done);
      assert all[..|done|] == done == all;
      result := Completed(counts,
                          if options.digests then Some(host.textHash(aggregate)) else None,
                          if options.digests then Some(fileDigests) else None);
    }

    method MakeDirectory(rel: Text) returns (failure: Option<Failure>)
      modifies this
      ensures Reached(failure) == StepDir(host, rel, old(State()))
    {
      counts := counts.(directories := counts.directories + 1);
      var collision := RegisterName(rel);
      if collision.Some? {
        return collision;
      }
      var made := host.mkdir(rel);
      if made == Refused {
        return Some(MkdirFailed(rel));
      }
      placed := placed + [Made(rel)];
      return if made == ModeRefused then Some(MkdirFailed(rel)) else None;
    }

    /** The body of the main loop up to the listing of a directory. */
    method VisitEntry(entry: Pending) returns (failure: Option<Failure>)
      modifies this
      ensures Reached(failure) == StepVisit(host, options, entry.rel, entry.node, old(State()))
    {
      hide StepFile, StepDir, SafeRelPath;
      var rel := entry.rel;
      var expired := ReadClock();
      if expired {
        return Some(DeadlineExceeded(rel));
      }
      scanned := scanned + 1;
      if scanned > options.limits.maxFiles + options.limits.maxExcludedEntries {
        return Some(ScanExceeded(rel));
      }
      if !SafeRelPath(rel) {
        return Some(UnsafeRelativePath(rel));
      }
      if host.lstatFails(rel) {
        return Some(LstatFailed(rel));
      }
      if entry.node.Symlink? {
        counts := counts.(skippedSymlinks := counts.skippedSymlinks + 1);
        return if options.failOnSymlink then Some(SymlinkForbidden(rel)) else None;
      }
      if entry.node.Dir? {
        failure := MakeDirectory(rel);
        return;
      }
      if !entry.node.File? {
        counts := counts.(specialFiles := counts.specialFiles + 1);
        return Some(SpecialFileForbidden(rel));
      }
      failure := ProcessFile(rel, entry.node);
    }
  }

  lemma FirstEvent(step: Stepper, e: Event, rest: seq<Event>, p: Progress)
    ensures Run(step, [e] + rest, p) == Then(step, step(e, p), rest)
  {
    assert ([e] + rest)[1..] == rest;
  }

  lemma OneEvent(step: Stepper, e: Event, p: Progress)
    ensures Run(step, [e], p) == step(e, p)
  {
    assert [e] + [] == [e];
    FirstEvent(step, e, [], p);
    assert Then(step, step(e, p), []) == step(e, p);
  }

  lemma ListingOpens(host: Host, o: Options, rel: Text, f: Forest, p: Progress)
    ensures Run(Stepping(host, o), Listing(rel, f), p) ==
            if host.readdirFails(rel) then Stopped(ReaddirFailed(rel), p) else Run(Stepping(host, o), Scans(rel, f), p)
  {
    FirstEvent(Stepping(host, o), Open(rel), Scans(rel, f), p);
  }

  lemma ScansStep(host: Host, o: Options, rel: Text, f: Forest, p: Progress)
    requires f.Cons?
    ensures Run(Stepping(host, o), Scans(rel, f), p) ==
            Then(Stepping(host, o), StepScan(host, o, Child(rel, f.name), p), Scans(rel, f.rest))
  {
    FirstEvent(Stepping(host, o), Scan(Child(rel, f.name)), Scans(rel, f.rest), p);
  }

  lemma NextName(entries: seq<Text>, i: nat, f: Forest)
    requires i < |entries| && entries[i..] == Names(f)
    ensures f.Cons? && entries[i] == f.name && entries[i + 1..] == Names(f.rest)
  {
    assert entries[i..] == [entries[i]] + entries[i + 1..];
  }

  lemma KeptStep(ex: Text -> bool, rel: Text, f: Forest, before: seq<Pending>)
    requires f.Cons?
    ensures before + KeptChildren(ex, rel, f) ==
            (if ex(Child(rel, f.name)) then before else before + [Pending(Child(rel, f.name), f.node)])
            + KeptChildren(ex, rel, f.rest)
  {
    EmptyPrefix(KeptChildren(ex, rel, f.rest));
    Associative(before, [Pending(Child(rel, f.name), f.node)], KeptChildren(ex, rel, f.rest));
  }

  /** From a point of a run on: what the next events do to the run so far, and
      to the whole of it if they stop it. */
  lemma Continue(step: Stepper, done: seq<Event>, next: seq<Event>, rest: seq<Event>, p: Progress)
    requires Run(step, done, START) == Running(p)
    ensures Run(step, done + next, START) == Run(step, next, p)
    ensures done + (next + rest) == (done + next) + rest
    ensures Run(step, next, p).Stopped? ==> Run(step, done + (next + rest), START) == Run(step, next, p)
  {
    RunAppend(step, done, next, START);
    RunAppend(step, done + next, rest, START);
    Associative(done, next, rest);
  }

  /** Popping the top: its visit, then its own tour, then what is owed below. */
  lemma OwedTop(ex: Text -> bool, stack: seq<Pending>)
    requires stack != []
    ensures var top, below := stack[|stack| - 1], Owed(ex, stack[..|stack| - 1]);
            Owed(ex, stack) == [Visit(top.rel, top.node)] + (OwnTour(ex, top) + below)
  {
  }

  function OwnTour(ex: Text -> bool, top: Pending): seq<Event> {
    if top.node.Dir? then Tour(ex, top.rel, top.node.children) else []
  }

  /** Listing a directory, then visiting what the listing pushed. */
  lemma TourSplits(ex: Text -> bool, rel: Text, f: Forest, stack: seq<Pending>)
    ensures Tour(ex, rel, f) + Owed(ex, stack) ==
            Listing(rel, f) + Owed(ex, stack + Reverse(KeptChildren(ex, rel, f)))
  {
    OwedAfterPush(ex, stack, rel, f);
    Associative(Listing(rel, f), Visits(ex, rel, f), Owed(ex, stack));
  }

  lemma NothingOwed(ex: Text -> bool, events: seq<Event>)
    ensures Owed(ex, []) == [] && events + Owed(ex, []) == events && StackWellFormed([])
  {
  }

  lemma BeginReadsClock(host: Host, o: Options, p: Progress)
    ensures Step(host, o, Begin, p) ==
            var q := p.(ticks := p.ticks + 1);
            if Expired(host, p) then Stopped(DeadlineAtEntry, q) else Running(q)
  {
  }

  lemma PushedAreWellFormed(stack: seq<Pending>, more: seq<Pending>)
    requires StackWellFormed(stack) && StackWellFormed(more)
    ensures StackWellFormed(stack + more)
  {
  }

  ghost predicate StackWellFormed(stack: seq<Pending>) {
    forall entry <- stack :: WellFormed(entry.node)
  }

  lemma {:induction false} KeptAreWellFormed(ex: Text -> bool, rel: Text, f: Forest)
    requires WellFormedForest(f)
    ensures StackWellFormed(Reverse(KeptChildren(ex, rel, f)))
  {
    if f.Cons? {
      KeptAreWellFormed(ex, rel, f.rest);
      ReverseCons(Pending(Child(rel, f.name), f.node), KeptChildren(ex, rel, f.rest));
      assert [] + KeptChildren(ex, rel, f.rest) == KeptChildren(ex, rel, f.rest);
    }
  }

  lemma {:induction false} NamesAreSorted(f: Forest)
    requires WellFormedForest(f)
    ensures Sorted(Names(f))
  {
    if f.Cons? {
      NamesAreSorted(f.rest);
      forall n | n in multiset(Names(f.rest))
        ensures !Before(n, f.name)
      {
        BeforeIsTotal(f.name, n);
      }
      InTail(f.name, Names(f.rest));
    }
  }
}
