/** What the sanitized copy promises, stated on the flat recursive listing of the
    source tree instead of on the pruning walk. */
module TreeCopyLaws {
  import opened JsText
  import opened Paths
  import opened Exclusions
  import opened Wrappers
  import opened TreeCopy

  datatype Entry = Entry(path: Text, node: Node)

  // ---- The reference: list everything, then filter by full relative path ----

  /** Every entry below a directory, in sorted preorder, nothing pruned. Only
      real directories have entries below them. */
  function AllEntries(rel: Text, f: Forest): seq<Entry>
    decreases f
  {
    match f
    case Nil => []
    case Cons(name, node, rest) =>
      [Entry(Child(rel, name), node)]
      + (if node.Dir? then AllEntries(Child(rel, name), node.children) else [])
      + AllEntries(rel, rest)
  }

  function Keeping(ex: Text -> bool): Entry -> bool {
    (e: Entry) => !ex(e.path)
  }

  /** The entries a copy is to process. */
  function Kept(ex: Text -> bool, root: Forest): seq<Entry> {
    Filter(Keeping(ex), AllEntries([], root))
  }

  /** Excluded entries of directories that are themselves kept. */
  function Frontier(ex: Text -> bool, rel: Text, f: Forest): nat
    decreases f
  {
    match f
    case Nil => 0
    case Cons(name, node, rest) =>
      var c := Child(rel, name);
      (if ex(c) then 1 else if node.Dir? then Frontier(ex, c, node.children) else 0) + Frontier(ex, rel, rest)
  }

  ghost predicate Inherited(ex: Text -> bool) {
    forall p, name :: p != [] && ex(p) ==> ex(Child(p, name))
  }

  lemma ExcludingIsInherited(o: Options)
    ensures Inherited(Excluding(o))
  {
    forall p, name | p != [] && Excluding(o)(p)
      ensures Excluding(o)(Child(p, name))
    {
      ExclusionIsInherited(o.exclusions, p, name);
    }
  }

  function Visited(events: seq<Event>): seq<Entry> {
    if events == [] then []
    else (if events[0].Visit? then [Entry(events[0].rel, events[0].node)] else []) + Visited(events[1..])
  }

  lemma {:induction false} VisitedAppend(a: seq<Event>, b: seq<Event>)
    ensures Visited(a + b) == Visited(a) + Visited(b)
  {
    if a == [] {
      EmptyPrefix(b);
      EmptyPrefix(Visited(b));
    } else {
      assert (a + b)[1..] == a[1..] + b;
      VisitedAppend(a[1..], b);
      Associative(if a[0].Visit? then [Entry(a[0].rel, a[0].node)] else [], Visited(a[1..]), Visited(b));
    }
  }

  lemma {:induction false} ScansVisitNothing(rel: Text, f: Forest)
    ensures Visited(Scans(rel, f)) == []
  {
    if f.Cons? {
      ScansVisitNothing(rel, f.rest);
      assert Scans(rel, f)[1..] == Scans(rel, f.rest);
    }
  }

  lemma {:induction false} AllExcludedBelow(ex: Text -> bool, rel: Text, f: Forest)
    requires Inherited(ex) && WellFormedForest(f)
    requires rel != [] && ex(rel)
    ensures Filter(Keeping(ex), AllEntries(rel, f)) == []
    decreases f
  {
    if f.Cons? {
      var c := Child(rel, f.name);
      var below := if f.node.Dir? then AllEntries(c, f.node.children) else [];
      if f.node.Dir? {
        AllExcludedBelow(ex, c, f.node.children);
      }
      AllExcludedBelow(ex, rel, f.rest);
      FilterThree(Keeping(ex), Entry(c, f.node), below, AllEntries(rel, f.rest));
    }
  }

  lemma FilterThree<T>(keep: T -> bool, x: T, below: seq<T>, rest: seq<T>)
    ensures Filter(keep, [x] + below + rest) ==
            (if keep(x) then [x] else []) + Filter(keep, below) + Filter(keep, rest)
  {
    FilterAppend(keep, [x] + below, rest);
    FilterAppend(keep, [x], below);
    var single := [x];
    assert single[1..] == [];
    assert Filter(keep, [x]) == if keep(x) then [x] else [];
  }

  lemma {:induction false} PruningVisits(ex: Text -> bool, rel: Text, f: Forest)
    requires Inherited(ex) && WellFormedForest(f)
    ensures Visited(Visits(ex, rel, f)) == Filter(Keeping(ex), AllEntries(rel, f))
    decreases f
  {
    if f.Cons? {
      var c := Child(rel, f.name);
      var below := if f.node.Dir? then AllEntries(c, f.node.children) else [];
      PruningVisits(ex, rel, f.rest);
      FilterThree(Keeping(ex), Entry(c, f.node), below, AllEntries(rel, f.rest));
      if ex(c) {
        if f.node.Dir? {
          ChildIsNonempty(rel, f.name);
          AllExcludedBelow(ex, c, f.node.children);
        }
        EmptyPrefix(Visits(ex, rel, f.rest));
        EmptyPrefix(Filter(Keeping(ex), AllEntries(rel, f.rest)));
      } else {
        VisitedAppend(Subtree(ex, c, f.node), Visits(ex, rel, f.rest));
        var own := if f.node.Dir? then Tour(ex, c, f.node.children) else [];
        assert Subtree(ex, c, f.node)[1..] == own;
        if f.node.Dir? {
          PruningVisits(ex, c, f.node.children);
          TourVisits(ex, c, f.node.children);
        }
      }
    }
  }

  lemma ChildIsNonempty(rel: Text, name: Text)
    requires name != []
    ensures Child(rel, name) != []
  {
  }

  lemma TourVisits(ex: Text -> bool, rel: Text, f: Forest)
    ensures Visited(Tour(ex, rel, f)) == Visited(Visits(ex, rel, f))
  {
    VisitedAppend(Listing(rel, f), Visits(ex, rel, f));
    ScansVisitNothing(rel, f);
    assert Listing(rel, f)[1..] == Scans(rel, f);
    EmptyPrefix(Visited(Visits(ex, rel, f)));
  }

  /** The pruning walk visits exactly the entries whose own full path is not
      excluded, in the order of the sorted recursive listing. */
  lemma PruningIsFiltering(o: Options, root: Forest)
    requires WellFormedForest(root)
    ensures Visited(Events(Excluding(o), root)) == Kept(Excluding(o), root)
  {
    var ex := Excluding(o);
    ExcludingIsInherited(o);
    PruningVisits(ex, [], root);
    TourVisits(ex, [], root);
    assert Events(ex, root)[1..] == Tour(ex, [], root);
    EmptyPrefix(Visited(Tour(ex, [], root)));
  }

  // ---- Quantities accumulated along a list of events ----

  function Total(m: Event -> nat, events: seq<Event>): nat {
    if events == [] then 0 else m(events[0]) + Total(m, events[1..])
  }

  lemma {:induction false} TotalAppend(m: Event -> nat, a: seq<Event>, b: seq<Event>)
    ensures Total(m, a + b) == Total(m, a) + Total(m, b)
  {
    if a == [] {
      EmptyPrefix(b);
    } else {
      assert (a + b)[1..] == a[1..] + b;
      TotalAppend(m, a[1..], b);
    }
  }

  function Sum(m: Entry -> nat, entries: seq<Entry>): nat {
    if entries == [] then 0 else m(entries[0]) + Sum(m, entries[1..])
  }

  function One(e: Entry): nat { 1 }
  function IsFile(e: Entry): nat { if e.node.File? then 1 else 0 }
  function IsDir(e: Entry): nat { if e.node.Dir? then 1 else 0 }
  function IsSymlink(e: Entry): nat { if e.node.Symlink? then 1 else 0 }
  function IsLinkedFile(e: Entry): nat { if e.node.File? && e.node.links > 1 then 1 else 0 }
  function Size(e: Entry): nat { if e.node.File? then |e.node.content| else 0 }

  /** Clock readings an event makes. */
  function Reads(e: Event): nat { if e.Open? then 0 else 1 }

  function Exclusion(ex: Text -> bool): Event -> nat {
    (e: Event) => if e.Scan? && ex(e.rel) then 1 else 0
  }

  /** The effect of processing entries: directories made, files copied. */
  function Effects(entries: seq<Entry>): seq<Placed> {
    if entries == [] then []
    else
      (match entries[0].node
       case File(content, _, _) => [Copied(entries[0].path, content)]
       case Dir(_) => [Made(entries[0].path)]
       case _ => [])
      + Effects(entries[1..])
  }

  function DigestText(host: Host, entries: seq<Entry>): Text {
    if entries == [] then []
    else
      (if entries[0].node.File? then DigestLine(entries[0].path, host.contentHash(entries[0].node.content)) else [])
      + DigestText(host, entries[1..])
  }

  /** The per-file digests a run records. */
  function DigestMap(host: Host, entries: seq<Entry>, m: map<Text, Text>): map<Text, Text> {
    if entries == [] then m
    else
      DigestMap(host, entries[1..],
                if entries[0].node.File? then Recorded(m, entries[0].path, host.contentHash(entries[0].node.content))
                else m)
  }

  lemma {:induction false} DigestMapAppend(host: Host, a: seq<Entry>, b: seq<Entry>, m: map<Text, Text>)
    ensures DigestMap(host, a + b, m) == DigestMap(host, b, DigestMap(host, a, m))
  {
    if a == [] {
      EmptyPrefix(b);
    } else {
      assert (a + b)[1..] == a[1..] + b;
      DigestMapAppend(host, a[1..], b,
                      if a[0].node.File? then Recorded(m, a[0].path, host.contentHash(a[0].node.content)) else m);
    }
  }

  /** The digest of a file of that path among the entries. */
  ghost predicate DigestOf(host: Host, entries: seq<Entry>, path: Text, hash: Text) {
    exists e <- entries :: e.node.File? && e.path == path && host.contentHash(e.node.content) == hash
  }

  ghost predicate FileAt(entries: seq<Entry>, path: Text) {
    exists e <- entries :: e.node.File? && e.path == path
  }

  lemma {:induction false} DigestMapIff(host: Host, entries: seq<Entry>, m: map<Text, Text>, path: Text)
    ensures var d := DigestMap(host, entries, m);
            && (path in d <==> path in m || (FileAt(entries, path) && path != PROTO))
            && (path in d ==> (path in m && d[path] == m[path]) || DigestOf(host, entries, path, d[path]))
  {
    if entries != [] {
      var first := entries[0];
      var more := if first.node.File? then Recorded(m, first.path, host.contentHash(first.node.content)) else m;
      DigestMapIff(host, entries[1..], more, path);
      assert entries == [first] + entries[1..];
    }
  }

  /** A file of every path but one has its digest recorded. */
  ghost predicate DigestsRecorded(host: Host, entries: seq<Entry>, d: map<Text, Text>) {
    forall path ::
      && (path in d <==> FileAt(entries, path) && path != PROTO)
      && (path in d ==> DigestOf(host, entries, path, d[path]))
  }

  /** The names a run registers against case collisions, in order. */
  function Registered(entries: seq<Entry>): seq<Text> {
    if entries == [] then []
    else (if entries[0].node.File? || entries[0].node.Dir? then [entries[0].path] else []) + Registered(entries[1..])
  }

  /** The counters a run reaches, said by totals over what it went through. */
  ghost predicate Counted(o: Options, events: seq<Event>, p: Progress, q: Progress) {
    var v := Visited(events);
    && q.counts == p.counts.(
         files := p.counts.files + Sum(IsFile, v),
         directories := p.counts.directories + Sum(IsDir, v),
         excluded := p.counts.excluded + Total(Exclusion(Excluding(o)), events),
         bytes := p.counts.bytes + Sum(Size, v),
         skippedSymlinks := p.counts.skippedSymlinks + Sum(IsSymlink, v),
         hardLinkedFiles := p.counts.hardLinkedFiles + Sum(IsLinkedFile, v))
    && q.scanned == p.scanned + Sum(One, v)
    && q.ticks == p.ticks + Total(Reads, events)
  }

  /** The effects and the digest input a run adds. */
  ghost predicate Effected(host: Host, o: Options, events: seq<Event>, p: Progress, q: Progress) {
    var v := Visited(events);
    && q.placed == p.placed + Effects(v)
    && q.aggregate == p.aggregate + (if o.digests then DigestText(host, v) else [])
    && q.fileDigests == (if o.digests then DigestMap(host, v, p.fileDigests) else p.fileDigests)
  }

  lemma SumOfOne(m: Entry -> nat, e: Entry)
    ensures Sum(m, [e]) == m(e) && Sum(m, []) == 0
  {
    var one := [e];
    assert one[1..] == [];
  }

  lemma TotalOfOne(m: Event -> nat, e: Event)
    ensures Total(m, [e]) == m(e)
  {
    var one := [e];
    assert one[1..] == [];
  }

  lemma VisitedOfOne(e: Event)
    ensures Visited([e]) == if e.Visit? then [Entry(e.rel, e.node)] else []
  {
    var one := [e];
    assert one[1..] == [];
  }

  lemma VisitCounts(host: Host, o: Options, entry: Entry, p: Progress)
    requires StepVisit(host, o, entry.path, entry.node, p).Running?
    ensures var q := StepVisit(host, o, entry.path, entry.node, p).progress;
            && q.scanned == p.scanned + 1 && q.ticks == p.ticks + 1
            && q.counts == p.counts.(
                 files := p.counts.files + IsFile(entry),
                 directories := p.counts.directories + IsDir(entry),
                 bytes := p.counts.bytes + Size(entry),
                 skippedSymlinks := p.counts.skippedSymlinks + IsSymlink(entry),
                 hardLinkedFiles := p.counts.hardLinkedFiles + IsLinkedFile(entry))
  {
  }

  lemma StepCounts(host: Host, o: Options, e: Event, p: Progress)
    requires Step(host, o, e, p).Running?
    ensures Counted(o, [e], p, Step(host, o, e, p).progress)
  {
    VisitedOfOne(e);
    TotalOfOne(Reads, e);
    TotalOfOne(Exclusion(Excluding(o)), e);
    if e.Visit? {
      hide StepVisit;
      var entry := Entry(e.rel, e.node);
      VisitCounts(host, o, entry, p);
      SumOfOne(One, entry);
      SumOfOne(IsFile, entry);
      SumOfOne(IsDir, entry);
      SumOfOne(IsSymlink, entry);
      SumOfOne(IsLinkedFile, entry);
      SumOfOne(Size, entry);
    }
  }

  lemma VisitEffects(host: Host, o: Options, entry: Entry, p: Progress)
    requires StepVisit(host, o, entry.path, entry.node, p).Running?
    ensures var q := StepVisit(host, o, entry.path, entry.node, p).progress;
            && q.placed == p.placed + (match entry.node
                                       case File(content, _, _) => [Copied(entry.path, content)]
                                       case Dir(_) => [Made(entry.path)]
                                       case _ => [])
            && (if entry.node.File? && o.digests
                then var hash := host.contentHash(entry.node.content);
                     q.aggregate == p.aggregate + DigestLine(entry.path, hash) &&
                     q.fileDigests == Recorded(p.fileDigests, entry.path, hash)
                else q.aggregate == p.aggregate && q.fileDigests == p.fileDigests)
  {
    hide SafeRelPath, DigestLine;
  }

  lemma OneEntry(host: Host, entry: Entry, digests: map<Text, Text>)
    ensures Effects([entry]) == match entry.node
                                case File(content, _, _) => [Copied(entry.path, content)]
                                case Dir(_) => [Made(entry.path)]
                                case _ => []
    ensures DigestText(host, [entry]) ==
            if entry.node.File? then DigestLine(entry.path, host.contentHash(entry.node.content)) else []
    ensures DigestMap(host, [entry], digests) ==
            if entry.node.File? then Recorded(digests, entry.path, host.contentHash(entry.node.content)) else digests
  {
    hide DigestLine;
    assert [entry][1..] == [];
  }

  lemma StepEffects(host: Host, o: Options, e: Event, p: Progress)
    requires Step(host, o, e, p).Running?
    ensures Effected(host, o, [e], p, Step(host, o, e, p).progress)
  {
    VisitedOfOne(e);
    if e.Visit? {
      hide StepVisit, DigestLine, Effects, DigestText, DigestMap;
      var entry := Entry(e.rel, e.node);
      VisitEffects(host, o, entry, p);
      OneEntry(host, entry, p.fileDigests);
    }
  }

  lemma {:induction false} SumAppend(m: Entry -> nat, a: seq<Entry>, b: seq<Entry>)
    ensures Sum(m, a + b) == Sum(m, a) + Sum(m, b)
  {
    if a == [] {
      EmptyPrefix(b);
    } else {
      assert (a + b)[1..] == a[1..] + b;
      SumAppend(m, a[1..], b);
    }
  }

  lemma {:induction false} EffectsAppend(a: seq<Entry>, b: seq<Entry>)
    ensures Effects(a + b) == Effects(a) + Effects(b)
  {
    if a == [] {
      EmptyPrefix(b);
      EmptyPrefix(Effects(b));
    } else {
      assert (a + b)[1..] == a[1..] + b;
      EffectsAppend(a[1..], b);
    }
  }

  lemma {:induction false} DigestTextAppend(host: Host, a: seq<Entry>, b: seq<Entry>)
    ensures DigestText(host, a + b) == DigestText(host, a) + DigestText(host, b)
  {
    if a == [] {
      EmptyPrefix(b);
      EmptyPrefix(DigestText(host, b));
    } else {
      assert (a + b)[1..] == a[1..] + b;
      DigestTextAppend(host, a[1..], b);
    }
  }

  lemma CountsCompose(o: Options, a: seq<Event>, b: seq<Event>, p: Progress, q: Progress, r: Progress)
    requires Counted(o, a, p, q) && Counted(o, b, q, r)
    ensures Counted(o, a + b, p, r)
  {
    VisitedAppend(a, b);
    var va, vb := Visited(a), Visited(b);
    SumAppend(One, va, vb);
    SumAppend(IsFile, va, vb);
    SumAppend(IsDir, va, vb);
    SumAppend(IsSymlink, va, vb);
    SumAppend(IsLinkedFile, va, vb);
    SumAppend(Size, va, vb);
    TotalAppend(Reads, a, b);
    TotalAppend(Exclusion(Excluding(o)), a, b);
  }

  lemma EffectsCompose(host: Host, o: Options, a: seq<Event>, b: seq<Event>, p: Progress, q: Progress, r: Progress)
    requires Effected(host, o, a, p, q) && Effected(host, o, b, q, r)
    ensures Effected(host, o, a + b, p, r)
  {
    VisitedAppend(a, b);
    var va, vb := Visited(a), Visited(b);
    EffectsAppend(va, vb);
    Associative(p.placed, Effects(va), Effects(vb));
    DigestTextAppend(host, va, vb);
    Associative(p.aggregate, DigestText(host, va), DigestText(host, vb));
    DigestMapAppend(host, va, vb, p.fileDigests);
  }

  lemma {:induction false} RunAccounts(host: Host, o: Options, events: seq<Event>, p: Progress)
    requires Run(Stepping(host, o), events, p).Running?
    ensures Counted(o, events, p, Run(Stepping(host, o), events, p).progress)
    ensures Effected(host, o, events, p, Run(Stepping(host, o), events, p).progress)
  {
    if events != [] {
      var q := Step(host, o, events[0], p).progress;
      var r := Run(Stepping(host, o), events, p).progress;
      StepCounts(host, o, events[0], p);
      StepEffects(host, o, events[0], p);
      RunAccounts(host, o, events[1..], q);
      CountsCompose(o, [events[0]], events[1..], p, q, r);
      EffectsCompose(host, o, [events[0]], events[1..], p, q, r);
      assert [events[0]] + events[1..] == events;
    }
  }

  // ---- Exactly when a run goes through ----

  /** What one event needs whatever came before it. */
  predicate LocallyOk(host: Host, o: Options, e: Event) {
    match e
    case Begin => true
    case Open(rel) => !host.readdirFails(rel)
    case Scan(rel) => Excluding(o)(rel) || (Depth(rel) <= o.limits.maxDepth && |rel| <= o.limits.maxPathLength)
    case Visit(rel, node) =>
      && SafeRelPath(rel) && !host.lstatFails(rel)
      && match node
         case Symlink => !o.failOnSymlink
         case Special => false
         case Dir(_) => host.mkdir(rel).Done?
         case File(content, privileged, _) =>
           !privileged && |content| <= o.limits.maxSingleFileBytes && host.copy(rel).Written?
  }

  /** What is left of the ceilings covers the events; a ceiling matters only if
      something is counted against it. */
  predicate CeilingsCover(o: Options, events: seq<Event>, p: Progress) {
    var v := Visited(events);
    var excluded := Total(Exclusion(Excluding(o)), events);
    && (excluded == 0 || p.counts.excluded + excluded <= o.limits.maxExcludedEntries)
    && (Sum(One, v) == 0 || p.scanned + Sum(One, v) <= o.limits.maxFiles + o.limits.maxExcludedEntries)
    && (Sum(IsFile, v) == 0 || p.counts.files + Sum(IsFile, v) <= o.limits.maxFiles)
    && (Sum(IsFile, v) == 0 || p.counts.bytes + Sum(Size, v) <= o.limits.maxBytes)
  }

  ghost predicate InTime(host: Host, from: nat, upTo: nat) {
    forall k :: from <= k < upTo && host.deadlineArmed ==> !host.pastDeadline(k)
  }

  /** No name equals in lower case a different name seen before it. */
  predicate NoCollision(host: Host, names: seq<Text>, seen: map<Text, Text>) {
    if names == [] then true
    else
      var l := host.lower(names[0]);
      && (l in seen ==> seen[l] == names[0])
      && NoCollision(host, names[1..], seen[l := names[0]])
  }

  ghost predicate GoesThrough(host: Host, o: Options, events: seq<Event>, p: Progress) {
    && (forall e <- events :: LocallyOk(host, o, e))
    && CeilingsCover(o, events, p)
    && InTime(host, p.ticks, p.ticks + Total(Reads, events))
    && NoCollision(host, Registered(Visited(events)), p.seenLower)
  }

  function SeenAfter(host: Host, e: Event, seen: map<Text, Text>): map<Text, Text> {
    if e.Visit? && (e.node.File? || e.node.Dir?) then seen[host.lower(e.rel) := e.rel] else seen
  }

  predicate NameFree(host: Host, e: Event, seen: map<Text, Text>) {
    e.Visit? && (e.node.File? || e.node.Dir?) && host.lower(e.rel) in seen ==> seen[host.lower(e.rel)] == e.rel
  }

  /** The ceilings that one event needs. */
  predicate Covered(o: Options, e: Event, p: Progress) {
    match e
    case Scan(rel) => Excluding(o)(rel) ==> p.counts.excluded + 1 <= o.limits.maxExcludedEntries
    case Visit(rel, node) =>
      && p.scanned + 1 <= o.limits.maxFiles + o.limits.maxExcludedEntries
      && (node.File? ==>
            p.counts.files + 1 <= o.limits.maxFiles && p.counts.bytes + |node.content| <= o.limits.maxBytes)
    case _ => true
  }

  lemma CoveredIff(o: Options, e: Event, p: Progress)
    ensures CeilingsCover(o, [e], p) <==> Covered(o, e, p)
  {
    VisitedOfOne(e);
    TotalOfOne(Exclusion(Excluding(o)), e);
    if e.Visit? {
      var entry := Entry(e.rel, e.node);
      SumOfOne(One, entry);
      SumOfOne(IsFile, entry);
      SumOfOne(Size, entry);
    }
  }

  lemma StepIff(host: Host, o: Options, e: Event, p: Progress)
    ensures Step(host, o, e, p).Running? <==>
            LocallyOk(host, o, e) && CeilingsCover(o, [e], p) && InTime(host, p.ticks, p.ticks + Reads(e))
            && NameFree(host, e, p.seenLower)
  {
    hide CeilingsCover, SafeRelPath, Depth, Total;
    CoveredIff(o, e, p);
    assert InTime(host, p.ticks, p.ticks + Reads(e)) <==> (Reads(e) == 1 ==> !Expired(host, p));
  }

  lemma StepRegisters(host: Host, o: Options, e: Event, p: Progress)
    requires Step(host, o, e, p).Running?
    ensures Step(host, o, e, p).progress.seenLower == SeenAfter(host, e, p.seenLower)
  {
  }

  lemma CeilingsSplit(o: Options, a: seq<Event>, b: seq<Event>, p: Progress, q: Progress)
    requires Counted(o, a, p, q)
    ensures CeilingsCover(o, a + b, p) <==> CeilingsCover(o, a, p) && CeilingsCover(o, b, q)
  {
    VisitedAppend(a, b);
    var va, vb := Visited(a), Visited(b);
    SumAppend(One, va, vb);
    SumAppend(IsFile, va, vb);
    SumAppend(Size, va, vb);
    TotalAppend(Exclusion(Excluding(o)), a, b);
    NoFilesNoBytes(va);
    NoFilesNoBytes(vb);
  }

  lemma {:induction false} NoFilesNoBytes(v: seq<Entry>)
    ensures Sum(IsFile, v) == 0 ==> Sum(Size, v) == 0
  {
    if v != [] {
      NoFilesNoBytes(v[1..]);
    }
  }

  lemma GoesThroughSplit(host: Host, o: Options, e: Event, rest: seq<Event>, p: Progress, q: Progress)
    requires Counted(o, [e], p, q) && q.seenLower == SeenAfter(host, e, p.seenLower)
    ensures GoesThrough(host, o, [e] + rest, p) <==>
            && LocallyOk(host, o, e) && CeilingsCover(o, [e], p)
            && InTime(host, p.ticks, p.ticks + Reads(e)) && NameFree(host, e, p.seenLower)
            && GoesThrough(host, o, rest, q)
  {
    CeilingsSplit(o, [e], rest, p, q);
    TotalOfOne(Reads, e);
    TotalAppend(Reads, [e], rest);
    VisitedAppend([e], rest);
    VisitedOfOne(e);
    if e.Visit? {
      var v := [Entry(e.rel, e.node)] + Visited(rest);
      assert v[1..] == Visited(rest);
      if e.node.File? || e.node.Dir? {
        assert Registered(v) == [e.rel] + Registered(Visited(rest));
        assert Registered(v)[1..] == Registered(Visited(rest));
      } else {
        EmptyPrefix(Registered(Visited(rest)));
      }
    } else {
      EmptyPrefix(Visited(rest));
    }
    assert forall x :: x in [e] + rest <==> x == e || x in rest;
  }

  /** A run goes through exactly when every event is acceptable on its own, the
      ceilings cover the totals, the clock never runs out and no names collide. */
  lemma {:induction false} RunIff(host: Host, o: Options, events: seq<Event>, p: Progress)
    ensures Run(Stepping(host, o), events, p).Running? <==> GoesThrough(host, o, events, p)
  {
    if events != [] {
      var e, rest := events[0], events[1..];
      assert [e] + rest == events;
      StepIff(host, o, e, p);
      var out := Step(host, o, e, p);
      if out.Running? {
        StepCounts(host, o, e, p);
        StepRegisters(host, o, e, p);
        GoesThroughSplit(host, o, e, rest, p, out.progress);
        RunIff(host, o, rest, out.progress);
      } else {
        GoesThroughNeedsFirst(host, o, e, rest, p);
      }
    }
  }

  lemma GoesThroughNeedsFirst(host: Host, o: Options, e: Event, rest: seq<Event>, p: Progress)
    ensures GoesThrough(host, o, [e] + rest, p) ==>
            && LocallyOk(host, o, e) && CeilingsCover(o, [e], p)
            && InTime(host, p.ticks, p.ticks + Reads(e)) && NameFree(host, e, p.seenLower)
  {
    var q := p.(
      counts := p.counts.(
        files := p.counts.files + Sum(IsFile, Visited([e])),
        directories := p.counts.directories + Sum(IsDir, Visited([e])),
        excluded := p.counts.excluded + Total(Exclusion(Excluding(o)), [e]),
        bytes := p.counts.bytes + Sum(Size, Visited([e])),
        skippedSymlinks := p.counts.skippedSymlinks + Sum(IsSymlink, Visited([e])),
        hardLinkedFiles := p.counts.hardLinkedFiles + Sum(IsLinkedFile, Visited([e]))),
      scanned := p.scanned + Sum(One, Visited([e])),
      ticks := p.ticks + Total(Reads, [e]),
      seenLower := SeenAfter(host, e, p.seenLower));
    GoesThroughSplit(host, o, e, rest, p, q);
  }

  // ---- The same, on the flat listing ----

  /** What one kept entry needs, whatever the rest of the tree. */
  predicate Acceptable(host: Host, o: Options, e: Entry) {
    && Depth(e.path) <= o.limits.maxDepth && |e.path| <= o.limits.maxPathLength
    && LocallyOk(host, o, Visit(e.path, e.node))
    && (e.node.Dir? ==> !host.readdirFails(e.path))
  }

  ghost predicate AllLocal(host: Host, o: Options, events: seq<Event>) {
    forall e <- events :: LocallyOk(host, o, e)
  }

  ghost predicate AllAcceptable(host: Host, o: Options, entries: seq<Entry>) {
    forall e <- entries :: Acceptable(host, o, e)
  }

  lemma AllLocalAppend(host: Host, o: Options, a: seq<Event>, b: seq<Event>)
    ensures AllLocal(host, o, a + b) <==> AllLocal(host, o, a) && AllLocal(host, o, b)
  {
    assert forall x :: x in a + b <==> x in a || x in b;
  }

  lemma AllAcceptableAppend(host: Host, o: Options, a: seq<Entry>, b: seq<Entry>)
    ensures AllAcceptable(host, o, a + b) <==> AllAcceptable(host, o, a) && AllAcceptable(host, o, b)
  {
    assert forall x :: x in a + b <==> x in a || x in b;
  }

  lemma {:induction false} VisitsLocally(host: Host, o: Options, rel: Text, f: Forest)
    ensures AllLocal(host, o, Scans(rel, f)) && AllLocal(host, o, Visits(Excluding(o), rel, f)) <==>
            AllAcceptable(host, o, Visited(Visits(Excluding(o), rel, f)))
    decreases f, 0
  {
    if f.Cons? {
      hide LocallyOk;
      var ex := Excluding(o);
      var c := Child(rel, f.name);
      VisitsLocally(host, o, rel, f.rest);
      AllLocalAppend(host, o, [Scan(c)], Scans(rel, f.rest));
      if ex(c) {
        EmptyPrefix(Visits(ex, rel, f.rest));
        ScanLocally(host, o, c);
      } else {
        ScanLocally(host, o, c);
        var own := if f.node.Dir? then Tour(ex, c, f.node.children) else [];
        AllLocalAppend(host, o, Subtree(ex, c, f.node), Visits(ex, rel, f.rest));
        AllLocalAppend(host, o, [Visit(c, f.node)], own);
        VisitedAppend(Subtree(ex, c, f.node), Visits(ex, rel, f.rest));
        VisitedAppend([Visit(c, f.node)], own);
        VisitedOfOne(Visit(c, f.node));
        AllAcceptableAppend(host, o, Visited(Subtree(ex, c, f.node)), Visited(Visits(ex, rel, f.rest)));
        AllAcceptableAppend(host, o, [Entry(c, f.node)], Visited(own));
        SingleLocally(host, o, c, f.node);
        if f.node.Dir? {
          TourLocally(host, o, c, f.node.children);
        }
      }
    }
  }

  lemma SingleLocally(host: Host, o: Options, c: Text, node: Node)
    ensures AllLocal(host, o, [Visit(c, node)]) <==> LocallyOk(host, o, Visit(c, node))
    ensures AllAcceptable(host, o, [Entry(c, node)]) <==> Acceptable(host, o, Entry(c, node))
  {
    assert AllLocal(host, o, [Visit(c, node)]) <==> LocallyOk(host, o, [Visit(c, node)][0]);
    assert AllAcceptable(host, o, [Entry(c, node)]) <==> Acceptable(host, o, [Entry(c, node)][0]);
  }

  lemma ScanLocally(host: Host, o: Options, c: Text)
    ensures AllLocal(host, o, [Scan(c)]) <==>
            Excluding(o)(c) || (Depth(c) <= o.limits.maxDepth && |c| <= o.limits.maxPathLength)
  {
    assert AllLocal(host, o, [Scan(c)]) <==> LocallyOk(host, o, [Scan(c)][0]);
  }

  lemma {:induction false} TourLocally(host: Host, o: Options, rel: Text, f: Forest)
    ensures AllLocal(host, o, Tour(Excluding(o), rel, f)) <==>
            !host.readdirFails(rel) && AllAcceptable(host, o, Visited(Tour(Excluding(o), rel, f)))
    decreases f, 1
  {
    VisitsLocally(host, o, rel, f);
    TourVisits(Excluding(o), rel, f);
    AllLocalAppend(host, o, Listing(rel, f), Visits(Excluding(o), rel, f));
    AllLocalAppend(host, o, [Open(rel)], Scans(rel, f));
    assert AllLocal(host, o, [Open(rel)]) <==> LocallyOk(host, o, [Open(rel)][0]);
  }

  /** Each listed child is scanned once; each kept one is visited once more. */
  lemma {:induction false} EventTotals(ex: Text -> bool, rel: Text, f: Forest)
    ensures Total(Exclusion(ex), Scans(rel, f)) + Total(Exclusion(ex), Visits(ex, rel, f)) == Frontier(ex, rel, f)
    ensures Total(Reads, Scans(rel, f)) + Total(Reads, Visits(ex, rel, f)) ==
            Frontier(ex, rel, f) + 2 * |Visited(Visits(ex, rel, f))|
    decreases f, 0
  {
    if f.Cons? {
      var c := Child(rel, f.name);
      EventTotals(ex, rel, f.rest);
      TotalAppend(Exclusion(ex), [Scan(c)], Scans(rel, f.rest));
      TotalAppend(Reads, [Scan(c)], Scans(rel, f.rest));
      TotalOfOne(Exclusion(ex), Scan(c));
      TotalOfOne(Reads, Scan(c));
      if ex(c) {
        EmptyPrefix(Visits(ex, rel, f.rest));
      } else {
        var own := if f.node.Dir? then Tour(ex, c, f.node.children) else [];
        SubtreeTotals(ex, c, f.node, Visits(ex, rel, f.rest));
        if f.node.Dir? {
          TourTotals(ex, c, f.node.children);
        }
      }
    }
  }

  lemma SubtreeTotals(ex: Text -> bool, c: Text, node: Node, rest: seq<Event>)
    ensures var own := if node.Dir? then Tour(ex, c, node.children) else [];
            && Total(Exclusion(ex), Subtree(ex, c, node) + rest) ==
                 Total(Exclusion(ex), own) + Total(Exclusion(ex), rest)
            && Total(Reads, Subtree(ex, c, node) + rest) == 1 + Total(Reads, own) + Total(Reads, rest)
            && |Visited(Subtree(ex, c, node) + rest)| == 1 + |Visited(own)| + |Visited(rest)|
  {
    var own := if node.Dir? then Tour(ex, c, node.children) else [];
    TotalAppend(Exclusion(ex), Subtree(ex, c, node), rest);
    TotalAppend(Reads, Subtree(ex, c, node), rest);
    VisitedAppend(Subtree(ex, c, node), rest);
    TotalAppend(Exclusion(ex), [Visit(c, node)], own);
    TotalAppend(Reads, [Visit(c, node)], own);
    VisitedAppend([Visit(c, node)], own);
    TotalOfOne(Exclusion(ex), Visit(c, node));
    TotalOfOne(Reads, Visit(c, node));
    VisitedOfOne(Visit(c, node));
  }

  lemma {:induction false} TourTotals(ex: Text -> bool, rel: Text, f: Forest)
    ensures Total(Exclusion(ex), Tour(ex, rel, f)) == Frontier(ex, rel, f)
    ensures Total(Reads, Tour(ex, rel, f)) == Frontier(ex, rel, f) + 2 * |Visited(Tour(ex, rel, f))|
    decreases f, 1
  {
    EventTotals(ex, rel, f);
    TourVisits(ex, rel, f);
    TotalAppend(Exclusion(ex), Listing(rel, f), Visits(ex, rel, f));
    TotalAppend(Reads, Listing(rel, f), Visits(ex, rel, f));
    TotalAppend(Exclusion(ex), [Open(rel)], Scans(rel, f));
    TotalAppend(Reads, [Open(rel)], Scans(rel, f));
    TotalOfOne(Exclusion(ex), Open(rel));
    TotalOfOne(Reads, Open(rel));
  }

  lemma {:induction false} SumOfOnes(v: seq<Entry>)
    ensures Sum(One, v) == |v|
  {
    if v != [] {
      SumOfOnes(v[1..]);
    }
  }

  /** Equal in lower case only if equal. */
  ghost predicate CaseDistinct(host: Host, names: seq<Text>) {
    forall i, j :: 0 <= i < j < |names| && host.lower(names[i]) == host.lower(names[j]) ==> names[i] == names[j]
  }

  lemma {:induction false} NoCollisionIff(host: Host, names: seq<Text>, seen: map<Text, Text>)
    ensures NoCollision(host, names, seen) <==>
            && CaseDistinct(host, names)
            && (forall n <- names :: host.lower(n) in seen ==> seen[host.lower(n)] == n)
  {
    if names != [] {
      var first, rest := names[0], names[1..];
      NoCollisionIff(host, rest, seen[host.lower(first) := first]);
      assert forall n <- rest :: n in names;
      if CaseDistinct(host, names) {
        assert forall i :: 0 <= i < |rest| ==> rest[i] == names[i + 1];
      }
      if NoCollision(host, names, seen) {
        forall i, j | 0 <= i < j < |names| && host.lower(names[i]) == host.lower(names[j])
          ensures names[i] == names[j]
        {
          assert names[j] == rest[j - 1];
          if i > 0 {
            assert names[i] == rest[i - 1];
          }
        }
      }
    }
  }

  /** The conditions for a copy to succeed, on the kept entries alone. */
  ghost predicate Admissible(host: Host, o: Options, root: Forest) {
    var v := Kept(Excluding(o), root);
    var pruned := Frontier(Excluding(o), [], root);
    && !host.readdirFails([])
    && AllAcceptable(host, o, v)
    && (pruned == 0 || pruned <= o.limits.maxExcludedEntries)
    && (|v| == 0 || |v| <= o.limits.maxFiles + o.limits.maxExcludedEntries)
    && (Sum(IsFile, v) == 0 || Sum(IsFile, v) <= o.limits.maxFiles)
    && (Sum(IsFile, v) == 0 || Sum(Size, v) <= o.limits.maxBytes)
    && InTime(host, 0, 1 + pruned + 2 * |v|)
    && CaseDistinct(host, Registered(v))
  }

  function FullRun(host: Host, o: Options, root: Forest): Outcome {
    Run(Stepping(host, o), Events(Excluding(o), root), START)
  }

  /** The copy succeeds exactly on admissible trees. */
  lemma CopySucceedsIff(host: Host, o: Options, root: Forest)
    requires WellFormedForest(root)
    ensures FullRun(host, o, root).Running? <==> Admissible(host, o, root)
  {
    hide Acceptable, LocallyOk, Tour, Total, Sum, NoCollision, CaseDistinct, Frontier, Filter, AllEntries, Events;
    var ex := Excluding(o);
    var events := Events(ex, root);
    RunIff(host, o, events, START);
    PruningIsFiltering(o, root);
    FullTotals(ex, root);
    FullLocally(host, o, root);
    NoCollisionIff(host, Registered(Visited(events)), map[]);
    SumOfOnes(Visited(events));
    assert GoesThrough(host, o, events, START) <==>
           && AllLocal(host, o, events) && CeilingsCover(o, events, START)
           && InTime(host, 0, Total(Reads, events))
           && NoCollision(host, Registered(Visited(events)), map[]);
  }

  lemma FullTotals(ex: Text -> bool, root: Forest)
    ensures Total(Exclusion(ex), Events(ex, root)) == Frontier(ex, [], root)
    ensures Total(Reads, Events(ex, root)) == 1 + Frontier(ex, [], root) + 2 * |Visited(Events(ex, root))|
    ensures Visited(Events(ex, root)) == Visited(Tour(ex, [], root))
  {
    TourTotals(ex, [], root);
    TotalAppend(Exclusion(ex), [Begin], Tour(ex, [], root));
    TotalAppend(Reads, [Begin], Tour(ex, [], root));
    TotalOfOne(Exclusion(ex), Begin);
    TotalOfOne(Reads, Begin);
    VisitedAppend([Begin], Tour(ex, [], root));
    VisitedOfOne(Begin);
    EmptyPrefix(Visited(Tour(ex, [], root)));
  }

  lemma FullLocally(host: Host, o: Options, root: Forest)
    ensures AllLocal(host, o, Events(Excluding(o), root)) <==>
            !host.readdirFails([]) && AllAcceptable(host, o, Visited(Events(Excluding(o), root)))
  {
    var ex := Excluding(o);
    FullTotals(ex, root);
    TourLocally(host, o, [], root);
    AllLocalAppend(host, o, [Begin], Tour(ex, [], root));
    assert AllLocal(host, o, [Begin]);
  }

  /** A successful copy places exactly the kept directories and files, in the
      order of the sorted recursive listing, and counts what it did. It digests
      all files, but leaves one of the path `__proto__` out of the record. */
  lemma CopyDelivers(host: Host, o: Options, root: Forest)
    requires WellFormedForest(root)
    requires FullRun(host, o, root).Running?
    ensures var q, v := FullRun(host, o, root).progress, Kept(Excluding(o), root);
            && q.placed == Effects(v)
            && (o.digests ==> q.aggregate == DigestText(host, v) && DigestsRecorded(host, v, q.fileDigests))
            && q.counts.files == Sum(IsFile, v)
            && q.counts.directories == Sum(IsDir, v)
            && q.counts.skippedSymlinks == Sum(IsSymlink, v)
            && q.counts.hardLinkedFiles == Sum(IsLinkedFile, v)
            && q.counts.bytes == Sum(Size, v)
            && q.counts.excluded == Frontier(Excluding(o), [], root)
            && q.scanned == |v| == q.counts.files + q.counts.directories + q.counts.skippedSymlinks
  {
    var ex := Excluding(o);
    var events := Events(ex, root);
    RunAccounts(host, o, events, START);
    RunIff(host, o, events, START);
    PruningIsFiltering(o, root);
    FullTotals(ex, root);
    var v := Visited(events);
    SumOfOnes(v);
    forall path {
      DigestMapIff(host, v, map[], path);
    }
    EmptyPrefix(Effects(v));
    EmptyPrefix(DigestText(host, v));
    VisitsAreLocal(host, o, events);
    KindsAddUp(host, o, v);
  }

  lemma {:induction false} VisitsAreLocal(host: Host, o: Options, events: seq<Event>)
    requires AllLocal(host, o, events)
    ensures forall e <- Visited(events) :: LocallyOk(host, o, Visit(e.path, e.node))
  {
    if events != [] {
      assert LocallyOk(host, o, events[0]);
      VisitsAreLocal(host, o, events[1..]);
    }
  }

  lemma {:induction false} KindsAddUp(host: Host, o: Options, v: seq<Entry>)
    requires forall e <- v :: LocallyOk(host, o, Visit(e.path, e.node))
    ensures |v| == Sum(IsFile, v) + Sum(IsDir, v) + Sum(IsSymlink, v)
  {
    if v != [] {
      assert LocallyOk(host, o, Visit(v[0].path, v[0].node));
      KindsAddUp(host, o, v[1..]);
    }
  }
}
