/** The single-flight schedulers of the service: the game lane, which must not
    lose a wake-up, and the inner life beside it. */
module Lane {
  import opened Wrappers

  const SCHEDULER_POLL_MS := 60000
  const AFTERGLOW_POLL_MS := 120000

  /** How far apart polls keep the starts of ticks or passes. */
  function IntervalMs(thalamus: bool): int {
    if thalamus then SCHEDULER_POLL_MS else AFTERGLOW_POLL_MS
  }

  // ---- The game lane ----

  /** What an observer sees of starts and ends, and of the lane's requests.
      Refused: a poll on demand came while the lane was switched off or paused. */
  datatype Mark = Requested | Refused | Started(ms: int, onDemand: bool, thalamus: bool) | Finished

  datatype State = State(
    running: bool, again: bool, lastPollMs: int, immediates: nat, enabled: bool, paused: bool, marks: seq<Mark>)

  /** What can happen, in any order and at any time. */
  datatype Event =
    | Arrival(ms: int)
    | HandlerDone
    | Immediate(ms: int)
    | Maintenance(ms: int)
    | TickDone
    | Switch(enabled: bool)
    | Pause(paused: bool)

  predicate Open(s: State) {
    s.enabled && !s.paused
  }

  function See(s: State, m: Mark): State {
    s.(marks := s.marks + [m])
  }

  function Poll(s: State, ms: int, now: bool): State {
    if !Open(s) then if now then See(s, Refused) else s
    else if s.running then s.(again := s.again || now)
    else if !now && ms - s.lastPollMs < SCHEDULER_POLL_MS then s
    else See(s, Started(ms, now, true)).(running := true, again := false, lastPollMs := ms)
  }

  function Step(s: State, e: Event): State {
    match e
    case Arrival(ms) => Poll(See(s, Requested), ms, true)
    case HandlerDone => See(s, Requested).(immediates := s.immediates + 1)
    case Immediate(ms) => if s.immediates == 0 then s else Poll(s.(immediates := s.immediates - 1), ms, true)
    case Maintenance(ms) => Poll(s, ms, false)
    case TickDone =>
      if !s.running then s
      else See(s, Finished).(running := false, immediates := s.immediates + if s.again then 1 else 0)
    case Switch(enabled) => s.(enabled := enabled)
    case Pause(paused) => s.(paused := paused)
  }

  function Run(s: State, events: seq<Event>): State
    decreases |events|
  {
    if events == [] then s else Run(Step(s, events[0]), events[1..])
  }

  function Initial(enabled: bool, paused: bool): State {
    State(false, false, 0, 0, enabled, paused, [])
  }

  /** The closures of the source, with the three variables they share and the
      queue of deferred calls. */
  class Scheduler {
    var laneRunning: bool
    var laneAgain: bool
    var laneLastPollMs: int
    var immediates: nat
    var enabled: bool
    var paused: bool
    ghost var marks: seq<Mark>

    constructor (enabled: bool, paused: bool)
      ensures Now() == Initial(enabled, paused)
    {
      laneRunning, laneAgain, laneLastPollMs, immediates := false, false, 0, 0;
      this.enabled, this.paused, marks := enabled, paused, [];
    }

    ghost function Now(): State
      reads this
    {
      State(laneRunning, laneAgain, laneLastPollMs, immediates, enabled, paused, marks)
    }

    method PollDomusLane(nowMs: int, now: bool)
      modifies this
      ensures Now() == Poll(old(Now()), nowMs, now)
    {
      if !enabled || paused {
        marks := if now then marks + [Refused] else marks;
        return;
      }
      if laneRunning {
        laneAgain := laneAgain || now;
        return;
      }
      if !now && nowMs - laneLastPollMs < SCHEDULER_POLL_MS {
        return;
      }
      laneRunning := true;
      laneAgain := false;
      laneLastPollMs := nowMs;
      marks := marks + [Started(nowMs, now, true)];
    }

    method OnTickDone()
      modifies this
      ensures Now() == Step(old(Now()), TickDone)
    {
      if laneRunning {
        laneRunning := false;
        marks := marks + [Finished];
        if laneAgain {
          immediates := immediates + 1;
        }
      }
    }

    method OnImmediate(nowMs: int)
      modifies this
      ensures Now() == Step(old(Now()), Immediate(nowMs))
    {
      if immediates > 0 {
        immediates := immediates - 1;
        PollDomusLane(nowMs, true);
      }
    }

    method OnDomusArrival(nowMs: int)
      modifies this
      ensures Now() == Step(old(Now()), Arrival(nowMs))
    {
      marks := marks + [Requested];
      PollDomusLane(nowMs, true);
    }

    method OnHandlerDone()
      modifies this
      ensures Now() == Step(old(Now()), HandlerDone)
    {
      marks := marks + [Requested];
      immediates := immediates + 1;
    }
  }

  // ---- What the marks say ----

  /** Some request has no start after it. */
  ghost predicate Owed(marks: seq<Mark>) {
    exists i :: 0 <= i < |marks| && marks[i] == Requested && NoStartAfter(marks, i)
  }

  predicate NoStartAfter(marks: seq<Mark>, i: nat) {
    forall k | i < k < |marks| :: !marks[k].Started?
  }

  /** A poll on demand was refused and nothing has started since. */
  ghost predicate RefusedSinceStart(marks: seq<Mark>) {
    exists i :: 0 <= i < |marks| && marks[i] == Refused && NoStartAfter(marks, i)
  }

  function InFlight(marks: seq<Mark>): int {
    if marks == [] then 0
    else InFlight(marks[..|marks| - 1]) +
         match marks[|marks| - 1] case Started(_, _, _) => 1 case Finished => -1 case _ => 0
  }

  function LastStart(marks: seq<Mark>): int {
    if marks == [] then 0
    else if marks[|marks| - 1].Started? then marks[|marks| - 1].ms else LastStart(marks[..|marks| - 1])
  }

  /** Never two ticks, and a start that was not on demand keeps the interval
      after the start before it. */
  ghost predicate Orderly(marks: seq<Mark>) {
    && (forall n | 0 <= n <= |marks| :: 0 <= InFlight(marks[..n]) <= 1)
    && (forall i | 0 <= i < |marks| && marks[i].Started? && !marks[i].onDemand ::
          marks[i].ms - LastStart(marks[..i]) >= IntervalMs(marks[i].thalamus))
  }

  /** A start is certain to follow. */
  predicate Covered(s: State) {
    (s.again && s.running) || s.immediates > 0
  }

  ghost predicate Sound(s: State) {
    && Orderly(s.marks)
    && InFlight(s.marks) == (if s.running then 1 else 0)
    && LastStart(s.marks) == s.lastPollMs
    && (Owed(s.marks) && !RefusedSinceStart(s.marks) ==> Covered(s))
  }

  lemma MarksSnoc(marks: seq<Mark>, m: Mark)
    ensures InFlight(marks + [m]) ==
            InFlight(marks) + match m case Started(_, _, _) => 1 case Finished => -1 case _ => 0
    ensures LastStart(marks + [m]) == if m.Started? then m.ms else LastStart(marks)
    ensures Orderly(marks) ==>
              (Orderly(marks + [m]) <==>
               && 0 <= InFlight(marks + [m]) <= 1
               && (m.Started? && !m.onDemand ==> m.ms - LastStart(marks) >= IntervalMs(m.thalamus)))
  {
    var more := marks + [m];
    assert more[..|marks|] == marks && more[..|more|] == more;
    assert forall n | 0 <= n <= |marks| :: more[..n] == marks[..n];
    assert forall i | 0 <= i < |marks| :: more[i] == marks[i];
  }

  lemma OwedSnoc(marks: seq<Mark>, m: Mark)
    ensures Owed(marks + [m]) <==> m == Requested || (!m.Started? && Owed(marks))
    ensures RefusedSinceStart(marks + [m]) <==> m == Refused || (!m.Started? && RefusedSinceStart(marks))
  {
    var more := marks + [m];
    assert forall i | 0 <= i < |marks| :: more[i] == marks[i];
    assert forall i | 0 <= i < |marks| :: NoStartAfter(more, i) <==> NoStartAfter(marks, i) && !m.Started? by {
      forall i | 0 <= i < |marks| ensures NoStartAfter(more, i) <==> NoStartAfter(marks, i) && !m.Started? {
        assert more[|marks|] == m;
      }
    }
    assert NoStartAfter(more, |marks|) && more[|marks|] == m;
    if Owed(marks) && !m.Started? {
      var i :| 0 <= i < |marks| && marks[i] == Requested && NoStartAfter(marks, i);
      assert more[i] == Requested && NoStartAfter(more, i);
    }
    if RefusedSinceStart(marks) && !m.Started? {
      var i :| 0 <= i < |marks| && marks[i] == Refused && NoStartAfter(marks, i);
      assert more[i] == Refused && NoStartAfter(more, i);
    }
  }

  lemma SeeSnoc(s: State, m: Mark)
    ensures See(s, m).marks == s.marks + [m]
    ensures Owed(See(s, m).marks) <==> m == Requested || (!m.Started? && Owed(s.marks))
    ensures RefusedSinceStart(See(s, m).marks) <==> m == Refused || (!m.Started? && RefusedSinceStart(s.marks))
  {
    OwedSnoc(s.marks, m);
  }

  /** A poll on demand leaves nothing owed uncovered, unless it was refused. */
  lemma PollIsSound(s: State, ms: int, now: bool)
    requires Orderly(s.marks) && InFlight(s.marks) == (if s.running then 1 else 0)
    requires LastStart(s.marks) == s.lastPollMs
    requires now || (Owed(s.marks) && !RefusedSinceStart(s.marks) ==> Covered(s))
    ensures Sound(Poll(s, ms, now))
  {
    hide Orderly, Owed, RefusedSinceStart;
    MarksSnoc(s.marks, Refused);
    MarksSnoc(s.marks, Started(ms, now, true));
    OwedSnoc(s.marks, Refused);
    OwedSnoc(s.marks, Started(ms, now, true));
  }

  lemma RequestIsSound(s: State)
    requires Sound(s)
    ensures var t := See(s, Requested);
            && Orderly(t.marks) && InFlight(t.marks) == (if t.running then 1 else 0)
            && LastStart(t.marks) == t.lastPollMs && Sound(t.(immediates := t.immediates + 1))
  {
    hide Orderly, Owed, RefusedSinceStart;
    MarksSnoc(s.marks, Requested);
  }

  lemma TickDoneIsSound(s: State)
    requires Sound(s)
    ensures Sound(Step(s, TickDone))
  {
    hide Orderly, Owed, RefusedSinceStart;
    MarksSnoc(s.marks, Finished);
    OwedSnoc(s.marks, Finished);
  }

  lemma StepIsSound(s: State, e: Event)
    requires Sound(s)
    ensures Sound(Step(s, e))
  {
    hide Orderly, Owed, RefusedSinceStart, Poll;
    match e
    case Arrival(ms) =>
      RequestIsSound(s);
      PollIsSound(See(s, Requested), ms, true);
    case HandlerDone => RequestIsSound(s);
    case Immediate(ms) =>
      if s.immediates > 0 {
        PollIsSound(s.(immediates := s.immediates - 1), ms, true);
      }
    case Maintenance(ms) => PollIsSound(s, ms, false);
    case TickDone => TickDoneIsSound(s);
    case _ =>
  }

  /** On every run, from the start: one tick at a time, maintenance keeps the
      interval, and whatever is owed is covered unless a poll was refused since
      the last start. */
  lemma {:induction false} EveryRunIsSound(s: State, events: seq<Event>)
    requires Sound(s)
    ensures Sound(Run(s, events))
    decreases |events|
  {
    hide Sound, Step;
    if events != [] {
      StepIsSound(s, events[0]);
      EveryRunIsSound(Step(s, events[0]), events[1..]);
    }
  }

  lemma InitialIsSound(enabled: bool, paused: bool)
    ensures Sound(Initial(enabled, paused))
  {
  }

  predicate NeverClosed(events: seq<Event>) {
    forall e <- events :: (e.Switch? ==> e.enabled) && (e.Pause? ==> !e.paused)
  }

  lemma StepStaysOpen(s: State, e: Event)
    requires Open(s) && (e.Switch? ==> e.enabled) && (e.Pause? ==> !e.paused)
    ensures Open(Step(s, e))
    ensures RefusedSinceStart(Step(s, e).marks) ==> RefusedSinceStart(s.marks)
  {
    hide RefusedSinceStart;
    SeeSnoc(s, Requested);
    SeeSnoc(s, Finished);
    var t := See(s, Requested);
    if e.Arrival? {
      SeeSnoc(t, Started(e.ms, true, true));
    } else if e.Immediate? {
      SeeSnoc(s.(immediates := s.immediates - if s.immediates > 0 then 1 else 0), Started(e.ms, true, true));
    } else if e.Maintenance? {
      SeeSnoc(s, Started(e.ms, false, true));
    }
  }

  lemma {:induction false} OpenRunsRefuseNothing(s: State, events: seq<Event>)
    requires Open(s) && NeverClosed(events) && !RefusedSinceStart(s.marks)
    ensures Open(Run(s, events)) && !RefusedSinceStart(Run(s, events).marks)
    decreases |events|
  {
    hide Step, RefusedSinceStart;
    if events != [] {
      StepStaysOpen(s, events[0]);
      OpenRunsRefuseNothing(Step(s, events[0]), events[1..]);
    }
  }

  /** While enabled and not paused no wake-up is lost. */
  lemma NoWakeUpIsLost(events: seq<Event>)
    requires NeverClosed(events)
    ensures Owed(Run(Initial(true, false), events).marks) ==> Covered(Run(Initial(true, false), events))
  {
    hide Run, Owed;
    InitialIsSound(true, false);
    EveryRunIsSound(Initial(true, false), events);
    OpenRunsRefuseNothing(Initial(true, false), events);
  }

  /** What covers a request: once the tick that is running ends, the deferred
      poll starts the next one. */
  lemma CoveredIsServed(s: State, ms: int)
    requires Open(s) && Covered(s)
    ensures var served := Step(Step(s, TickDone), Immediate(ms));
            && served.running && served.lastPollMs == ms
            && served.marks[|served.marks| - 1] == Started(ms, true, true)
            && !Owed(served.marks)
  {
    hide Owed;
    var t := Step(s, TickDone);
    SeeSnoc(t.(immediates := t.immediates - 1), Started(ms, true, true));
  }

  /** Whatever is owed is certain to be followed by a start. */
  ghost predicate Kept(s: State) {
    Owed(s.marks) ==> Covered(s)
  }

  /** The event loses a wake-up: the lane is closed to a poll on demand, and
      nothing else covers what is owed. */
  ghost predicate Drops(s: State, e: Event) {
    match e
    case Arrival(_) => !Open(s) && !Covered(s)
    case Immediate(_) =>
      && s.immediates > 0 && !Open(s) && Owed(s.marks)
      && !Covered(s.(immediates := s.immediates - 1))
    case _ => false
  }

  /** The event makes up for a wake-up lost before: it starts a tick, or covers
      what is owed. */
  predicate Restores(s: State, e: Event) {
    match e
    case Arrival(_) => Open(s)
    case HandlerDone => true
    case Maintenance(ms) => Open(s) && !s.running && ms - s.lastPollMs >= SCHEDULER_POLL_MS
    case _ => false
  }

  /** An arrival is kept, started at once or covered, exactly when the lane is
      open or something else already covers it. */
  lemma ArrivalIsKeptIff(s: State, ms: int)
    ensures Kept(Step(s, Arrival(ms))) <==> Open(s) || Covered(s)
  {
    hide Owed;
    SeeSnoc(s, Requested);
    var t := See(s, Requested);
    SeeSnoc(t, Refused);
    SeeSnoc(t, Started(ms, true, true));
  }

  /** A deferred poll keeps what is owed exactly when the lane is open or
      something else covers it. */
  lemma ImmediateIsKeptIff(s: State, ms: int)
    requires s.immediates > 0
    ensures Kept(Step(s, Immediate(ms))) <==>
            Open(s) || Covered(s.(immediates := s.immediates - 1)) || !Owed(s.marks)
  {
    hide Owed;
    var t := s.(immediates := s.immediates - 1);
    SeeSnoc(t, Refused);
    SeeSnoc(t, Started(ms, true, true));
  }

  /** Step by step: what was kept is lost exactly when the event drops it, and
      what was lost is kept again exactly when the event restores it. */
  lemma StepKeepsIff(s: State, e: Event)
    ensures Kept(Step(s, e)) <==> if Kept(s) then !Drops(s, e) else Restores(s, e)
  {
    hide Owed;
    match e
    case Arrival(ms) => ArrivalIsKeptIff(s, ms);
    case Immediate(ms) =>
      if s.immediates > 0 {
        ImmediateIsKeptIff(s, ms);
      }
    case Maintenance(ms) => SeeSnoc(s, Started(ms, false, true));
    case TickDone => SeeSnoc(s, Finished);
    case _ =>
  }

  lemma {:induction false} RunSnoc(s: State, events: seq<Event>, e: Event)
    ensures Run(s, events + [e]) == Step(Run(s, events), e)
    decreases |events|
  {
    hide Step;
    if events == [] {
      assert [e][1..] == [];
    } else {
      assert (events + [e])[1..] == events[1..] + [e];
      RunSnoc(Step(s, events[0]), events[1..], e);
    }
  }

  /** A wake-up is dropped at the event and not made up for afterwards. */
  ghost predicate LostAt(s: State, events: seq<Event>, i: int) {
    && 0 <= i < |events| && Drops(Run(s, events[..i]), events[i])
    && forall j | i < j < |events| :: !Restores(Run(s, events[..j]), events[j])
  }

  lemma LostAtSnoc(s: State, events: seq<Event>, e: Event, i: int)
    ensures LostAt(s, events + [e], i) <==>
            || (i == |events| && Drops(Run(s, events), e))
            || (LostAt(s, events, i) && !Restores(Run(s, events), e))
  {
    hide Run, Drops, Restores;
    var more := events + [e];
    assert more[..|events|] == events;
    assert forall j | 0 <= j < |events| :: more[..j] == events[..j] && more[j] == events[j];
  }

  /** On every run that starts with nothing lost, whatever is switched or paused
      on the way: a wake-up is lost in the end exactly when some event dropped it
      while the lane was closed and no later event made up for it. */
  lemma {:induction false} WakeUpIsLostIff(s: State, events: seq<Event>)
    requires Kept(s)
    ensures !Kept(Run(s, events)) <==> exists i :: LostAt(s, events, i)
    decreases |events|
  {
    hide Kept, LostAt, Drops, Restores;
    if events == [] {
      NothingIsLostAtOnce(s);
    } else {
      var init, e := events[..|events| - 1], events[|events| - 1];
      assert events == init + [e];
      WakeUpIsLostIff(s, init);
      RunSnoc(s, init, e);
      StepKeepsIff(Run(s, init), e);
      DroppedIsNotRestored(Run(s, init), e);
      forall i { LostAtSnoc(s, init, e, i); }
      if Drops(Run(s, init), e) {
        assert LostAt(s, events, |init|);
      } else if !Restores(Run(s, init), e) && !Kept(Run(s, init)) {
        var i :| LostAt(s, init, i);
        assert LostAt(s, events, i);
      }
    }
  }

  lemma NothingIsLostAtOnce(s: State)
    ensures forall i :: !LostAt(s, [], i)
  {
  }

  lemma DroppedIsNotRestored(s: State, e: Event)
    ensures Drops(s, e) ==> !Restores(s, e) && (Kept(s) || e.Arrival?)
  {
  }

  /** A pause between a request and its deferred poll loses the wake-up: after
      resuming it is owed, nothing runs and nothing is queued. */
  lemma PauseLosesAWakeUp()
    ensures var s := Run(Initial(true, false),
                         [Arrival(100000), Arrival(100001), TickDone, Pause(true), Immediate(100002), Pause(false)]);
            Open(s) && !s.running && !Kept(s)
  {
    var s1 := Step(Initial(true, false), Arrival(100000));
    var s2 := Step(s1, Arrival(100001));
    var s3 := Step(s2, TickDone);
    var s4 := Step(s3, Pause(true));
    var s5 := Step(s4, Immediate(100002));
    var s6 := Step(s5, Pause(false));
    RunSix(Initial(true, false),
           Arrival(100000), Arrival(100001), TickDone, Pause(true), Immediate(100002), Pause(false));
    assert s6.marks == [Requested, Started(100000, true, true), Requested, Finished, Refused];
    assert s6.marks[2] == Requested && NoStartAfter(s6.marks, 2);
  }

  lemma RunSix(s: State, a: Event, b: Event, c: Event, d: Event, e: Event, f: Event)
    ensures Run(s, [a, b, c, d, e, f]) == Step(Step(Step(Step(Step(Step(s, a), b), c), d), e), f)
  {
    hide Step;
    assert [a, b, c, d, e, f] == [a, b, c] + [d, e, f];
    RunThree(s, a, b, c, [d, e, f]);
    assert [d, e, f] + [] == [d, e, f];
    RunThree(Step(Step(Step(s, a), b), c), d, e, f, []);
  }

  lemma RunThree(s: State, a: Event, b: Event, c: Event, more: seq<Event>)
    ensures Run(s, [a, b, c] + more) == Run(Step(Step(Step(s, a), b), c), more)
  {
    assert [a, b, c] + more == [a] + ([b] + ([c] + more));
    RunCons(s, a, [b] + ([c] + more));
    RunCons(Step(s, a), b, [c] + more);
    RunCons(Step(Step(s, a), b), c, more);
  }

  lemma RunCons(s: State, a: Event, more: seq<Event>)
    ensures Run(s, [a] + more) == Run(Step(s, a), more)
  {
    assert ([a] + more)[1..] == more;
  }

  /** When a tick starts: at a poll that finds the lane open and idle, at once on
      demand, and for maintenance a minute after the last start. */
  lemma TickStartsIff(s: State, e: Event)
    ensures Step(s, e).running && !s.running <==>
            && s.enabled && !s.paused && !s.running
            && (e.Arrival? || (e.Immediate? && s.immediates > 0) || (e.Maintenance? && e.ms - s.lastPollMs >= 60000))
    ensures Step(s, e).running && !s.running ==>
              && Step(s, e).lastPollMs == e.ms && !Step(s, e).again
              && |Step(s, e).marks| > 0
              && Step(s, e).marks[|Step(s, e).marks| - 1] == Started(e.ms, !e.Maintenance?, true)
    ensures Step(s, e).lastPollMs != s.lastPollMs ==> Step(s, e).running && !s.running
  {
  }

  // ---- The inner life ----

  datatype InnerState = InnerState(running: bool, lastPollMs: int, marks: seq<Mark>)

  /** A poll, with the switches as they stand at that moment, or the end of a pass. */
  datatype InnerEvent =
    | InnerPoll(ms: int, thalamus: bool, afterglow: bool, awake: bool, paused: bool)
    | PassDone

  function InnerStep(s: InnerState, e: InnerEvent): InnerState {
    match e
    case PassDone => if s.running then s.(running := false, marks := s.marks + [Finished]) else s
    case InnerPoll(ms, thalamus, afterglow, awake, paused) =>
      if (!thalamus && !afterglow && !awake) || s.running || paused then s
      else if ms - s.lastPollMs < IntervalMs(thalamus) then s
      else InnerState(true, ms, s.marks + [Started(ms, false, thalamus)])
  }

  function InnerRun(s: InnerState, events: seq<InnerEvent>): InnerState
    decreases |events|
  {
    if events == [] then s else InnerRun(InnerStep(s, events[0]), events[1..])
  }

  class InnerLife {
    var innerRunning: bool
    var innerLastPollMs: int
    ghost var marks: seq<Mark>

    constructor ()
      ensures Now() == InnerState(false, 0, [])
    {
      innerRunning, innerLastPollMs, marks := false, 0, [];
    }

    ghost function Now(): InnerState
      reads this
    {
      InnerState(innerRunning, innerLastPollMs, marks)
    }

    method PollInnerLife(nowMs: int, thalamus: bool, afterglow: bool, awake: bool, paused: bool)
      modifies this
      ensures Now() == InnerStep(old(Now()), InnerPoll(nowMs, thalamus, afterglow, awake, paused))
    {
      if (!thalamus && !afterglow && !awake) || innerRunning || paused {
        return;
      }
      if nowMs - innerLastPollMs < (if thalamus then SCHEDULER_POLL_MS else AFTERGLOW_POLL_MS) {
        return;
      }
      innerRunning := true;
      innerLastPollMs := nowMs;
      marks := marks + [Started(nowMs, false, thalamus)];
    }

    method OnPassDone()
      modifies this
      ensures Now() == InnerStep(old(Now()), PassDone)
    {
      if innerRunning {
        innerRunning := false;
        marks := marks + [Finished];
      }
    }
  }

  ghost predicate InnerSound(s: InnerState) {
    && Orderly(s.marks)
    && InFlight(s.marks) == (if s.running then 1 else 0)
    && LastStart(s.marks) == s.lastPollMs
  }

  /** On every run one pass at a time, each at least its own interval after the
      start before it. */
  lemma {:induction false} EveryInnerRunIsSound(s: InnerState, events: seq<InnerEvent>)
    requires InnerSound(s)
    ensures InnerSound(InnerRun(s, events))
    decreases |events|
  {
    hide Orderly;
    if events != [] {
      var e := events[0];
      MarksSnoc(s.marks, Finished);
      if e.InnerPoll? {
        MarksSnoc(s.marks, Started(e.ms, false, e.thalamus));
      }
      EveryInnerRunIsSound(InnerStep(s, e), events[1..]);
    }
  }

  /** A pass starts exactly at a poll that finds something switched on, no pause
      and no pass running, a minute after the last start with the thalamus on
      and two minutes after it otherwise. Nothing else changes at a poll. */
  lemma PassStartsIff(s: InnerState, ms: int, thalamus: bool, afterglow: bool, awake: bool, paused: bool)
    requires InnerSound(s)
    ensures var t := InnerStep(s, InnerPoll(ms, thalamus, afterglow, awake, paused));
            && (t != s <==>
                  && (thalamus || afterglow || awake) && !paused && InFlight(s.marks) == 0
                  && ms - LastStart(s.marks) >= if thalamus then 60000 else 120000)
            && (t != s ==> t.running && t.marks == s.marks + [Started(ms, false, thalamus)])
  {
    hide Orderly;
    var t := InnerStep(s, InnerPoll(ms, thalamus, afterglow, awake, paused));
    if t.marks != s.marks {
      assert |t.marks| == |s.marks| + 1;
    }
  }

  /** A pass ends only when it was running, and then another may start. */
  lemma PassEndsIff(s: InnerState)
    requires InnerSound(s)
    ensures var t := InnerStep(s, PassDone);
            && !t.running && t.lastPollMs == s.lastPollMs
            && t.marks == if InFlight(s.marks) == 1 then s.marks + [Finished] else s.marks
  {
    hide Orderly;
  }

  predicate Idle(e: InnerEvent) {
    e.InnerPoll? ==> e.paused || !(e.thalamus || e.afterglow || e.awake)
  }

  /** While it is paused, or with nothing switched on, no pass starts on any run. */
  lemma {:induction false} NothingStartsWhileIdle(s: InnerState, events: seq<InnerEvent>)
    requires forall e <- events :: Idle(e)
    ensures InnerRun(s, events).lastPollMs == s.lastPollMs && (InnerRun(s, events).running ==> s.running)
    ensures forall m <- InnerRun(s, events).marks :: m.Started? ==> m in s.marks
    decreases |events|
  {
    if events != [] {
      assert Idle(events[0]) && forall e <- events[1..] :: e in events;
      NothingStartsWhileIdle(InnerStep(s, events[0]), events[1..]);
    }
  }
}
