/** Credential failover: one attempt on the primary account and, only after a
    response that condemns the account, one on the secondary, sharing the flags
    of one budget binding. */
module Failover {
  import opened JsText
  import opened Wrappers
  import opened Dispatch

  datatype ErrorCode = CredentialInvalid | QuotaExhausted | RateLimited | AgentNotReady | OtherCode

  datatype FailureDomain = Account | Provider | NoDomain

  /** An error as the client sees it; appError when it is the client's own kind. */
  datatype Failure = Failure(appError: bool, domain: FailureDomain, code: ErrorCode)

  predicate IsEligible(f: Failure, truth: Transport) {
    && truth == ResponseReceived && f.appError && f.domain == Account
    && f.code in {CredentialInvalid, QuotaExhausted, RateLimited}
  }

  datatype Adapter = Missing | Fails(httpStatus: bool, failure: Failure) | Answers

  datatype Callback = Callback(commitAccepted: bool, adapter: Adapter, recordAccepted: bool)

  /** One attempt: whether it could be begun, the row the ledger would bind,
      whether sending is allowed, how often the dispatcher calls back, and the
      failure it ends in, if any. */
  datatype Script = Script(
    begun: bool, row: Option<RowKind>, outboundAllowed: bool, translated: bool, callbacks: seq<Callback>,
    failure: Option<Failure>)

  /** A whole call. Remaining time matters only where a deadline is set. */
  datatype CallScript = CallScript(
    thoughtRoute: bool, failoverDisabled: bool, primary: Script, secondary: Script,
    remainingMs: Option<int>, secondaryKey: bool)

  const MIN_REMAINING_MS := 2500

  /** The flags the two attempts share, and the trace so far. */
  datatype State = State(bound: bool, committed: bool, row: RowKind, trace: Trace)

  const Initial := State(false, false, Parent, [])

  function Emit(s: State, e: Event): State {
    s.(trace := s.trace + [e])
  }

  /** The attempt's record of what is known to have left. */
  function AfterFailure(truth: Transport, f: Failure): Transport {
    if f.code == AgentNotReady && truth == SentOutcomeUnknown then NotSent else truth
  }

  function OnCallback(budget: bool, s: State, truth: Transport, c: Callback): (State, Transport) {
    if c.adapter.Missing? then (s, truth)
    else if budget && !s.committed && !c.commitAccepted then
      (Emit(s, Commit(s.row, false)), SentOutcomeUnknown)
    else
      var s1 := if budget && !s.committed then Emit(s, Commit(s.row, true)).(committed := true) else s;
      var s2 := Emit(s1, Invoke);
      if c.adapter.Answers? then (if budget then Emit(s2, Respond(s.row, c.recordAccepted)) else s2, ResponseReceived)
      else
        (s2, AfterFailure(if c.adapter.httpStatus then ResponseReceived else SentOutcomeUnknown, c.adapter.failure))
  }

  function OnCallbacks(budget: bool, s: State, truth: Transport, cs: seq<Callback>): (State, Transport)
    decreases |cs|
  {
    if cs == [] then (s, truth)
    else
      var (next, truth') := OnCallback(budget, s, truth, cs[0]);
      OnCallbacks(budget, next, truth', cs[1..])
  }

  function BindOnce(budget: bool, s: State, row: Option<RowKind>): State {
    if budget && !s.bound then
      if row.None? then Emit(s, BindRefused) else Emit(s, Bind(row.value)).(bound := true, row := row.value)
    else s
  }

  /** An attempt's new state, what it knows to have left, and whether it failed. */
  function SingleDispatch(budget: bool, s: State, seat: Seat, a: Script): (State, Transport, bool) {
    var s0 := Emit(s, Attempt(seat));
    if !a.begun then (s0, NotSent, true)
    else
      var s1 := BindOnce(budget, s0, a.row);
      if (budget && !s1.bound) || !a.outboundAllowed || !a.translated then (s1, NotSent, true)
      else
        var (s2, truth) := OnCallbacks(budget, s1, NotSent, a.callbacks);
        if a.failure.None? then (s2, truth, false) else (s2, AfterFailure(truth, a.failure.value), true)
  }

  predicate FailsOver(c: CallScript, truth: Transport) {
    && c.primary.failure.Some? && IsEligible(c.primary.failure.value, truth)
    && (c.remainingMs.Some? ==> c.remainingMs.value >= MIN_REMAINING_MS)
    && c.secondaryKey
  }

  function CompleteChat(budget: bool, c: CallScript): State {
    var (s, truth, failed) := SingleDispatch(budget, Initial, Primary, c.primary);
    if c.thoughtRoute && !c.failoverDisabled && failed && FailsOver(c, truth)
    then SingleDispatch(budget, s, Secondary, c.secondary).0
    else s
  }

  /** The client's flags, updated as the source updates them. */
  class ChatDispatch {
    const budget: bool
    var bound: bool
    var committed: bool
    var repairOrdinal: Option<nat>
    var failoverUsed: bool
    ghost var trace: Trace

    constructor (budget: bool)
      ensures this.budget == budget && Now() == Initial && !failoverUsed
    {
      this.budget := budget;
      bound, committed, failoverUsed, repairOrdinal, trace := false, false, false, None, [];
    }

    function Row(): RowKind
      reads this
    {
      if repairOrdinal.None? then Parent else Child(repairOrdinal.value)
    }

    ghost function Now(): State
      reads this
    {
      State(bound, committed, Row(), trace)
    }

    method Dispatch(truth: Transport, c: Callback) returns (truth': Transport)
      modifies this`committed, this`trace
      ensures (Now(), truth') == OnCallback(budget, old(Now()), truth, c)
    {
      truth' := truth;
      if c.adapter.Missing? {
        return;
      }
      truth' := SentOutcomeUnknown;
      if budget && !committed {
        trace := trace + [Commit(Row(), c.commitAccepted)];
        if !c.commitAccepted {
          return;
        }
        committed := true;
      }
      trace := trace + [Invoke];
      if c.adapter.Answers? {
        truth' := ResponseReceived;
        if budget && committed {
          trace := trace + [Respond(Row(), c.recordAccepted)];
        }
      } else {
        if c.adapter.httpStatus {
          truth' := ResponseReceived;
        }
        truth' := AfterFailure(truth', c.adapter.failure);
      }
    }

    method Single(seat: Seat, a: Script) returns (truth: Transport, failed: bool)
      requires bound || repairOrdinal.None?
      modifies this`bound, this`committed, this`repairOrdinal, this`trace
      ensures (Now(), truth, failed) == SingleDispatch(budget, old(Now()), seat, a)
      ensures bound || repairOrdinal.None?
    {
      trace := trace + [Attempt(seat)];
      truth, failed := NotSent, true;
      if !a.begun {
        return;
      }
      if budget && !bound {
        if a.row.None? {
          trace := trace + [BindRefused];
          return;
        }
        repairOrdinal := if a.row.value.Child? then Some(a.row.value.ordinal) else None;
        bound := true;
        trace := trace + [Bind(a.row.value)];
      }
      if !a.outboundAllowed || !a.translated {
        return;
      }
      ghost var start := Now();
      var i := 0;
      while i < |a.callbacks|
        invariant 0 <= i <= |a.callbacks|
        invariant bound == start.bound && Row() == start.row
        invariant OnCallbacks(budget, start, NotSent, a.callbacks) ==
                  OnCallbacks(budget, Now(), truth, a.callbacks[i..])
      {
        assert a.callbacks[i..][0] == a.callbacks[i] && a.callbacks[i..][1..] == a.callbacks[i + 1..];
        truth := Dispatch(truth, a.callbacks[i]);
        i := i + 1;
      }
      assert a.callbacks[i..] == [];
      if a.failure.None? {
        failed := false;
      } else {
        truth := AfterFailure(truth, a.failure.value);
      }
    }

    method Complete(c: CallScript)
      requires Now() == Initial && !failoverUsed
      modifies this
      ensures Now() == CompleteChat(budget, c)
      ensures failoverUsed == exists i :: 0 <= i < |trace| && trace[i] == Attempt(Secondary)
    {
      hide OnCallbacks;
      var truth, failed := Single(Primary, c.primary);
      AttemptsOf(budget, Initial, Primary, c.primary);
      if c.thoughtRoute && !c.failoverDisabled && failed && FailsOver(c, truth) {
        failoverUsed := true;
        AttemptsOf(budget, Now(), Secondary, c.secondary);
        ghost var before := |trace|;
        truth, failed := Single(Secondary, c.secondary);
        assert trace[before] == Attempt(Secondary);
      }
    }
  }

  // ---- One attempt extends the trace and never starts another ----

  predicate Continues(s: State, next: State) {
    s.trace <= next.trace && forall i | |s.trace| <= i < |next.trace| :: !next.trace[i].Attempt?
  }

  lemma CallbackContinues(budget: bool, s: State, truth: Transport, c: Callback)
    ensures Continues(s, OnCallback(budget, s, truth, c).0)
    ensures OnCallback(budget, s, truth, c).0.row == s.row && OnCallback(budget, s, truth, c).0.bound == s.bound
  {
  }

  lemma {:induction false} CallbacksContinue(budget: bool, s: State, truth: Transport, cs: seq<Callback>)
    ensures Continues(s, OnCallbacks(budget, s, truth, cs).0)
    decreases |cs|
  {
    hide OnCallback;
    if cs != [] {
      CallbackContinues(budget, s, truth, cs[0]);
      var (next, truth') := OnCallback(budget, s, truth, cs[0]);
      CallbacksContinue(budget, next, truth', cs[1..]);
    }
  }

  lemma AttemptsOf(budget: bool, s: State, seat: Seat, a: Script)
    ensures var next := SingleDispatch(budget, s, seat, a).0;
            Continues(Emit(s, Attempt(seat)), next)
  {
    hide OnCallbacks;
    CallbacksContinue(budget, BindOnce(budget, Emit(s, Attempt(seat)), a.row), NotSent, a.callbacks);
  }

  // ---- The discipline, across both attempts ----

  /** The flags agree with the monitor of the trace. */
  predicate Agrees(s: State, phase: Phase) {
    && PhaseAfter(Unbound, s.trace) == phase
    && (!s.bound ==> phase == Unbound && !s.committed)
    && (s.bound && !s.committed ==> phase == Bound(s.row))
    && (s.bound && s.committed ==> phase == Committed(s.row) || phase == Sent(s.row))
  }

  ghost predicate Sane(s: State) {
    exists phase :: Agrees(s, phase)
  }

  lemma CallbackIsSane(s: State, truth: Transport, c: Callback)
    requires Sane(s) && s.bound
    requires truth == ResponseReceived ==> PhaseAfter(Unbound, s.trace).Sent?
    ensures var (next, truth') := OnCallback(true, s, truth, c);
            && Sane(next) && next.bound && next.row == s.row
            && (truth' == ResponseReceived ==> PhaseAfter(Unbound, next.trace).Sent?)
  {
    var phase := PhaseAfter(Unbound, s.trace);
    assert Agrees(s, phase);
    var (next, _) := OnCallback(true, s, truth, c);
    var commit := Commit(s.row, c.commitAccepted);
    PhaseSnoc(Unbound, s.trace, commit);
    PhaseSnoc(Unbound, s.trace, Invoke);
    PhaseSnoc(Unbound, s.trace + [commit], Invoke);
    PhaseSnoc(Unbound, s.trace + [Invoke], Respond(s.row, c.recordAccepted));
    PhaseSnoc(Unbound, s.trace + [commit] + [Invoke], Respond(s.row, c.recordAccepted));
    assert Agrees(next, PhaseAfter(Unbound, next.trace));
  }

  lemma {:induction false} CallbacksAreSane(s: State, truth: Transport, cs: seq<Callback>)
    requires Sane(s) && s.bound
    requires truth == ResponseReceived ==> PhaseAfter(Unbound, s.trace).Sent?
    ensures var (next, truth') := OnCallbacks(true, s, truth, cs);
            && Sane(next) && next.bound
            && (truth' == ResponseReceived ==> PhaseAfter(Unbound, next.trace).Sent?)
    decreases |cs|
  {
    hide OnCallback, Sane;
    if cs != [] {
      CallbackIsSane(s, truth, cs[0]);
      var (next, truth') := OnCallback(true, s, truth, cs[0]);
      CallbacksAreSane(next, truth', cs[1..]);
    }
  }

  lemma EmitAttempt(s: State, seat: Seat)
    requires Sane(s)
    ensures Sane(Emit(s, Attempt(seat)))
  {
    PhaseSnoc(Unbound, s.trace, Attempt(seat));
    assert Agrees(Emit(s, Attempt(seat)), PhaseAfter(Unbound, s.trace));
  }

  lemma BindIsSane(s: State, row: Option<RowKind>)
    requires Sane(s)
    ensures Sane(BindOnce(true, s, row))
  {
    var next := BindOnce(true, s, row);
    PhaseSnoc(Unbound, s.trace, BindRefused);
    PhaseSnoc(Unbound, s.trace, Bind(next.row));
    assert Agrees(next, PhaseAfter(Unbound, next.trace));
  }

  lemma SingleIsSane(s: State, seat: Seat, a: Script)
    requires Sane(s)
    ensures var (next, truth, _) := SingleDispatch(true, s, seat, a);
            && Sane(next)
            && (truth == ResponseReceived ==> PhaseAfter(Unbound, next.trace).Sent?)
  {
    hide OnCallbacks, BindOnce, Sane;
    var s0 := Emit(s, Attempt(seat));
    EmitAttempt(s, seat);
    BindIsSane(s0, a.row);
    var s1 := BindOnce(true, s0, a.row);
    if s1.bound {
      CallbacksAreSane(s1, NotSent, a.callbacks);
    }
  }

  /** Through a failover, bind and accepted commit still happen at most once and
      every call keeps to the row that was bound. */
  lemma FailoverIsDisciplined(c: CallScript)
    ensures Disciplined(CompleteChat(true, c).trace)
  {
    hide SingleDispatch, Disciplined, Sane;
    assert Sane(Initial) by {
      InitialIsSane();
    }
    SingleIsSane(Initial, Primary, c.primary);
    SingleIsSane(SingleDispatch(true, Initial, Primary, c.primary).0, Secondary, c.secondary);
    var s := CompleteChat(true, c);
    SaneIsNotBroken(s);
    PhaseSummarizes(s.trace);
  }

  lemma InitialIsSane()
    ensures Sane(Initial)
  {
    assert Agrees(Initial, Unbound);
  }

  lemma SaneIsNotBroken(s: State)
    requires Sane(s)
    ensures PhaseAfter(Unbound, s.trace) != Broken
  {
  }

  predicate Has(t: Trace, e: Event) {
    e in t
  }

  /** A second attempt is made exactly after a first that failed with a response
      condemning the account, in time and with a second credential. */
  lemma SecondAttemptIff(budget: bool, c: CallScript)
    ensures var (_, truth, failed) := SingleDispatch(budget, Initial, Primary, c.primary);
            Has(CompleteChat(budget, c).trace, Attempt(Secondary)) <==>
            && c.thoughtRoute && !c.failoverDisabled && failed && c.primary.failure.Some?
            && truth == ResponseReceived
            && c.primary.failure.value.appError && c.primary.failure.value.domain == Account
            && c.primary.failure.value.code in {CredentialInvalid, QuotaExhausted, RateLimited}
            && (c.remainingMs.None? || c.remainingMs.value >= MIN_REMAINING_MS) && c.secondaryKey
  {
    hide SingleDispatch;
    AttemptsOf(budget, Initial, Primary, c.primary);
    var s := SingleDispatch(budget, Initial, Primary, c.primary).0;
    AttemptsOf(budget, s, Secondary, c.secondary);
    var next := SingleDispatch(budget, s, Secondary, c.secondary).0;
    assert Emit(s, Attempt(Secondary)).trace[|s.trace|] == Attempt(Secondary);
    assert Attempt(Secondary) in next.trace;
    assert s.trace[0] == Attempt(Primary);
  }

  /** When the second attempt starts, the first has already committed and sent;
      the second neither binds nor commits again. */
  lemma SecondAttemptReusesTheBinding(c: CallScript, i: nat)
    requires i < |CompleteChat(true, c).trace| && CompleteChat(true, c).trace[i] == Attempt(Secondary)
    ensures var t := CompleteChat(true, c).trace;
            && Count(t[..i], IsBind) == 1 && Count(t[..i], IsCommit) == 1 && Count(t[..i], IsInvoke) > 0
            && forall k | i <= k < |t| :: !t[k].Bind? && !t[k].Commit?
  {
    hide SingleDispatch, Disciplined, Sane;
    InitialIsSane();
    AttemptsOf(true, Initial, Primary, c.primary);
    SingleIsSane(Initial, Primary, c.primary);
    var (s, truth, failed) := SingleDispatch(true, Initial, Primary, c.primary);
    assert s.trace[0] == Attempt(Primary);
    assert truth == ResponseReceived && i == |s.trace| by {
      SecondIsAfterFirst(c, i);
    }
    SaneIsNotBroken(s);
    PhaseSummarizes(s.trace);
    AttemptsOf(true, s, Secondary, c.secondary);
    var t := CompleteChat(true, c).trace;
    assert t[..i] == s.trace;
    FailoverIsDisciplined(c);
    NoSecondCommit(t, i);
  }

  lemma SecondIsAfterFirst(c: CallScript, i: nat)
    requires i < |CompleteChat(true, c).trace| && CompleteChat(true, c).trace[i] == Attempt(Secondary)
    ensures var (s, truth, failed) := SingleDispatch(true, Initial, Primary, c.primary);
            && truth == ResponseReceived && failed && FailsOver(c, truth) && i == |s.trace|
            && CompleteChat(true, c) == SingleDispatch(true, s, Secondary, c.secondary).0
  {
    hide SingleDispatch;
    AttemptsOf(true, Initial, Primary, c.primary);
    var s := SingleDispatch(true, Initial, Primary, c.primary).0;
    AttemptsOf(true, s, Secondary, c.secondary);
  }

  lemma {:induction false} CountOfPrefix(t: Trace, n: nat, p: Event -> bool)
    requires n <= |t|
    ensures Count(t[..n], p) <= Count(t, p)
    ensures Count(t[..n], p) == Count(t, p) ==> forall k | n <= k < |t| :: !p(t[k])
    decreases |t|
  {
    if n == |t| {
      assert t[..n] == t;
    } else {
      var init := t[..|t| - 1];
      assert init[..n] == t[..n];
      CountOfPrefix(init, n, p);
    }
  }

  lemma NoSecondCommit(t: Trace, i: nat)
    requires i <= |t| && Disciplined(t) && Count(t[..i], IsBind) == 1 && Count(t[..i], IsInvoke) > 0
    ensures forall k | i <= k < |t| :: !t[k].Bind? && !t[k].Commit?
  {
    CountOfPrefix(t, i, IsBind);
    forall k | i <= k < |t| ensures !t[k].Bind? && !t[k].Commit? {
      assert !IsBind(t[k]);
      assert t[..k][..i] == t[..i];
      CountOfPrefix(t[..k], i, IsInvoke);
    }
  }
}
