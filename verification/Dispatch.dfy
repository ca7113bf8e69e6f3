/** The budget protocol around a provider dispatch: bind a reservation row,
    commit it, send, record the response, release what was never sent. The
    ledger, the dispatcher and the provider are an arbitrary environment. */
module Dispatch {
  import opened JsText
  import opened Wrappers

  datatype RowKind = Parent | Child(ordinal: nat)

  datatype Seat = Direct | Primary | Secondary

  /** What the client asks of the world. Accepted says whether the ledger took
      the call or threw. */
  datatype Event =
    | Attempt(seat: Seat)
    | Bind(row: RowKind)
    | BindRefused
    | Commit(row: RowKind, accepted: bool)
    | Invoke
    | Respond(row: RowKind, accepted: bool)
    | Release(row: RowKind, accepted: bool)
    | NoDispatchProof(row: RowKind, accepted: bool)

  type Trace = seq<Event>

  datatype Transport = NotSent | SentOutcomeUnknown | ResponseReceived

  // ---- The protocol, as a monitor of traces ----

  datatype Phase = Unbound | Bound(row: RowKind) | Committed(row: RowKind) | Sent(row: RowKind) | Over | Broken

  function Next(phase: Phase, e: Event): Phase {
    match e
    case Attempt(_) => phase
    case Bind(row) => if phase == Unbound then Bound(row) else Broken
    case BindRefused => if phase == Unbound then Unbound else Broken
    case Commit(row, accepted) => if phase == Bound(row) then if accepted then Committed(row) else phase else Broken
    case Invoke => if phase.Committed? || phase.Sent? then Sent(phase.row) else Broken
    case Respond(row, _) => if phase == Committed(row) || phase == Sent(row) then phase else Broken
    case Release(row, _) => if phase == Bound(row) then Over else Broken
    case NoDispatchProof(row, _) => if phase == Bound(row) then Over else Broken
  }

  function PhaseAfter(start: Phase, t: Trace): Phase
    decreases |t|
  {
    if t == [] then start else PhaseAfter(Next(start, t[0]), t[1..])
  }

  function Count(t: Trace, p: Event -> bool): nat {
    if t == [] then 0 else Count(t[..|t| - 1], p) + if p(t[|t| - 1]) then 1 else 0
  }

  const IsBind: Event -> bool := (e: Event) => e.Bind?
  const IsCommit: Event -> bool := (e: Event) => e.Commit? && e.accepted
  const IsInvoke: Event -> bool := (e: Event) => e.Invoke?

  predicate Addresses(e: Event, row: RowKind) {
    e.Bind? || e.Commit? || e.Respond? || e.Release? || e.NoDispatchProof? ==> e.row == row
  }

  predicate OneRow(t: Trace, row: RowKind) {
    forall i | 0 <= i < |t| :: Addresses(t[i], row)
  }

  predicate Settles(e: Event) {
    e.Release? || e.NoDispatchProof?
  }

  /** The discipline itself, event by event: one bind; a commit only after it
      and before any sending; a sending only after the one accepted commit; a
      settlement only if nothing was or will be sent; one row throughout. */
  ghost predicate Disciplined(t: Trace) {
    && Count(t, IsBind) <= 1 && Count(t, IsCommit) <= 1
    && (forall i | 0 <= i < |t| :: t[i].Commit? ==> Count(t[..i], IsBind) == 1 && Count(t[..i], IsInvoke) == 0)
    && (forall i | 0 <= i < |t| :: t[i].Invoke? ==> Count(t[..i], IsCommit) == 1)
    && (forall i | 0 <= i < |t| :: Settles(t[i]) ==>
          Count(t[..i], IsBind) == 1 && Count(t, IsCommit) == 0 && Count(t, IsInvoke) == 0)
    && (exists row :: OneRow(t, row))
  }

  lemma CountSnoc(t: Trace, e: Event, p: Event -> bool)
    ensures Count(t + [e], p) == Count(t, p) + if p(e) then 1 else 0
  {
    assert (t + [e])[..|t|] == t;
  }

  lemma {:induction false} PhaseSnoc(start: Phase, t: Trace, e: Event)
    ensures PhaseAfter(start, t + [e]) == Next(PhaseAfter(start, t), e)
    decreases |t|
  {
    if t != [] {
      assert (t + [e])[1..] == t[1..] + [e];
      PhaseSnoc(Next(start, t[0]), t[1..], e);
    }
  }

  lemma {:induction false} PhaseJoin(start: Phase, a: Trace, b: Trace)
    ensures PhaseAfter(start, a + b) == PhaseAfter(PhaseAfter(start, a), b)
    decreases |a|
  {
    if a == [] {
      assert a + b == b;
    } else {
      assert (a + b)[1..] == a[1..] + b;
      PhaseJoin(Next(start, a[0]), a[1..], b);
    }
  }

  function RowOf(phase: Phase): Option<RowKind> {
    if phase.Bound? || phase.Committed? || phase.Sent? then Some(phase.row) else None
  }

  /** What the monitor's phase says of the events seen. */
  ghost predicate Summary(t: Trace, phase: Phase) {
    && Count(t, IsBind) == (if phase.Unbound? then 0 else 1)
    && Count(t, IsCommit) == (if phase.Committed? || phase.Sent? then 1 else 0)
    && (Count(t, IsInvoke) > 0 <==> phase.Sent?)
    && (RowOf(phase).Some? ==> OneRow(t, RowOf(phase).value))
    && (phase.Unbound? ==> forall row :: OneRow(t, row))
    && ((exists i :: 0 <= i < |t| && Settles(t[i])) ==> phase.Over?)
  }

  lemma OneRowSnoc(t: Trace, e: Event, row: RowKind)
    ensures OneRow(t + [e], row) <==> OneRow(t, row) && Addresses(e, row)
  {
    assert forall i | 0 <= i < |t| :: (t + [e])[i] == t[i];
    assert (t + [e])[|t|] == e;
  }

  lemma {:induction false} PhaseSummarizes(t: Trace)
    requires PhaseAfter(Unbound, t) != Broken
    ensures Summary(t, PhaseAfter(Unbound, t)) && Disciplined(t)
  {
    if t == [] {
      assert OneRow(t, Parent);
    } else {
      var init, e := t[..|t| - 1], t[|t| - 1];
      assert t == init + [e];
      PhaseSnoc(Unbound, init, e);
      PhaseSummarizes(init);
      SummaryStep(init, e, PhaseAfter(Unbound, init));
      DisciplineStep(init, e, PhaseAfter(Unbound, init));
    }
  }

  lemma SummaryStep(t: Trace, e: Event, phase: Phase)
    requires Summary(t, phase) && Next(phase, e) != Broken
    ensures Summary(t + [e], Next(phase, e))
  {
    hide OneRow;
    forall row ensures OneRow(t + [e], row) <==> OneRow(t, row) && Addresses(e, row) {
      OneRowSnoc(t, e, row);
    }
    CountSnoc(t, e, IsBind);
    CountSnoc(t, e, IsCommit);
    CountSnoc(t, e, IsInvoke);
  }

  lemma DisciplineStep(t: Trace, e: Event, phase: Phase)
    requires Summary(t, phase) && Disciplined(t) && Next(phase, e) != Broken
    ensures Disciplined(t + [e])
  {
    CountSnoc(t, e, IsBind);
    CountSnoc(t, e, IsCommit);
    CountSnoc(t, e, IsInvoke);
    assert forall i | 0 <= i <= |t| :: (t + [e])[..i] == t[..i];
    assert t[..|t|] == t;
    hide OneRow;
    var row :| OneRow(t, row);
    var row' := if e.Bind? then e.row else if RowOf(phase).Some? then RowOf(phase).value else row;
    OneRowSnoc(t, e, row');
  }

  // ---- The direct Thought path ----

  datatype Adapter = Missing | Fails | Answers(evidenceComplete: bool)

  /** One call of the dispatch callback, as the environment will have it. */
  datatype Callback = Callback(commitAccepted: bool, adapter: Adapter, recordAccepted: bool)

  datatype ReservationState = Held | ReconcileRequired | OtherState

  /** The environment of a whole run: the bound row (nothing when the ledger
      refuses), how often the dispatcher calls back, whether the run fails in
      the end, the boundary evidence its error carries, the reservation as the
      ledger then reports it, and why the caller aborted. */
  datatype DirectScript = DirectScript(
    outboundAllowed: bool, row: Option<RowKind>, callbacks: seq<Callback>, fails: bool, boundary: Option<Transport>,
    reservation: Option<ReservationState>, composeAbort: bool, settleAccepted: bool)

  function CallbackTrace(budget: bool, row: RowKind, committed: bool, c: Callback): Trace {
    var commit := if budget && !committed then [Commit(row, c.commitAccepted)] else [];
    if budget && !committed && !c.commitAccepted then commit
    else commit + match c.adapter
                  case Missing => []
                  case Fails => [Invoke]
                  case Answers(complete) =>
                    if complete && budget then [Invoke, Respond(row, c.recordAccepted)] else [Invoke]
  }

  predicate CommittedBy(committed: bool, budget: bool, c: Callback) {
    committed || (budget && c.commitAccepted)
  }

  function CallbacksTrace(budget: bool, row: RowKind, committed: bool, cs: seq<Callback>): Trace
    decreases |cs|
  {
    if cs == [] then []
    else CallbackTrace(budget, row, committed, cs[0]) +
         CallbacksTrace(budget, row, CommittedBy(committed, budget, cs[0]), cs[1..])
  }

  predicate CommittedByAll(budget: bool, cs: seq<Callback>) {
    budget && exists i :: 0 <= i < |cs| && cs[i].commitAccepted
  }

  predicate InvokedByAll(budget: bool, committed: bool, cs: seq<Callback>)
    decreases |cs|
  {
    cs != [] &&
    (|| ((budget && !committed ==> cs[0].commitAccepted) && cs[0].adapter != Missing)
     || InvokedByAll(budget, CommittedBy(committed, budget, cs[0]), cs[1..]))
  }

  /** What the error path tells the ledger of a bound row. */
  function SettleTrace(row: RowKind, committed: bool, transport: Transport, s: DirectScript): Trace {
    if committed && transport == ResponseReceived then [Respond(row, s.settleAccepted)]
    else if !committed && transport == NotSent then
      if row.Child? then [Release(row, s.settleAccepted)]
      else if s.reservation == Some(Held) && s.composeAbort then [NoDispatchProof(row, s.settleAccepted)]
      else if s.reservation == Some(Held) || s.reservation == Some(ReconcileRequired)
      then [Release(row, s.settleAccepted)]
      else []
    else []
  }

  function TransportOf(boundary: Option<Transport>, invoked: bool): Transport {
    if boundary.Some? then boundary.value else if invoked then SentOutcomeUnknown else NotSent
  }

  function DirectTrace(budget: bool, s: DirectScript): Trace {
    if !s.outboundAllowed then [Attempt(Direct)]
    else if budget && s.row.None? then [Attempt(Direct), BindRefused]
    else
      var row := if budget then s.row.value else Parent;
      [Attempt(Direct)] + (if budget then [Bind(row)] else []) +
      CallbacksTrace(budget, row, false, s.callbacks) +
      if s.fails && budget
      then SettleTrace(row, CommittedByAll(budget, s.callbacks),
                       TransportOf(s.boundary, InvokedByAll(budget, false, s.callbacks)), s)
      else []
  }

  /** The client, with the flags the source keeps. */
  class DirectThought {
    const budget: bool
    var bound: bool
    var committed: bool
    var repairOrdinal: Option<nat>
    var adapterInvoked: bool
    ghost var trace: Trace

    constructor (budget: bool)
      ensures this.budget == budget && !bound && !committed && !adapterInvoked && repairOrdinal.None?
      ensures trace == [Attempt(Direct)]
    {
      this.budget := budget;
      bound, committed, adapterInvoked, repairOrdinal := false, false, false, None;
      trace := [Attempt(Direct)];
    }

    function Row(): RowKind
      reads this
    {
      if repairOrdinal.None? then Parent else Child(repairOrdinal.value)
    }

    method BindRow(row: Option<RowKind>) returns (ok: bool)
      requires !bound && repairOrdinal.None?
      modifies this`bound, this`repairOrdinal, this`trace
      ensures ok == row.Some? == bound
      ensures row.Some? ==> Row() == row.value
      ensures row.None? ==> repairOrdinal.None?
      ensures trace == old(trace) + [if row.Some? then Bind(row.value) else BindRefused]
    {
      if row.None? {
        trace := trace + [BindRefused];
        return false;
      }
      repairOrdinal := if row.value.Child? then Some(row.value.ordinal) else None;
      bound := true;
      trace := trace + [Bind(row.value)];
      return true;
    }

    method OnDispatch(c: Callback)
      modifies this`committed, this`adapterInvoked, this`trace
      ensures trace == old(trace) + CallbackTrace(budget, Row(), old(committed), c)
      ensures committed == CommittedBy(old(committed), budget, c)
      ensures adapterInvoked ==
              (old(adapterInvoked) ||
               ((budget && !old(committed) ==> c.commitAccepted) && c.adapter != Missing))
    {
      if budget && !committed {
        trace := trace + [Commit(Row(), c.commitAccepted)];
        if !c.commitAccepted {
          return;
        }
        committed := true;
      }
      if c.adapter == Missing {
        return;
      }
      adapterInvoked := true;
      trace := trace + [Invoke];
      if c.adapter == Answers(true) && budget && committed {
        trace := trace + [Respond(Row(), c.recordAccepted)];
      }
    }

    method OnFailure(s: DirectScript)
      modifies this`trace
      ensures trace == old(trace) +
              if budget && bound then SettleTrace(Row(), committed, TransportOf(s.boundary, adapterInvoked), s) else []
    {
      var transport := TransportOf(s.boundary, adapterInvoked);
      if budget && bound {
        if committed && transport == ResponseReceived {
          trace := trace + [Respond(Row(), s.settleAccepted)];
        } else if !committed && transport == NotSent {
          if repairOrdinal.Some? {
            trace := trace + [Release(Row(), s.settleAccepted)];
          } else if s.reservation == Some(Held) || s.reservation == Some(ReconcileRequired) {
            var continuable := s.reservation == Some(Held) && s.composeAbort;
            trace := trace + [if continuable then NoDispatchProof(Row(), s.settleAccepted)
                              else Release(Row(), s.settleAccepted)];
          }
        }
      }
    }

    method Complete(s: DirectScript)
      requires !bound && !committed && !adapterInvoked && repairOrdinal.None? && trace == [Attempt(Direct)]
      modifies this
      ensures trace == DirectTrace(budget, s)
    {
      hide SettleTrace, CallbackTrace;
      if !s.outboundAllowed {
        OnFailure(s);
        return;
      }
      if budget {
        var ok := BindRow(s.row);
        if !ok {
          OnFailure(s);
          return;
        }
      }
      ghost var row, before := Row(), trace;
      var i := 0;
      while i < |s.callbacks|
        invariant 0 <= i <= |s.callbacks|
        invariant Row() == row && bound == budget
        invariant committed == CommittedByAll(budget, s.callbacks[..i])
        invariant InvokedByAll(budget, false, s.callbacks) ==
                  (adapterInvoked || InvokedByAll(budget, committed, s.callbacks[i..]))
        invariant before + CallbacksTrace(budget, row, false, s.callbacks) ==
                  trace + CallbacksTrace(budget, row, committed, s.callbacks[i..])
      {
        var c := s.callbacks[i];
        assert s.callbacks[i..][0] == c && s.callbacks[i..][1..] == s.callbacks[i + 1..];
        Associative(trace, CallbackTrace(budget, row, committed, c),
                    CallbacksTrace(budget, row, CommittedBy(committed, budget, c), s.callbacks[i + 1..]));
        CommittedSnoc(budget, s.callbacks, i);
        OnDispatch(c);
        i := i + 1;
      }
      assert s.callbacks[..i] == s.callbacks && s.callbacks[i..] == [];
      assert before == [Attempt(Direct)] + if budget then [Bind(row)] else [];
      assert trace == before + CallbacksTrace(budget, row, false, s.callbacks);
      if s.fails {
        OnFailure(s);
      }
    }
  }

  lemma CommittedSnoc(budget: bool, cs: seq<Callback>, i: nat)
    requires i < |cs|
    ensures CommittedByAll(budget, cs[..i + 1]) == CommittedBy(CommittedByAll(budget, cs[..i]), budget, cs[i])
  {
    assert cs[..i + 1] == cs[..i] + [cs[i]];
    if CommittedByAll(budget, cs[..i]) {
      var k :| 0 <= k < i && cs[..i][k].commitAccepted;
      assert cs[..i + 1][k].commitAccepted;
    } else if budget && cs[i].commitAccepted {
      assert cs[..i + 1][i].commitAccepted;
    }
  }

  // ---- Every run keeps the discipline ----

  lemma CallbackKeeps(row: RowKind, committed: bool, phase: Phase, c: Callback)
    requires phase == Bound(row) || phase == Committed(row) || phase == Sent(row)
    requires committed <==> !phase.Bound?
    ensures var after := PhaseAfter(phase, CallbackTrace(true, row, committed, c));
            && (after == Bound(row) || after == Committed(row) || after == Sent(row))
            && (CommittedBy(committed, true, c) <==> !after.Bound?)
            && (after.Sent? <==> phase.Sent? || ((!committed ==> c.commitAccepted) && c.adapter != Missing))
  {
    var t := CallbackTrace(true, row, committed, c);
    PhaseOfFew(phase, t);
  }

  lemma PhaseOfFew(start: Phase, t: Trace)
    ensures |t| == 0 ==> PhaseAfter(start, t) == start
    ensures |t| == 1 ==> PhaseAfter(start, t) == Next(start, t[0])
    ensures |t| == 2 ==> PhaseAfter(start, t) == Next(Next(start, t[0]), t[1])
    ensures |t| == 3 ==> PhaseAfter(start, t) == Next(Next(Next(start, t[0]), t[1]), t[2])
  {
    if |t| > 0 {
      var rest := t[1..];
      assert PhaseAfter(start, t) == PhaseAfter(Next(start, t[0]), rest);
      if |rest| > 0 {
        PhaseSnoc(Next(start, t[0]), rest[..|rest| - 1], rest[|rest| - 1]);
        assert rest == rest[..|rest| - 1] + [rest[|rest| - 1]];
      }
    }
  }

  lemma {:induction false} CallbacksKeep(row: RowKind, committed: bool, phase: Phase, cs: seq<Callback>)
    requires phase == Bound(row) || phase == Committed(row) || phase == Sent(row)
    requires committed <==> !phase.Bound?
    ensures var after := PhaseAfter(phase, CallbacksTrace(true, row, committed, cs));
            && (after == Bound(row) || after == Committed(row) || after == Sent(row))
            && (committed || CommittedByAll(true, cs) <==> !after.Bound?)
            && (after.Sent? <==> phase.Sent? || InvokedByAll(true, committed, cs))
    decreases |cs|
  {
    hide CallbackTrace;
    if cs != [] {
      var first, next := CallbackTrace(true, row, committed, cs[0]), CommittedBy(committed, true, cs[0]);
      CallbackKeeps(row, committed, phase, cs[0]);
      CallbacksKeep(row, next, PhaseAfter(phase, first), cs[1..]);
      PhaseJoin(phase, first, CallbacksTrace(true, row, next, cs[1..]));
      assert CommittedByAll(true, cs) <==> cs[0].commitAccepted || CommittedByAll(true, cs[1..]) by {
        assert cs == [cs[0]] + cs[1..];
      }
    }
  }

  lemma SettleKeeps(row: RowKind, committed: bool, phase: Phase, transport: Transport, s: DirectScript)
    requires phase == Bound(row) || phase == Committed(row) || phase == Sent(row)
    requires committed <==> !phase.Bound?
    ensures PhaseAfter(phase, SettleTrace(row, committed, transport, s)) != Broken
  {
  }

  /** Whatever the dispatcher, the ledger and the provider do, a direct run with
      a budget binds and commits at most once, commits strictly between bind and
      sending, settles only what was never sent, and keeps to one row. */
  lemma DirectRunsAreDisciplined(s: DirectScript)
    ensures Disciplined(DirectTrace(true, s))
  {
    hide CallbacksTrace, SettleTrace, Disciplined;
    var t := DirectTrace(true, s);
    assert PhaseAfter(Unbound, [Attempt(Direct)]) == Unbound;
    if !s.outboundAllowed {
    } else if s.row.None? {
      PhaseSnoc(Unbound, [Attempt(Direct)], BindRefused);
      assert t == [Attempt(Direct)] + [BindRefused];
    } else {
      var row := s.row.value;
      var calls := CallbacksTrace(true, row, false, s.callbacks);
      var committed := CommittedByAll(true, s.callbacks);
      var transport := TransportOf(s.boundary, InvokedByAll(true, false, s.callbacks));
      var settled := if s.fails then SettleTrace(row, committed, transport, s) else [];
      PhaseSnoc(Unbound, [Attempt(Direct)], Bind(row));
      CallbacksKeep(row, false, Bound(row), s.callbacks);
      PhaseJoin(Unbound, [Attempt(Direct)] + [Bind(row)], calls);
      PhaseJoin(Unbound, [Attempt(Direct)] + [Bind(row)] + calls, settled);
      SettleKeeps(row, committed, PhaseAfter(Bound(row), calls), transport, s);
    }
    PhaseSummarizes(t);
  }

  predicate TouchesLedger(e: Event) {
    !e.Attempt? && !e.Invoke?
  }

  lemma {:induction false} NoBudgetCallbacks(row: RowKind, committed: bool, cs: seq<Callback>)
    ensures forall e <- CallbacksTrace(false, row, committed, cs) :: e == Invoke
  {
    if cs != [] {
      NoBudgetCallbacks(row, CommittedBy(committed, false, cs[0]), cs[1..]);
    }
  }

  /** Without a budget the ledger is never touched. */
  lemma NoBudgetNoLedger(s: DirectScript)
    ensures forall e <- DirectTrace(false, s) :: !TouchesLedger(e)
  {
    NoBudgetCallbacks(Parent, false, s.callbacks);
  }

  /** A row that was bound and never committed is not forgotten when the run
      fails without contrary evidence: it is released or its silence proved,
      unless the ledger no longer holds the parent reservation. */
  lemma UncommittedIsSettledIff(s: DirectScript)
    requires s.outboundAllowed && s.row.Some? && s.fails && !CommittedByAll(true, s.callbacks)
    ensures (exists e <- DirectTrace(true, s) :: Settles(e)) <==>
            && s.boundary in {None, Some(NotSent)}
            && (s.row.value.Child? || s.reservation in {Some(Held), Some(ReconcileRequired)})
  {
    hide CallbacksTrace;
    var row := s.row.value;
    var calls := CallbacksTrace(true, row, false, s.callbacks);
    CallbacksKeep(row, false, Bound(row), s.callbacks);
    UncommittedCallbacks(row, s.callbacks);
    var settled := SettleTrace(row, false, TransportOf(s.boundary, false), s);
    assert DirectTrace(true, s) == [Attempt(Direct)] + [Bind(row)] + calls + settled;
    if s.boundary in {None, Some(NotSent)} && (row.Child? || s.reservation in {Some(Held), Some(ReconcileRequired)}) {
      assert Settles(settled[0]) && settled[0] in DirectTrace(true, s);
    }
  }

  lemma {:induction false} UncommittedCallbacks(row: RowKind, cs: seq<Callback>)
    requires !CommittedByAll(true, cs)
    ensures forall e <- CallbacksTrace(true, row, false, cs) :: e == Commit(row, false)
  {
    if cs != [] {
      assert !cs[0].commitAccepted;
      assert forall i | 0 <= i < |cs[1..]| :: cs[1..][i] == cs[i + 1];
      UncommittedCallbacks(row, cs[1..]);
    }
  }
}
