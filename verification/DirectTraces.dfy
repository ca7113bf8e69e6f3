/** What a direct run tells the ledger and the adapter, in closed form. */
module DirectTraces {
  import opened Wrappers
  import opened Dispatch

  /** What one callback sends once nothing keeps it from sending. */
  ghost function Sends(budget: bool, row: RowKind, c: Callback): Trace {
    match c.adapter
    case Missing => []
    case Fails => [Invoke]
    case Answers(complete) => if complete && budget then [Invoke, Respond(row, c.recordAccepted)] else [Invoke]
  }

  ghost function Sending(budget: bool, row: RowKind, cs: seq<Callback>): Trace {
    if cs == [] then [] else Sends(budget, row, cs[0]) + Sending(budget, row, cs[1..])
  }

  /** Commits until the ledger accepts one, and then the sending. */
  ghost function Talk(row: RowKind, cs: seq<Callback>): Trace {
    if cs == [] then []
    else if cs[0].commitAccepted then [Commit(row, true)] + Sending(true, row, cs)
    else [Commit(row, false)] + Talk(row, cs[1..])
  }

  lemma OneCallback(budget: bool, row: RowKind, committed: bool, c: Callback)
    ensures CallbackTrace(budget, row, committed, c) ==
            if !budget || committed then Sends(budget, row, c)
            else if c.commitAccepted then [Commit(row, true)] + Sends(true, row, c)
            else [Commit(row, false)]
  {
  }

  lemma {:induction false} FreeCallbacks(budget: bool, row: RowKind, committed: bool, cs: seq<Callback>)
    requires budget ==> committed
    ensures CallbacksTrace(budget, row, committed, cs) == Sending(budget, row, cs)
  {
    hide CallbackTrace, Sends;
    if cs != [] {
      OneCallback(budget, row, committed, cs[0]);
      FreeCallbacks(budget, row, committed, cs[1..]);
    }
  }

  lemma {:induction false} CallbacksAre(row: RowKind, cs: seq<Callback>)
    ensures CallbacksTrace(true, row, false, cs) == Talk(row, cs)
  {
    hide CallbackTrace, Sends;
    if cs != [] {
      OneCallback(true, row, false, cs[0]);
      if cs[0].commitAccepted {
        FreeCallbacks(true, row, true, cs[1..]);
      } else {
        CallbacksAre(row, cs[1..]);
      }
    }
  }

  /** What a run that fails tells the ledger of its row in the end, by what the
      ledger accepted before and what the error says of the sending. */
  ghost function LastWord(row: RowKind, s: DirectScript): Trace {
    if exists c <- s.callbacks :: c.commitAccepted then
      if s.boundary == Some(ResponseReceived) then [Respond(row, s.settleAccepted)] else []
    else if s.boundary != None && s.boundary != Some(NotSent) then []
    else if row != Parent then [Release(row, s.settleAccepted)]
    else if s.reservation == Some(Held) && s.composeAbort then [NoDispatchProof(row, s.settleAccepted)]
    else if s.reservation in {Some(Held), Some(ReconcileRequired)} then [Release(row, s.settleAccepted)]
    else []
  }

  lemma LastWordIs(row: RowKind, s: DirectScript)
    ensures SettleTrace(row, CommittedByAll(true, s.callbacks),
                        TransportOf(s.boundary, InvokedByAll(true, false, s.callbacks)), s) == LastWord(row, s)
  {
    CallbacksKeep(row, false, Bound(row), s.callbacks);
    assert CommittedByAll(true, s.callbacks) <==> exists c <- s.callbacks :: c.commitAccepted;
  }

  /** A whole run with a budget: a bind, commits until one is accepted, the
      sending, and the last word of a run that fails. */
  lemma DirectTraceIs(s: DirectScript)
    ensures DirectTrace(true, s) ==
            [Attempt(Direct)] +
            if !s.outboundAllowed then []
            else if s.row.None? then [BindRefused]
            else
              [Bind(s.row.value)] + Talk(s.row.value, s.callbacks)
              + if s.fails then LastWord(s.row.value, s) else []
  {
    hide CallbacksTrace, SettleTrace, Talk, LastWord;
    if s.row.Some? {
      CallbacksAre(s.row.value, s.callbacks);
      LastWordIs(s.row.value, s);
    }
  }

  /** And without one: no more than the sending. */
  lemma UnbudgetedTraceIs(s: DirectScript)
    ensures DirectTrace(false, s) ==
            [Attempt(Direct)] + if s.outboundAllowed then Sending(false, Parent, s.callbacks) else []
  {
    FreeCallbacks(false, Parent, false, s.callbacks);
  }
}
