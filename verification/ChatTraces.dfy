/** What a chat call tells the ledger and the adapters, in closed form, and when
    it is made a second time, by what the environment does alone. */
module ChatTraces {
  import opened JsText
  import opened Wrappers
  import opened Dispatch
  import opened Failover

  type Callbacks = seq<Failover.Callback>

  function Live(cs: Callbacks): Callbacks {
    Filter((c: Failover.Callback) => !c.adapter.Missing?, cs)
  }

  predicate AllLive(cs: Callbacks) {
    forall c <- cs :: !c.adapter.Missing?
  }

  /** What callbacks that find an adapter send once nothing keeps them from it. */
  ghost function Sending(budget: bool, row: RowKind, live: Callbacks): Trace {
    if live == [] then []
    else
      [Invoke] + (if budget && live[0].adapter.Answers? then [Respond(row, live[0].recordAccepted)] else [])
      + Sending(budget, row, live[1..])
  }

  /** Commits until the ledger accepts one, and then the sending. */
  ghost function Talk(row: RowKind, live: Callbacks): Trace {
    if live == [] then []
    else if live[0].commitAccepted then [Commit(row, true)] + Sending(true, row, live)
    else [Commit(row, false)] + Talk(row, live[1..])
  }

  /** The provider answered, if only by an error status. */
  predicate Answered(a: Failover.Adapter) {
    a.Answers? || (a.Fails? && a.httpStatus)
  }

  lemma OneLive(budget: bool, s: State, truth: Transport, c: Failover.Callback)
    requires !c.adapter.Missing? && (budget && !s.committed ==> c.commitAccepted)
    ensures var (next, truth') := OnCallback(budget, s, truth, c);
            && next.committed == (s.committed || budget) && next.row == s.row && next.bound == s.bound
            && next.trace == s.trace + (if budget && !s.committed then [Commit(s.row, true)] else []) + [Invoke]
                             + (if budget && c.adapter.Answers? then [Respond(s.row, c.recordAccepted)] else [])
            && (truth' == ResponseReceived <==> Answered(c.adapter))
  {
  }

  lemma OneRefused(s: State, truth: Transport, c: Failover.Callback)
    requires !c.adapter.Missing? && !s.committed && !c.commitAccepted
    ensures OnCallback(true, s, truth, c) == (Emit(s, Commit(s.row, false)), SentOutcomeUnknown)
  {
  }

  lemma {:induction false} OnlyLiveMatter(budget: bool, s: State, truth: Transport, cs: Callbacks)
    ensures OnCallbacks(budget, s, truth, cs) == OnCallbacks(budget, s, truth, Live(cs))
    ensures AllLive(Live(cs))
    decreases |cs|
  {
    if cs != [] {
      var (next, truth') := OnCallback(budget, s, truth, cs[0]);
      OnlyLiveMatter(budget, next, truth', cs[1..]);
    }
  }

  lemma {:induction false} FreeCallbacks(budget: bool, s: State, truth: Transport, live: Callbacks)
    requires AllLive(live) && (budget ==> s.committed)
    ensures var (next, truth') := OnCallbacks(budget, s, truth, live);
            && next.trace == s.trace + Sending(budget, s.row, live)
            && next.committed == s.committed && next.row == s.row && next.bound == s.bound
            && (truth' == ResponseReceived <==>
                  if live == [] then truth == ResponseReceived else Answered(live[|live| - 1].adapter))
    decreases |live|
  {
    hide OnCallback;
    if live != [] {
      var (next, truth') := OnCallback(budget, s, truth, live[0]);
      OneLive(budget, s, truth, live[0]);
      FreeCallbacks(budget, next, truth', live[1..]);
    }
  }

  lemma {:induction false} CallbacksAre(s: State, truth: Transport, live: Callbacks)
    requires AllLive(live) && !s.committed && truth != ResponseReceived
    ensures var (next, truth') := OnCallbacks(true, s, truth, live);
            && next.trace == s.trace + Talk(s.row, live)
            && (next.committed <==> exists c <- live :: c.commitAccepted)
            && next.row == s.row && next.bound == s.bound
            && (truth' == ResponseReceived <==> next.committed && Answered(live[|live| - 1].adapter))
    decreases |live|
  {
    hide OnCallback;
    if live != [] {
      var (next, truth') := OnCallback(true, s, truth, live[0]);
      assert live == [live[0]] + live[1..];
      if live[0].commitAccepted {
        OneLive(true, s, truth, live[0]);
        FreeCallbacks(true, next, truth', live[1..]);
      } else {
        OneRefused(s, truth, live[0]);
        CallbacksAre(next, truth', live[1..]);
      }
    }
  }

  /** A first attempt that sent something and was answered in the end. */
  predicate Received(budget: bool, a: Script) {
    var live := Live(a.callbacks);
    && a.begun && (budget ==> a.row.Some?) && a.outboundAllowed && a.translated
    && live != [] && Answered(live[|live| - 1].adapter)
    && (budget ==> exists c <- live :: c.commitAccepted)
  }

  /** The first attempt of a call, from nothing bound. */
  lemma FirstAttemptIs(budget: bool, a: Script)
    ensures var (s, truth, failed) := SingleDispatch(budget, Initial, Primary, a);
            var sends := a.begun && (budget ==> a.row.Some?) && a.outboundAllowed && a.translated;
            var row := if budget && a.row.Some? then a.row.value else Parent;
            && s.trace ==
               [Attempt(Primary)]
               + (if !a.begun || !budget then [] else if a.row.None? then [BindRefused] else [Bind(row)])
               + (if !sends then [] else if budget then Talk(row, Live(a.callbacks))
                  else Sending(false, row, Live(a.callbacks)))
            && (failed <==> !sends || a.failure.Some?)
            && (s.bound <==> budget && a.begun && a.row.Some?)
            && (s.bound ==> s.row == row)
            && (s.committed <==> sends && budget && exists c <- Live(a.callbacks) :: c.commitAccepted)
            && (truth == ResponseReceived <==> Received(budget, a))
  {
    hide OnCallbacks, Talk, Sending, Live;
    var s1 := BindOnce(budget, Emit(Initial, Attempt(Primary)), a.row);
    OnlyLiveMatter(budget, s1, NotSent, a.callbacks);
    if budget {
      CallbacksAre(s1, NotSent, Live(a.callbacks));
    } else {
      FreeCallbacks(false, s1, NotSent, Live(a.callbacks));
    }
  }

  /** The second attempt of a call, on a binding that is committed. */
  lemma SecondAttemptIs(budget: bool, s: State, a: Script)
    requires budget ==> s.bound && s.committed
    ensures SingleDispatch(budget, s, Secondary, a).0.trace ==
            s.trace + [Attempt(Secondary)]
            + if a.begun && a.outboundAllowed && a.translated then Sending(budget, s.row, Live(a.callbacks)) else []
  {
    hide OnCallbacks, Sending, Live;
    var s1 := Emit(s, Attempt(Secondary));
    OnlyLiveMatter(budget, s1, NotSent, a.callbacks);
    FreeCallbacks(budget, s1, NotSent, Live(a.callbacks));
  }

  /** What the failure of the first attempt says of the account. */
  predicate Condemns(f: Failure) {
    f.appError && f.domain == Account && f.code in {CredentialInvalid, QuotaExhausted, RateLimited}
  }

  /** When a call is made a second time, by what the environment does alone. */
  lemma SecondAttemptByScript(budget: bool, c: CallScript)
    ensures Has(CompleteChat(budget, c).trace, Attempt(Secondary)) <==>
            && c.thoughtRoute && !c.failoverDisabled && c.secondaryKey
            && c.primary.failure.Some? && Condemns(c.primary.failure.value) && Received(budget, c.primary)
            && (c.remainingMs.None? || c.remainingMs.value >= 2500)
  {
    hide SingleDispatch, CompleteChat;
    FirstAttemptIs(budget, c.primary);
    SecondAttemptIff(budget, c);
  }

  /** A whole call: the first attempt, and after it the second, which only sends. */
  lemma ChatTraceIs(budget: bool, c: CallScript)
    ensures var first, second := SingleDispatch(budget, Initial, Primary, c.primary).0, c.secondary;
            CompleteChat(budget, c).trace ==
            first.trace +
            if !Has(CompleteChat(budget, c).trace, Attempt(Secondary)) then []
            else
              [Attempt(Secondary)]
              + if second.begun && second.outboundAllowed && second.translated
                then Sending(budget, first.row, Live(second.callbacks)) else []
  {
    hide SingleDispatch, Sending, Live;
    FirstAttemptIs(budget, c.primary);
    var (first, truth, failed) := SingleDispatch(budget, Initial, Primary, c.primary);
    AttemptsOf(budget, Initial, Primary, c.primary);
    if c.thoughtRoute && !c.failoverDisabled && failed && FailsOver(c, truth) {
      SecondAttemptIs(budget, first, c.secondary);
      assert SingleDispatch(budget, first, Secondary, c.secondary).0.trace[|first.trace|] == Attempt(Secondary);
    }
  }
}
