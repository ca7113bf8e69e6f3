/** Publishing sealed proposals to a review repository: mirror the public main
    branch, then create one branch a proposal, or verify the one that exists.
    A run may stop at any point and is simply started again. */
module Courier {
  import opened JsText
  import opened Wrappers

  /** A commit is known by its content, as its object id is. */
  datatype Commit = Commit(parents: seq<Commit>, tree: Text, message: Text, stamp: int)

  predicate Ancestor(a: Commit, c: Commit) {
    a == c || exists i :: 0 <= i < |c.parents| && Ancestor(a, c.parents[i])
  }

  /** A proposal as its manifest and patch seal it. */
  datatype Sealed = Sealed(
    changesetId: Text, baseCommit: Commit, baseTree: Text, sanitizedBaseTree: Text, candidateTree: Text,
    patch: Text, manifestSha: Text)

  /** What git makes of a patch on a tree, and the message of a proposal. */
  datatype Host = Host(apply: (Text, Text) -> Option<Text>, message: (Sealed, Text) -> Text)

  datatype Outcome = Published | ExistingVerified

  datatype Receipt = Receipt(seal: Sealed, tree: Text, commit: Commit, outcome: Outcome)

  /** The review repository's branches, and the courier's journal. */
  datatype World = World(main: Option<Commit>, selfs: map<Text, Commit>, journal: seq<Receipt>)

  /** Where one proposal stops short, if it does. A push that is lost may still
      have landed. */
  datatype Fault =
    | NoFault
    | BeforeMainPush
    | MainPushLost(mainLanded: bool)
    | BeforeSelfPush
    | SelfPushLost(selfLanded: bool)
    | BeforeJournal
    | AfterJournal

  /** What one proposal finds outside: the public main branch, the clock for a
      new commit, and the fault. */
  datatype Turn = Turn(public: Commit, stamp: int, fault: Fault)

  /** A push without force: only a new branch or a fast-forward is taken. */
  predicate Push(branch: Option<Commit>, commit: Commit) {
    branch.None? || Ancestor(branch.value, commit)
  }

  function SelfRef(w: World, cid: Text): Option<Commit> {
    if cid in w.selfs then Some(w.selfs[cid]) else None
  }

  function MirrorMain(w: World, t: Turn): (World, Option<Commit>) {
    if w.main.Some? && !Ancestor(w.main.value, t.public) then (w, None)
    else if t.fault == BeforeMainPush || t.fault == MainPushLost(false) then (w, None)
    else
      var w' := w.(main := Some(t.public));
      (w', if t.fault == MainPushLost(true) then None else Some(t.public))
  }

  /** The tree a sealed patch makes, where the seal is honest. */
  function SealedTree(host: Host, s: Sealed): Option<Text> {
    if s.baseCommit.tree != s.baseTree then None
    else
      match host.apply(s.baseTree, s.patch)
      case None => None
      case Some(tree) =>
        if tree == s.baseTree || (s.sanitizedBaseTree == s.baseTree && tree != s.candidateTree) then None
        else Some(tree)
  }

  predicate Carries(host: Host, c: Commit, s: Sealed, tree: Text) {
    |c.parents| > 0 && c.parents[0] == s.baseCommit && c.tree == tree && c.message == host.message(s, tree)
  }

  function Publish(host: Host, w: World, public: Commit, s: Sealed, t: Turn): (World, Option<Receipt>) {
    var tree := SealedTree(host, s);
    if !Ancestor(s.baseCommit, public) || tree.None? then (w, None)
    else
      match SelfRef(w, s.changesetId)
      case Some(existing) =>
        (w, if Carries(host, existing, s, tree.value) then Some(Receipt(s, tree.value, existing, ExistingVerified))
            else None)
      case None =>
        var commit := Commit([s.baseCommit], tree.value, host.message(s, tree.value), t.stamp);
        if t.fault == BeforeSelfPush || t.fault == SelfPushLost(false) then (w, None)
        else
          (w.(selfs := w.selfs[s.changesetId := commit]),
           if t.fault == SelfPushLost(true) then None else Some(Receipt(s, tree.value, commit, Published)))
  }

  function Propose(host: Host, w: World, s: Sealed, t: Turn): (World, Option<Receipt>) {
    var (w1, public) := MirrorMain(w, t);
    if public.None? then (w1, None)
    else
      var (w2, receipt) := Publish(host, w1, public.value, s, t);
      if receipt.None? || t.fault == BeforeJournal then (w2, None)
      else
        (w2.(journal := w2.journal + [receipt.value]), if t.fault == AfterJournal then None else receipt)
  }

  /** A run over the sealed pairs, in order, up to the first that fails. */
  function RunOnce(host: Host, w: World, seals: seq<Sealed>, turns: seq<Turn>): (World, Option<seq<Receipt>>)
    requires |turns| == |seals|
    decreases |seals|
  {
    if seals == [] then (w, Some([]))
    else
      var (w1, receipt) := Propose(host, w, seals[0], turns[0]);
      if receipt.None? then (w1, None)
      else
        var (w2, rest) := RunOnce(host, w1, seals[1..], turns[1..]);
        (w2, if rest.None? then None else Some([receipt.value] + rest.value))
  }

  // ---- The courier, step by step ----

  class Controller {
    const host: Host
    var main: Option<Commit>
    var selfs: map<Text, Commit>
    var journal: seq<Receipt>

    constructor (host: Host, w: World)
      ensures this.host == host && Now() == w
    {
      this.host, main, selfs, journal := host, w.main, w.selfs, w.journal;
    }

    function Now(): World
      reads this
    {
      World(main, selfs, journal)
    }

    method Mirror(t: Turn) returns (public: Option<Commit>)
      modifies this`main
      ensures (Now(), public) == MirrorMain(old(Now()), t)
    {
      var current := main;
      if current.Some? && !Ancestor(current.value, t.public) {
        return None;
      }
      if t.fault == BeforeMainPush {
        return None;
      }
      if current != Some(t.public) && Push(main, t.public) && t.fault != MainPushLost(false) {
        main := Some(t.public);
      }
      if t.fault.MainPushLost? || main != Some(t.public) {
        return None;
      }
      return Some(t.public);
    }

    method PublishOne(public: Commit, s: Sealed, t: Turn) returns (receipt: Option<Receipt>)
      modifies this`selfs
      ensures (Now(), receipt) == Publish(host, old(Now()), public, s, t)
    {
      if s.baseCommit.tree != s.baseTree || !Ancestor(s.baseCommit, public) {
        return None;
      }
      var applied := host.apply(s.baseTree, s.patch);
      if applied.None? {
        return None;
      }
      var tree := applied.value;
      if tree == s.baseTree {
        return None;
      }
      if s.sanitizedBaseTree == s.baseTree && tree != s.candidateTree {
        return None;
      }
      var message := host.message(s, tree);
      var existing := SelfRef(Now(), s.changesetId);
      if existing.Some? {
        var c := existing.value;
        if |c.parents| == 0 || c.parents[0] != s.baseCommit || c.tree != tree || c.message != message {
          return None;
        }
        return Some(Receipt(s, tree, c, ExistingVerified));
      }
      var commit := Commit([s.baseCommit], tree, message, t.stamp);
      if t.fault == BeforeSelfPush {
        return None;
      }
      if Push(existing, commit) && t.fault != SelfPushLost(false) {
        selfs := selfs[s.changesetId := commit];
      }
      if t.fault.SelfPushLost? || SelfRef(Now(), s.changesetId) != Some(commit) {
        return None;
      }
      return Some(Receipt(s, tree, commit, Published));
    }

    method Run(seals: seq<Sealed>, turns: seq<Turn>) returns (receipts: Option<seq<Receipt>>)
      requires |turns| == |seals|
      modifies this
      ensures (Now(), receipts) == RunOnce(host, old(Now()), seals, turns)
    {
      hide MirrorMain, Publish;
      ghost var start := Now();
      var done: seq<Receipt> := [];
      var i := 0;
      assert seals[0..] == seals && turns[0..] == turns;
      ExtendNone(RunOnce(host, start, seals, turns));
      while i < |seals|
        invariant 0 <= i <= |seals|
        invariant RunOnce(host, start, seals, turns) ==
                  Extend(done, RunOnce(host, Now(), seals[i..], turns[i..]))
      {
        assert seals[i..][0] == seals[i] && seals[i..][1..] == seals[i + 1..];
        assert turns[i..][0] == turns[i] && turns[i..][1..] == turns[i + 1..];
        var public := Mirror(turns[i]);
        if public.None? {
          return None;
        }
        var receipt := PublishOne(public.value, seals[i], turns[i]);
        if receipt.None? || turns[i].fault == BeforeJournal {
          return None;
        }
        journal := journal + [receipt.value];
        if turns[i].fault == AfterJournal {
          return None;
        }
        ExtendOnce(done, receipt.value, RunOnce(host, Now(), seals[i + 1..], turns[i + 1..]));
        done := done + [receipt.value];
        i := i + 1;
      }
      assert seals[i..] == [] && done + [] == done;
      return Some(done);
    }
  }

  function Extend(done: seq<Receipt>, r: (World, Option<seq<Receipt>>)): (World, Option<seq<Receipt>>) {
    (r.0, if r.1.None? then None else Some(done + r.1.value))
  }

  lemma ExtendNone(r: (World, Option<seq<Receipt>>))
    ensures Extend([], r) == r
  {
    if r.1.Some? {
      EmptyPrefix(r.1.value);
    }
  }

  lemma ExtendOnce(done: seq<Receipt>, x: Receipt, r: (World, Option<seq<Receipt>>))
    ensures Extend(done, Extend([x], r)) == Extend(done + [x], r)
  {
    if r.1.Some? {
      Associative(done, [x], r.1.value);
    }
  }

  // ---- Safety over any runs ----

  lemma {:induction false} AncestorIsTransitive(a: Commit, b: Commit, c: Commit)
    requires Ancestor(a, b) && Ancestor(b, c)
    ensures Ancestor(a, c)
    decreases c
  {
    if b != c {
      var i :| 0 <= i < |c.parents| && Ancestor(b, c.parents[i]);
      AncestorIsTransitive(a, b, c.parents[i]);
    }
  }

  /** Main has only moved to a descendant, no branch has changed or gone, and
      the journal has only grown. */
  predicate Evolves(w: World, v: World) {
    && (w.main.Some? ==> v.main.Some? && Ancestor(w.main.value, v.main.value))
    && (forall cid <- w.selfs :: cid in v.selfs && v.selfs[cid] == w.selfs[cid])
    && w.journal <= v.journal
  }

  /** The tree is what the seal promises: its patch on its base, a change, and
      the declared one where nothing was left out of the base. */
  predicate Promises(host: Host, s: Sealed, tree: Text) {
    && s.baseCommit.tree == s.baseTree && host.apply(s.baseTree, s.patch) == Some(tree)
    && tree != s.baseTree && (s.sanitizedBaseTree == s.baseTree ==> tree == s.candidateTree)
  }

  /** The commit is the sealed change: first on the sealed base, with the promised
      tree, under the message of the proposal. */
  predicate IsSealedChange(host: Host, c: Commit, s: Sealed) {
    && c.parents != [] && c.parents[0] == s.baseCommit
    && Promises(host, s, c.tree) && c.message == host.message(s, c.tree)
  }

  lemma SealedTreeIff(host: Host, s: Sealed, tree: Text)
    ensures SealedTree(host, s) == Some(tree) <==> Promises(host, s, tree)
  {
  }

  /** The branch of a seal holds the sealed change, on main's history. */
  predicate Holds(host: Host, w: World, s: Sealed) {
    && s.changesetId in w.selfs && IsSealedChange(host, w.selfs[s.changesetId], s)
    && w.main.Some? && Ancestor(s.baseCommit, w.main.value)
  }

  predicate Witnessed(host: Host, w: World) {
    forall r <- w.journal ::
      Holds(host, w, r.seal) && r.commit == w.selfs[r.seal.changesetId] && r.tree == r.commit.tree
  }

  lemma EvolvesIsTransitive(u: World, v: World, w: World)
    requires Evolves(u, v) && Evolves(v, w)
    ensures Evolves(u, w)
  {
    if u.main.Some? {
      AncestorIsTransitive(u.main.value, v.main.value, w.main.value);
    }
  }

  lemma HoldsOn(host: Host, w: World, v: World, s: Sealed)
    requires Holds(host, w, s) && Evolves(w, v)
    ensures Holds(host, v, s) && v.selfs[s.changesetId] == w.selfs[s.changesetId]
  {
    AncestorIsTransitive(s.baseCommit, w.main.value, v.main.value);
  }

  /** One proposal, stopped anywhere: nothing is lost or moved back, and a
      branch that appears, or a receipt that is written, is the sealed change. */
  lemma ProposeIsSafe(host: Host, w: World, s: Sealed, t: Turn)
    ensures var (v, receipt) := Propose(host, w, s, t);
            && Evolves(w, v)
            && (forall cid <- v.selfs :: cid !in w.selfs ==> cid == s.changesetId && Holds(host, v, s))
            && (receipt.Some? || v.journal != w.journal ==> Holds(host, v, s))
            && (v.journal == w.journal ||
                exists r :: v.journal == w.journal + [r] && r.seal == s && r.commit == v.selfs[s.changesetId]
                            && r.tree == r.commit.tree
                            && (r.outcome.Published? <==> s.changesetId !in w.selfs))
            && (receipt.Some? ==> v.journal == w.journal + [receipt.value])
  {
    var (v, receipt) := Propose(host, w, s, t);
    var (w1, public) := MirrorMain(w, t);
    if public.Some? {
      var (w2, r) := Publish(host, w1, public.value, s, t);
      if r.Some? && t.fault != BeforeJournal {
        assert v.journal == w.journal + [r.value];
      }
    }
  }

  /** Without a fault a proposal goes through exactly when main and the base are
      on the public history, the seal is honest, and its branch is new or holds
      the sealed change. Then main is the public commit, the receipt is in the
      journal, and a branch that was there is only verified. */
  lemma ProposeSucceedsIff(host: Host, w: World, s: Sealed, t: Turn)
    requires t.fault.NoFault?
    ensures var (v, receipt) := Propose(host, w, s, t);
            && (receipt.Some? <==>
                  && (w.main.Some? ==> Ancestor(w.main.value, t.public)) && Ancestor(s.baseCommit, t.public)
                  && (exists tree :: Promises(host, s, tree))
                  && (s.changesetId in w.selfs ==> IsSealedChange(host, w.selfs[s.changesetId], s)))
            && (receipt.Some? ==>
                  && v.main == Some(t.public) && v.journal == w.journal + [receipt.value]
                  && s.changesetId in v.selfs && receipt.value.commit == v.selfs[s.changesetId]
                  && receipt.value.seal == s && receipt.value.tree == receipt.value.commit.tree
                  && (receipt.value.outcome == ExistingVerified <==> s.changesetId in w.selfs))
  {
    if SealedTree(host, s).Some? {
      SealedTreeIff(host, s, SealedTree(host, s).value);
    } else if tree :| Promises(host, s, tree) {
      SealedTreeIff(host, s, tree);
    }
  }

  /** What a fault costs a proposal of a new branch that would go through: how far
      main, the branch and the journal came, and that the run stops. */
  lemma WhatAFaultCosts(host: Host, w: World, s: Sealed, t: Turn)
    requires Propose(host, w, s, t.(fault := NoFault)).1.Some? && s.changesetId !in w.selfs
    ensures var v := Propose(host, w, s, t).0;
            && (v.main == Some(t.public) || v.main == w.main) && (v.main == w.main || !t.fault.BeforeMainPush?)
            && (t.fault == MainPushLost(true) || !(t.fault.BeforeMainPush? || t.fault.MainPushLost?) ==>
                  v.main == Some(t.public))
            && (s.changesetId in v.selfs <==>
                  t.fault in {NoFault, SelfPushLost(true), BeforeJournal, AfterJournal})
            && (|v.journal| == |w.journal| + 1 <==> t.fault in {NoFault, AfterJournal})
            && (Propose(host, w, s, t).1.Some? <==> t.fault == NoFault)
  {
  }

  lemma ProposeIsWitnessed(host: Host, w: World, s: Sealed, t: Turn)
    requires Witnessed(host, w)
    ensures Witnessed(host, Propose(host, w, s, t).0)
  {
    hide Propose, Evolves, SealedTree, Carries, IsSealedChange;
    ProposeIsSafe(host, w, s, t);
    var v := Propose(host, w, s, t).0;
    forall r | r in w.journal ensures Holds(host, v, r.seal) && r.commit == v.selfs[r.seal.changesetId] {
      HoldsOn(host, w, v, r.seal);
    }
  }

  /** A history: runs over any seals, each meeting any world and any faults. */
  datatype Attempt = Attempt(seals: seq<Sealed>, turns: seq<Turn>)

  predicate WellFormed(runs: seq<Attempt>) {
    forall r <- runs :: |r.turns| == |r.seals|
  }

  function History(host: Host, w: World, runs: seq<Attempt>): World
    requires WellFormed(runs)
    decreases |runs|
  {
    if runs == [] then w
    else History(host, RunOnce(host, w, runs[0].seals, runs[0].turns).0, runs[1..])
  }

  lemma {:induction false} RunIsSafe(host: Host, w: World, seals: seq<Sealed>, turns: seq<Turn>)
    requires |turns| == |seals|
    ensures Evolves(w, RunOnce(host, w, seals, turns).0)
    ensures Witnessed(host, w) ==> Witnessed(host, RunOnce(host, w, seals, turns).0)
    decreases |seals|
  {
    hide Propose, Witnessed, Evolves;
    if seals == [] {
      EvolvesSame(w);
    } else {
      ProposeIsSafe(host, w, seals[0], turns[0]);
      if Witnessed(host, w) {
        ProposeIsWitnessed(host, w, seals[0], turns[0]);
      }
      var (v, receipt) := Propose(host, w, seals[0], turns[0]);
      if receipt.Some? {
        RunIsSafe(host, v, seals[1..], turns[1..]);
        EvolvesIsTransitive(w, v, RunOnce(host, w, seals, turns).0);
      }
    }
  }

  lemma EvolvesSame(w: World)
    ensures Evolves(w, w)
  {
  }

  /** Over any history of runs, each stopped anywhere: main only moves to
      descendants, a branch never changes once created, the journal only grows,
      and every receipt in it names the branch's commit, which has the sealed
      base, tree and message. */
  lemma {:induction false} HistoryIsSafe(host: Host, w: World, runs: seq<Attempt>)
    requires WellFormed(runs)
    ensures Evolves(w, History(host, w, runs))
    ensures Witnessed(host, w) ==> Witnessed(host, History(host, w, runs))
    decreases |runs|
  {
    hide RunOnce, Evolves, Witnessed;
    if runs == [] {
      EvolvesSame(w);
    } else {
      var v := RunOnce(host, w, runs[0].seals, runs[0].turns).0;
      RunIsSafe(host, w, runs[0].seals, runs[0].turns);
      HistoryIsSafe(host, v, runs[1..]);
      EvolvesIsTransitive(w, v, History(host, w, runs));
    }
  }

  /** The branch holds the change of one of the seals. */
  predicate SealedBy(host: Host, w: World, changesetId: Text, seals: seq<Sealed>) {
    exists s <- seals :: s.changesetId == changesetId && Holds(host, w, s)
  }

  /** Every branch that is new holds the change of one of the seals. */
  ghost predicate NewAreSealed(host: Host, w: World, v: World, seals: seq<Sealed>) {
    forall cid <- v.selfs :: cid !in w.selfs ==> SealedBy(host, v, cid, seals)
  }

  lemma NewAreSealedOn(host: Host, u: World, v: World, w: World, first: seq<Sealed>, rest: seq<Sealed>)
    requires NewAreSealed(host, u, v, first) && NewAreSealed(host, v, w, rest) && Evolves(v, w)
    ensures NewAreSealed(host, u, w, first + rest)
  {
    hide Holds;
    forall cid | cid in w.selfs && cid !in u.selfs ensures SealedBy(host, w, cid, first + rest) {
      if cid in v.selfs {
        var s :| s in first && s.changesetId == cid && Holds(host, v, s);
        HoldsOn(host, v, w, s);
        assert s in first + rest;
      } else {
        var s :| s in rest && s.changesetId == cid && Holds(host, w, s);
        assert s in first + rest;
      }
    }
  }

  lemma {:induction false} RunBranchesAreSealed(host: Host, w: World, seals: seq<Sealed>, turns: seq<Turn>)
    requires |turns| == |seals|
    ensures NewAreSealed(host, w, RunOnce(host, w, seals, turns).0, seals)
    decreases |seals|
  {
    hide Propose, Evolves, Holds;
    if seals != [] {
      var s := seals[0];
      assert seals == [s] + seals[1..];
      ProposeIsSafe(host, w, s, turns[0]);
      var (v, receipt) := Propose(host, w, s, turns[0]);
      assert s in [s] && s in seals;
      assert NewAreSealed(host, w, v, [s]) && NewAreSealed(host, w, v, seals);
      if receipt.Some? {
        RunBranchesAreSealed(host, v, seals[1..], turns[1..]);
        RunIsSafe(host, v, seals[1..], turns[1..]);
        NewAreSealedOn(host, w, v, RunOnce(host, v, seals[1..], turns[1..]).0, [s], seals[1..]);
      }
    }
  }

  function SealsOf(runs: seq<Attempt>): seq<Sealed> {
    if runs == [] then [] else runs[0].seals + SealsOf(runs[1..])
  }

  /** Over any history, also for a push that landed and left no receipt: every
      branch that was not there before holds the change of a seal of the runs. */
  lemma {:induction false} HistoryBranchesAreSealed(host: Host, w: World, runs: seq<Attempt>)
    requires WellFormed(runs)
    ensures NewAreSealed(host, w, History(host, w, runs), SealsOf(runs))
    decreases |runs|
  {
    hide RunOnce, Evolves, Holds;
    if runs != [] {
      var v := RunOnce(host, w, runs[0].seals, runs[0].turns).0;
      RunBranchesAreSealed(host, w, runs[0].seals, runs[0].turns);
      HistoryBranchesAreSealed(host, v, runs[1..]);
      HistoryIsSafe(host, v, runs[1..]);
      NewAreSealedOn(host, w, v, History(host, v, runs[1..]), runs[0].seals, SealsOf(runs[1..]));
    }
  }

  lemma ReceiptIsJournaled(host: Host, w: World, s: Sealed, t: Turn)
    requires Propose(host, w, s, t).1.Some?
    ensures Propose(host, w, s, t).1.value.seal == s
    ensures Propose(host, w, s, t).0.journal == w.journal + [Propose(host, w, s, t).1.value]
  {
    hide SealedTree, Carries, Ancestor;
  }

  /** A run that returns has one receipt for every proposal, in order, and has
      put them in the journal. */
  lemma {:induction false} RunReturnsReceipts(host: Host, w: World, seals: seq<Sealed>, turns: seq<Turn>)
    requires |turns| == |seals| && RunOnce(host, w, seals, turns).1.Some?
    ensures var (v, receipts) := RunOnce(host, w, seals, turns);
            && v.journal == w.journal + receipts.value && |receipts.value| == |seals|
            && forall i | 0 <= i < |seals| :: receipts.value[i].seal == seals[i]
    decreases |seals|
  {
    hide Propose;
    if seals != [] {
      ReceiptIsJournaled(host, w, seals[0], turns[0]);
      var (v, receipt) := Propose(host, w, seals[0], turns[0]);
      RunReturnsReceipts(host, v, seals[1..], turns[1..]);
      Associative(w.journal, [receipt.value], RunOnce(host, v, seals[1..], turns[1..]).1.value);
      assert forall i | 1 <= i < |seals| :: seals[i] == seals[1..][i - 1];
    } else {
      assert w.journal + [] == w.journal;
    }
  }

  /** Otherwise it stops in the world its first failing proposal left. */
  lemma {:induction false} RunStopsAtFirst(host: Host, w: World, seals: seq<Sealed>, turns: seq<Turn>)
    requires |turns| == |seals|
    ensures var (v, receipts) := RunOnce(host, w, seals, turns);
            && (receipts.None? <==> exists i :: StopsAt(host, w, seals, turns, i))
            && (forall i :: StopsAt(host, w, seals, turns, i) ==>
                  v == Propose(host, RunOnce(host, w, seals[..i], turns[..i]).0, seals[i], turns[i]).0)
    decreases |seals|
  {
    hide Propose;
    if seals != [] {
      var (v, receipt) := Propose(host, w, seals[0], turns[0]);
      forall i ensures StopsAt(host, w, seals, turns, i) <==>
                       if receipt.None? then i == 0 else StopsAt(host, v, seals[1..], turns[1..], i - 1) {
        StopsLater(host, w, seals, turns, i);
      }
      if receipt.Some? {
        RunStopsAtFirst(host, v, seals[1..], turns[1..]);
        if i :| StopsAt(host, v, seals[1..], turns[1..], i) {
          assert StopsAt(host, w, seals, turns, i + 1);
        }
        forall i | StopsAt(host, w, seals, turns, i)
          ensures RunOnce(host, w, seals, turns).0 ==
                  Propose(host, RunOnce(host, w, seals[..i], turns[..i]).0, seals[i], turns[i]).0
        {
          PrefixRun(host, w, seals, turns, i);
          assert seals[1..][i - 1] == seals[i] && turns[1..][i - 1] == turns[i];
        }
      } else {
        assert StopsAt(host, w, seals, turns, 0);
        assert RunOnce(host, w, seals[..0], turns[..0]).0 == w;
      }
    }
  }

  /** The proposals before this one go through and this one does not. */
  ghost predicate StopsAt(host: Host, w: World, seals: seq<Sealed>, turns: seq<Turn>, i: int)
    requires |turns| == |seals|
  {
    && 0 <= i < |seals| && RunOnce(host, w, seals[..i], turns[..i]).1.Some?
    && Propose(host, RunOnce(host, w, seals[..i], turns[..i]).0, seals[i], turns[i]).1.None?
  }

  lemma PrefixRun(host: Host, w: World, seals: seq<Sealed>, turns: seq<Turn>, i: nat)
    requires |turns| == |seals| && 0 < i <= |seals| && Propose(host, w, seals[0], turns[0]).1.Some?
    ensures var v := Propose(host, w, seals[0], turns[0]).0;
            && RunOnce(host, w, seals[..i], turns[..i]).0 ==
               RunOnce(host, v, seals[1..][..i - 1], turns[1..][..i - 1]).0
            && (RunOnce(host, w, seals[..i], turns[..i]).1.Some? <==>
                  RunOnce(host, v, seals[1..][..i - 1], turns[1..][..i - 1]).1.Some?)
  {
    hide Propose;
    assert seals[..i][1..] == seals[1..][..i - 1] && turns[..i][1..] == turns[1..][..i - 1];
  }

  lemma StopsLater(host: Host, w: World, seals: seq<Sealed>, turns: seq<Turn>, i: int)
    requires |turns| == |seals| && seals != []
    ensures var (v, receipt) := Propose(host, w, seals[0], turns[0]);
            StopsAt(host, w, seals, turns, i) <==>
            if receipt.None? then i == 0 else StopsAt(host, v, seals[1..], turns[1..], i - 1)
  {
    hide Propose;
    var (v, receipt) := Propose(host, w, seals[0], turns[0]);
    if 0 < i < |seals| {
      if receipt.Some? {
        PrefixRun(host, w, seals, turns, i);
        assert seals[1..][i - 1] == seals[i] && turns[1..][i - 1] == turns[i];
      } else {
        assert seals[..i] != [] && seals[..i][0] == seals[0] && turns[..i][0] == turns[0];
        assert RunOnce(host, w, seals[..i], turns[..i]).1.None?;
      }
    }
  }

  // ---- Retrying ----

  /** Once a seal's branch holds it, trying it again, after any further history
      and whatever else goes wrong, changes no branch, and any receipt written
      verifies the same commit. */
  lemma RetryChangesNothing(host: Host, w: World, runs: seq<Attempt>, s: Sealed, t: Turn)
    requires Holds(host, w, s) && WellFormed(runs)
    ensures var v := History(host, w, runs);
            var (u, receipt) := Propose(host, v, s, t);
            && u.selfs == v.selfs
            && (u.journal == v.journal || u.journal == v.journal + [Verified(host, w, s)])
            && (receipt.Some? ==> receipt.value == Verified(host, w, s))
  {
    hide History, Evolves, Holds;
    HistoryIsSafe(host, w, runs);
    var v := History(host, w, runs);
    HoldsOn(host, w, v, s);
    RetryFinds(host, v, s, t);
  }

  function Verified(host: Host, w: World, s: Sealed): Receipt
    requires Holds(host, w, s)
  {
    Receipt(s, w.selfs[s.changesetId].tree, w.selfs[s.changesetId], ExistingVerified)
  }

  lemma RetryFinds(host: Host, w: World, s: Sealed, t: Turn)
    requires Holds(host, w, s)
    ensures var (u, receipt) := Propose(host, w, s, t);
            && u.selfs == w.selfs
            && (u.journal == w.journal || u.journal == w.journal + [Verified(host, w, s)])
            && (receipt.Some? ==> receipt.value == Verified(host, w, s))
            && (t.fault.NoFault? ==> (receipt.Some? <==> Ancestor(w.main.value, t.public)))
  {
    if Ancestor(w.main.value, t.public) {
      AncestorIsTransitive(s.baseCommit, w.main.value, t.public);
    }
  }

  /** And it succeeds: a retry without a fault returns the same commit, verified,
      exactly when the public branch still descends from main. */
  lemma RetrySucceedsIff(host: Host, w: World, runs: seq<Attempt>, s: Sealed, t: Turn)
    requires Holds(host, w, s) && WellFormed(runs) && t.fault.NoFault?
    ensures var v := History(host, w, runs);
            && v.main.Some?
            && (Propose(host, v, s, t).1 == Some(Verified(host, w, s)) <==> Ancestor(v.main.value, t.public))
  {
    hide History, Evolves, Propose, SealedTree, Carries, IsSealedChange;
    HistoryIsSafe(host, w, runs);
    var v := History(host, w, runs);
    HoldsOn(host, w, v, s);
    RetryFinds(host, v, s, t);
  }

  /** A push that was lost but had landed is found again: the first attempt to
      create the branch decides its commit. */
  lemma LostPushIsRecovered(host: Host, w: World, s: Sealed, t: Turn, again: Turn)
    requires s.changesetId !in w.selfs && s.changesetId in Propose(host, w, s, t).0.selfs
    requires again.fault.NoFault? && Ancestor(t.public, again.public)
    ensures var v := Propose(host, w, s, t).0;
            && Holds(host, v, s)
            && Propose(host, v, s, again).1 == Some(Verified(host, v, s))
  {
    hide SealedTree, Carries, IsSealedChange, Holds;
    ProposeIsSafe(host, w, s, t);
    var v := Propose(host, w, s, t).0;
    assert v.main == Some(t.public);
    RetryFinds(host, v, s, again);
  }
}
