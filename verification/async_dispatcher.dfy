/** The dispatcher that polls C++ futures for the Python event loop: one thread takes all pending pollers,
    polls each once, and puts back those that are not done, while other threads keep adding. */
module AsyncDispatcher {
  import opened Wrappers

  /** Pollers are numbered in the order they were added. */
  type Poller = nat

  datatype Outcome = Done | NotDone | Threw

  datatype Poll = Poll(round: nat, poller: Poller, outcome: Outcome)

  /** `batch[..polled]` has been polled in the running round; `batch` is empty between rounds. */
  datatype Snapshot = Snapshot(
    added: nat, pending: seq<Poller>, batch: seq<Poller>, polled: nat, carried: seq<Poller>,
    finished: seq<Poller>, round: nat, log: seq<Poll>)

  const INITIAL := Snapshot(0, [], [], 0, [], [], 0, [])

  datatype Action =
    | Add                     // by any thread
    | Swap                    // the worker wakes up and takes all that is pending
    | PollNext(outcome: Outcome)
    | PutBack                 // the round is over

  predicate Enabled(s: Snapshot, a: Action) {
    match a
    case Add => true
    case Swap => s.batch == [] && s.pending != []
    case PollNext(_) => s.polled < |s.batch|
    case PutBack => s.batch != [] && s.polled == |s.batch|
  }

  function Act(s: Snapshot, a: Action): Snapshot
    requires Enabled(s, a)
  {
    match a
    case Add => s.(pending := s.pending + [s.added], added := s.added + 1)
    case Swap => s.(batch := s.pending, pending := [], polled := 0, carried := [], round := s.round + 1)
    case PollNext(outcome) =>
      var p := s.batch[s.polled];
      var t := s.(polled := s.polled + 1, log := s.log + [Poll(s.round, p, outcome)]);
      if outcome.NotDone? then t.(carried := s.carried + [p]) else t.(finished := s.finished + [p])
    case PutBack => s.(pending := s.pending + s.carried, carried := [], batch := [], polled := 0)
  }

  // ----- The invariant -----

  /** How often a poller occurs among pending, still to poll, carried over and finished. */
  ghost function Places(s: Snapshot, p: Poller): nat
    requires s.polled <= |s.batch|
  {
    multiset(s.pending)[p] + multiset(s.batch[s.polled..])[p] + multiset(s.carried)[p] + multiset(s.finished)[p]
  }

  ghost predicate Conserved(s: Snapshot) {
    && s.polled <= |s.batch| && (s.batch == [] ==> s.carried == [])
    && forall p: Poller {:trigger Places(s, p)} :: Places(s, p) == if p < s.added then 1 else 0
  }

  /** What the log says about a poller it mentions. */
  ghost predicate LogOk(s: Snapshot) {
    && (forall i :: 0 <= i < |s.log| ==> s.log[i].round <= s.round)
    && (forall i :: 0 <= i < |s.log| && !s.log[i].outcome.NotDone? ==> s.log[i].poller in s.finished)
    && (forall i :: 0 <= i < |s.log| && s.log[i].round == s.round && s.batch != [] ==>
          s.log[i].poller in s.carried || s.log[i].poller in s.finished)
  }

  /** Polled again only in a later round, and only after not being done. */
  ghost predicate PolledInTurn(s: Snapshot) {
    forall i, j :: 0 <= i < j < |s.log| && s.log[i].poller == s.log[j].poller ==>
      s.log[i].round < s.log[j].round && s.log[i].outcome.NotDone?
  }

  ghost predicate Logged(s: Snapshot, round: nat, p: Poller) {
    exists i :: 0 <= i < |s.log| && s.log[i].round == round && s.log[i].poller == p
  }

  /** Everything before the position in the batch has been polled in this round. */
  ghost predicate BatchPolled(s: Snapshot) {
    forall k :: 0 <= k < s.polled && k < |s.batch| ==> Logged(s, s.round, s.batch[k])
  }

  ghost predicate Inv(s: Snapshot) {
    Conserved(s) && LogOk(s) && PolledInTurn(s) && BatchPolled(s)
  }

  /** No action moves a poller to two places or to none; only `Add` brings one in. */
  lemma ActKeepsPlaces(s: Snapshot, a: Action, p: Poller)
    requires s.polled <= |s.batch| && (s.batch == [] ==> s.carried == []) && Enabled(s, a)
    ensures Act(s, a).polled <= |Act(s, a).batch|
    ensures Places(Act(s, a), p) == Places(s, p) + if a.Add? && p == s.added then 1 else 0
  {
    match a
    case Add =>
    case Swap => NothingLeft(s); assert s.pending[0..] == s.pending;
    case PollNext(outcome) => PollKeepsPlaces(s, outcome, p);
    case PutBack => NothingLeft(s); NothingLeft(Act(s, a));
  }

  lemma NothingLeft(s: Snapshot)
    requires s.polled <= |s.batch| && (s.batch == [] || s.polled == |s.batch|)
    ensures s.batch[s.polled..] == []
  {
  }

  lemma PollKeepsPlaces(s: Snapshot, outcome: Outcome, p: Poller)
    requires s.polled < |s.batch|
    ensures Places(Act(s, PollNext(outcome)), p) == Places(s, p)
  {
    FirstOfRest(s.batch, s.polled, p);
  }

  lemma FirstOfRest(batch: seq<Poller>, i: nat, p: Poller)
    requires i < |batch|
    ensures multiset(batch[i..])[p] == multiset(batch[i + 1..])[p] + if batch[i] == p then 1 else 0
  {
    assert batch[i..] == [batch[i]] + batch[i + 1..];
  }

  lemma ActKeepsConserved(s: Snapshot, a: Action)
    requires Conserved(s) && Enabled(s, a)
    ensures Conserved(Act(s, a))
  {
    hide Places;
    var t := Act(s, a);
    ActKeepsPlaces(s, a, 0);
    forall p: Poller ensures Places(t, p) == if p < t.added then 1 else 0 {
      ActKeepsPlaces(s, a, p);
    }
  }

  /** A poller about to be polled has not been polled in this round and has never been done. */
  lemma NextIsUnpolled(s: Snapshot, i: nat)
    requires Conserved(s) && LogOk(s) && s.polled < |s.batch| && i < |s.log|
    requires s.log[i].poller == s.batch[s.polled]
    ensures s.log[i].round < s.round && s.log[i].outcome.NotDone?
  {
    var p := s.batch[s.polled];
    assert s.batch[s.polled..][0] == p;
    assert Places(s, p) <= 1;
    assert p !in s.carried && p !in s.finished;
  }

  lemma PollKeepsLog(s: Snapshot, outcome: Outcome)
    requires Inv(s) && Enabled(s, PollNext(outcome))
    ensures var t := Act(s, PollNext(outcome)); LogOk(t) && PolledInTurn(t) && BatchPolled(t)
  {
    hide Conserved, Logged;
    var t := Act(s, PollNext(outcome));
    forall i, j | 0 <= i < j < |t.log| && t.log[i].poller == t.log[j].poller
      ensures t.log[i].round < t.log[j].round && t.log[i].outcome.NotDone?
    {
      if j == |s.log| {
        NextIsUnpolled(s, i);
      }
    }
    forall k | 0 <= k < t.polled ensures Logged(t, t.round, t.batch[k]) {
      LoggedStays(s, t, s.round, t.batch[k]);
      JustLogged(t);
    }
  }

  lemma LoggedStays(s: Snapshot, t: Snapshot, round: nat, p: Poller)
    requires |s.log| <= |t.log| && t.log[..|s.log|] == s.log
    ensures Logged(s, round, p) ==> Logged(t, round, p)
  {
    if Logged(s, round, p) {
      var i :| 0 <= i < |s.log| && s.log[i].round == round && s.log[i].poller == p;
      assert t.log[i] == t.log[..|s.log|][i];
    }
  }

  lemma JustLogged(t: Snapshot)
    requires t.log != []
    ensures Logged(t, t.log[|t.log| - 1].round, t.log[|t.log| - 1].poller)
  {
  }

  lemma ActKeepsInv(s: Snapshot, a: Action)
    requires Inv(s) && Enabled(s, a)
    ensures Inv(Act(s, a))
  {
    hide Places;
    ActKeepsConserved(s, a);
    if a.PollNext? {
      PollKeepsLog(s, a.outcome);
    } else if a.Add? {
      forall k | 0 <= k < s.polled && k < |s.batch| ensures Logged(Act(s, a), s.round, s.batch[k]) {
        LoggedStays(s, Act(s, a), s.round, s.batch[k]);
      }
    }
  }

  // ----- Runs -----

  ghost predicate IsRun(states: seq<Snapshot>, actions: seq<Action>) {
    && |states| == |actions| + 1 && states[0] == INITIAL
    && forall i :: 0 <= i < |actions| ==> Enabled(states[i], actions[i]) && states[i + 1] == Act(states[i], actions[i])
  }

  lemma {:induction false} RunKeepsInv(states: seq<Snapshot>, actions: seq<Action>, i: nat)
    requires IsRun(states, actions) && i < |states|
    ensures Inv(states[i])
  {
    hide Act, Enabled;
    if i > 0 {
      RunKeepsInv(states, actions, i - 1);
      assert states[i - 1 + 1] == Act(states[i - 1], actions[i - 1]);
      ActKeepsInv(states[i - 1], actions[i - 1]);
    }
  }

  /** No poller is lost or duplicated: at every step each one added is in exactly one place. */
  lemma EveryPollerHasOnePlace(states: seq<Snapshot>, actions: seq<Action>, i: nat, p: Poller)
    requires IsRun(states, actions) && i < |states|
    ensures states[i].polled <= |states[i].batch|
    ensures Places(states[i], p) == if p < states[i].added then 1 else 0
  {
    hide Places, IsRun;
    RunKeepsInv(states, actions, i);
  }

  /** A poller is polled at most once in a round, and never again once it was done or threw. */
  lemma NeverPolledTwiceInARound(states: seq<Snapshot>, actions: seq<Action>, i: nat, j: nat, k: nat)
    requires IsRun(states, actions) && i < |states|
    requires j < k < |states[i].log| && states[i].log[j].poller == states[i].log[k].poller
    ensures states[i].log[j].round < states[i].log[k].round && states[i].log[j].outcome.NotDone?
  {
    hide Conserved, LogOk, BatchPolled, IsRun;
    RunKeepsInv(states, actions, i);
  }

  /** A round that ends has polled every poller it took. */
  lemma RoundPollsItsBatch(states: seq<Snapshot>, actions: seq<Action>, i: nat, k: nat)
    requires IsRun(states, actions) && i < |actions| && actions[i] == PutBack && k < |states[i].batch|
    ensures Logged(states[i], states[i].round, states[i].batch[k])
  {
    hide Conserved, LogOk, PolledInTurn;
    assert Enabled(states[i], actions[i]);
    RunKeepsInv(states, actions, i);
  }

  // ----- The worker -----

  ghost function Acts(s: Snapshot, actions: seq<Action>): Option<Snapshot> {
    if actions == [] then Some(s)
    else
      var before := Acts(s, actions[..|actions| - 1]);
      var a := actions[|actions| - 1];
      if before.Some? && Enabled(before.value, a) then Some(Act(before.value, a)) else None
  }

  lemma ActsPush(s: Snapshot, actions: seq<Action>, a: Action)
    ensures Acts(s, actions + [a]) ==
      var before := Acts(s, actions);
      if before.Some? && Enabled(before.value, a) then Some(Act(before.value, a)) else None
  {
    hide Act, Enabled;
    assert (actions + [a])[..|actions|] == actions;
  }

  lemma ActsNone(s: Snapshot)
    ensures Acts(s, []) == Some(s)
  {
  }

  class AsyncFutureDispatcher {
    var pending: seq<Poller>
    var added: nat

    ghost var finished: seq<Poller>
    ghost var round: nat
    ghost var log: seq<Poll>

    /** The state between rounds. */
    ghost function State(): Snapshot
      reads this
    {
      Snapshot(added, pending, [], 0, [], finished, round, log)
    }

    ghost predicate Valid()
      reads this
    {
      Inv(State())
    }

    constructor ()
      ensures Valid() && State() == INITIAL
    {
      pending, added := [], 0;
      finished, round, log := [], 0, [];
    }

    /** `add`, by any thread at any time; between rounds it is the action `Add`. */
    method AddPoller()
      modifies this`pending, this`added
      ensures pending == old(pending) + [old(added)] && added == old(added) + 1
      ensures old(Valid()) ==> Valid() && State() == Act(old(State()), Add)
    {
      hide Inv;
      if Inv(State()) {
        ActKeepsInv(State(), Add);
      }
      pending := pending + [added];
      added := added + 1;
    }

    /** Other threads add `n` pollers. */
    method AddMany(n: nat)
      modifies this`pending, this`added
      ensures added == old(added) + n && pending == old(pending) + Ids(old(added), n)
    {
      var i := 0;
      while i < n
        invariant 0 <= i <= n && added == old(added) + i && pending == old(pending) + Ids(old(added), i)
      {
        assert Ids(old(added), i + 1) == Ids(old(added), i) + [old(added) + i];
        AddPoller();
        i := i + 1;
      }
    }

    /** One round of the worker.  `outcomes` are the answers of the pollers taken, in order; `adds` says how
        many pollers other threads add before each of them is polled, `addsAtEnd` how many before the
        worker puts the rest back.  The round is a run of the actions, polls exactly the pollers that were
        pending, each once and in order, and leaves the newly added ones in front of those not done. */
    method RunRound(outcomes: seq<Outcome>, adds: seq<nat>, addsAtEnd: nat) returns (ghost actions: seq<Action>)
      requires Valid() && pending != []
      requires |outcomes| == |adds| == |pending|
      modifies this
      ensures Valid() && Acts(old(State()), actions) == Some(State())
      ensures round == old(round) + 1 && log == old(log) + PollsOf(round, old(pending), outcomes)
      ensures added >= old(added)
      ensures pending == Ids(old(added), added - old(added)) + Keep(old(pending), outcomes)
    {
      hide Act, Inv, Acts, Ids, Adds, Keep, PollsOf;
      ghost var start := State();
      var batch := pending;
      pending := [];
      round := round + 1;
      var stillPending: seq<Poller> := [];
      actions := [Swap];
      SwapActs(start);
      NoIds(old(added));
      assert batch[..0] == [] && outcomes[..0] == [];
      NothingPolled(round);
      var i := 0;
      while i < |batch|
        invariant 0 <= i <= |batch| && added >= old(added) && round == old(round) + 1
        invariant Acts(start, actions) == Some(Snapshot(added, pending, batch, i, stillPending, finished, round, log))
        invariant log == old(log) + PollsOf(round, batch[..i], outcomes[..i])
        invariant pending == Ids(old(added), added - old(added))
        invariant stillPending == Keep(batch[..i], outcomes[..i])
      {
        ghost var s := Snapshot(added, pending, batch, i, stillPending, finished, round, log);
        AddsAct(start, actions, s, adds[i]);
        IdsConcat(old(added), added - old(added), adds[i]);
        AddMany(adds[i]);
        ghost var t := Snapshot(added, pending, batch, i, stillPending, finished, round, log);
        PollActs(start, actions + Adds(adds[i]), t, outcomes[i]);
        actions := actions + Adds(adds[i]) + [PollNext(outcomes[i])];
        log := log + [Poll(round, batch[i], outcomes[i])];
        if outcomes[i].NotDone? {
          stillPending := stillPending + [batch[i]];
        } else {
          finished := finished + [batch[i]];
        }
        OneMorePolled(round, batch, outcomes, i);
        i := i + 1;
      }
      assert batch[..i] == batch && outcomes[..i] == outcomes;
      ghost var s := Snapshot(added, pending, batch, i, stillPending, finished, round, log);
      AddsAct(start, actions, s, addsAtEnd);
      IdsConcat(old(added), added - old(added), addsAtEnd);
      AddMany(addsAtEnd);
      ghost var t := Snapshot(added, pending, batch, i, stillPending, finished, round, log);
      PutBackActs(start, actions + Adds(addsAtEnd), t);
      actions := actions + Adds(addsAtEnd) + [PutBack];
      pending := pending + stillPending;
      ActsKeepInv(start, actions);
    }
  }

  function Ids(from: nat, n: nat): seq<Poller> {
    seq(n, i requires 0 <= i => from + i)
  }

  function Adds(n: nat): seq<Action> {
    seq(n, _ => Add)
  }

  /** The pollers of a batch that are not done, in order. */
  function Keep(batch: seq<Poller>, outcomes: seq<Outcome>): seq<Poller>
    requires |batch| == |outcomes|
  {
    if batch == [] then []
    else
      var n := |batch| - 1;
      Keep(batch[..n], outcomes[..n]) + if outcomes[n].NotDone? then [batch[n]] else []
  }

  function PollsOf(round: nat, batch: seq<Poller>, outcomes: seq<Outcome>): seq<Poll>
    requires |batch| == |outcomes|
  {
    seq(|batch|, i requires 0 <= i < |batch| => Poll(round, batch[i], outcomes[i]))
  }

  lemma NothingPolled(round: nat)
    ensures Keep([], []) == [] && PollsOf(round, [], []) == []
  {
  }

  lemma OneMorePolled(round: nat, batch: seq<Poller>, outcomes: seq<Outcome>, i: nat)
    requires |batch| == |outcomes| && i < |batch|
    ensures Keep(batch[..i + 1], outcomes[..i + 1])
            == Keep(batch[..i], outcomes[..i]) + if outcomes[i].NotDone? then [batch[i]] else []
    ensures PollsOf(round, batch[..i + 1], outcomes[..i + 1])
            == PollsOf(round, batch[..i], outcomes[..i]) + [Poll(round, batch[i], outcomes[i])]
  {
    assert batch[..i + 1][..i] == batch[..i] && outcomes[..i + 1][..i] == outcomes[..i];
  }

  lemma NoIds(from: nat)
    ensures Ids(from, 0) == []
  {
  }

  lemma IdsConcat(from: nat, n: nat, m: nat)
    ensures Ids(from, n) + Ids(from + n, m) == Ids(from, n + m)
  {
  }

  lemma SwapActs(s: Snapshot)
    requires s.batch == [] && s.pending != []
    ensures Acts(s, [Swap])
            == Some(s.(batch := s.pending, pending := [], polled := 0, carried := [], round := s.round + 1))
  {
    ActsNone(s);
    ActsPush(s, [], Swap);
    assert [] + [Swap] == [Swap];
  }

  lemma {:induction false} AddsAct(start: Snapshot, actions: seq<Action>, s: Snapshot, n: nat)
    requires Acts(start, actions) == Some(s)
    ensures Acts(start, actions + Adds(n)) == Some(s.(pending := s.pending + Ids(s.added, n), added := s.added + n))
  {
    hide Acts;
    if n == 0 {
      assert actions + Adds(0) == actions && s.pending + Ids(s.added, 0) == s.pending;
    } else {
      AddsAct(start, actions, s, n - 1);
      assert actions + Adds(n) == (actions + Adds(n - 1)) + [Add];
      ActsPush(start, actions + Adds(n - 1), Add);
      assert s.pending + Ids(s.added, n) == s.pending + Ids(s.added, n - 1) + [s.added + (n - 1)];
    }
  }

  lemma PollActs(start: Snapshot, actions: seq<Action>, s: Snapshot, outcome: Outcome)
    requires Acts(start, actions) == Some(s) && s.polled < |s.batch|
    ensures Acts(start, actions + [PollNext(outcome)]) == Some(Act(s, PollNext(outcome)))
    ensures var t := Act(s, PollNext(outcome)); var p := s.batch[s.polled];
      t == s.(polled := s.polled + 1, log := s.log + [Poll(s.round, p, outcome)],
              carried := if outcome.NotDone? then s.carried + [p] else s.carried,
              finished := if outcome.NotDone? then s.finished else s.finished + [p])
  {
    hide Acts;
    ActsPush(start, actions, PollNext(outcome));
  }

  lemma PutBackActs(start: Snapshot, actions: seq<Action>, s: Snapshot)
    requires Acts(start, actions) == Some(s) && s.batch != [] && s.polled == |s.batch|
    ensures Acts(start, actions + [PutBack])
            == Some(s.(pending := s.pending + s.carried, carried := [], batch := [], polled := 0))
  {
    hide Acts;
    ActsPush(start, actions, PutBack);
  }

  lemma {:induction false} ActsKeepInv(s: Snapshot, actions: seq<Action>)
    requires Inv(s)
    ensures Acts(s, actions).Some? ==> Inv(Acts(s, actions).value)
  {
    hide Inv, Act, Enabled;
    if actions != [] && Acts(s, actions).Some? {
      var n := |actions| - 1;
      ActsKeepInv(s, actions[..n]);
      ActKeepsInv(Acts(s, actions[..n]).value, actions[n]);
    }
  }
}
