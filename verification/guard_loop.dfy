/** The notification callback as a whole: one read, then the guard loop that waits for the rest of a partial. */
module GuardLoop {
  import opened Wrappers
  import opened ByteStrings
  import opened NotificationParser
  import opened NotificationStream
  import opened StreamBooks
  import opened StreamTheorems

  /** Reading what the channel has right now; the read and the checks in front of it may throw. */
  datatype ReadResult = Read(bytes: Bytes, now: int) | ReadFailed

  datatype PollResult = Silent(now: int) | Ready(read: ReadResult) | PollFailed

  /** What the outside does during one round: the clock readings of the top section, the sections other
      threads get in before it and before the next one, and how the wait ends. */
  datatype Round = Round(before: seq<Section>, t0: int, t1: int, t2: int, during: seq<Section>, poll: PollResult)

  datatype Outcome = Returned | Threw | StillWaiting

  /** A wait of `ms` milliseconds asked for at the moment `at`, for the rest of a partial due at `deadline`. */
  datatype Wait = Wait(ms: int, at: int, deadline: int)

  /** A callback: how it ended, the critical sections in order, and every wait it asked for. */
  datatype Callback = Callback(outcome: Outcome, sections: seq<Section>, waits: seq<Wait>)
  {
    function After(sections: seq<Section>, waits: seq<Wait>): Callback {
      Callback(outcome, sections + this.sections, waits + this.waits)
    }
  }

  /** What threads other than the reactor do to a client. */
  predicate ByOthers(sections: seq<Section>) {
    forall i :: 0 <= i < |sections| ==> sections[i].OnPop? || sections[i].OnDeath? || sections[i].OnSubscribe?
  }

  predicate RoundsOk(rounds: seq<Round>) {
    forall i :: 0 <= i < |rounds| ==> ByOthers(rounds[i].before) && ByOthers(rounds[i].during)
  }

  lemma NotOverdueAfterLoopTop(cfg: Config, s: Stream, fd: int, t0: int, t1: int, t2: int)
    ensures var l := LoopTop(cfg, s, fd, t0, t1, t2); KeepsWaiting(cfg, l) ==> t2 < Deadline(cfg, l)
  {
    hide Process, Cut;
    var p := Process(cfg, s, fd, t0);
    FinalizeFrame(cfg, p, fd);
    FinalizeFrame(cfg, Finalize(cfg, p, fd), fd);
  }

  ghost function Top(cfg: Config, s: Stream, fd: int, round: Round): (l: Stream)
    ensures KeepsWaiting(cfg, l) ==> round.t2 < Deadline(cfg, l)
  {
    var b := Steps(cfg, s, round.before);
    NotOverdueAfterLoopTop(cfg, b, fd, round.t0, round.t1, round.t2);
    LoopTop(cfg, b, fd, round.t0, round.t1, round.t2)
  }

  function TopSections(fd: int, round: Round): seq<Section> {
    round.before + [OnLoopTop(fd, round.t0, round.t1, round.t2)]
  }

  /** The section a wait leads to, if it leads to one. */
  function NextSection(fd: int, poll: PollResult): Option<Section> {
    match poll
    case Silent(now) => Some(OnSilence(fd, now))
    case Ready(Read(bytes, now)) => Some(OnRead(fd, bytes, now))
    case Ready(ReadFailed) => None
    case PollFailed => None
  }

  /** One round: the top section, the wait, and what the wait leads to; `StillWaiting` means that the
      loop goes on. */
  ghost function Play(cfg: Config, s: Stream, fd: int, round: Round): Callback {
    hide *;
    var top := Top(cfg, s, fd, round);
    var front := TopSections(fd, round);
    if !KeepsWaiting(cfg, top) then Callback(Returned, front, [])
    else
      var wait := Wait(WaitMs(cfg, top, round.t2), round.t2, Deadline(cfg, top));
      match NextSection(fd, round.poll)
      case None => Callback(Threw, front + round.during, [wait])
      case Some(next) => Callback(StillWaiting, front + round.during + [next], [wait])
  }

  /** The guard loop over the rounds the outside plays; it is still waiting when they run out. */
  ghost function Loop(cfg: Config, s: Stream, fd: int, rounds: seq<Round>): Callback
    decreases |rounds|
  {
    hide *;
    if rounds == [] then Callback(StillWaiting, [], [])
    else
      var played := Play(cfg, s, fd, rounds[0]);
      if !played.outcome.StillWaiting? then played
      else Loop(cfg, Steps(cfg, s, played.sections), fd, rounds[1..]).After(played.sections, played.waits)
  }

  lemma LoopUnfolds(cfg: Config, s: Stream, fd: int, rounds: seq<Round>)
    ensures rounds == [] ==> Loop(cfg, s, fd, rounds) == Callback(StillWaiting, [], [])
    ensures rounds != [] ==>
      var played := Play(cfg, s, fd, rounds[0]);
      Loop(cfg, s, fd, rounds) ==
        if !played.outcome.StillWaiting? then played
        else Loop(cfg, Steps(cfg, s, played.sections), fd, rounds[1..]).After(played.sections, played.waits)
  {
    hide Play, Steps, Callback.After;
  }

  /** `on_notification_ready`. */
  ghost function OnReady(cfg: Config, s: Stream, fd: int, first: ReadResult, rounds: seq<Round>): Callback {
    match first
    case ReadFailed => Callback(Threw, [], [])
    case Read(bytes, now) =>
      Loop(cfg, Receive(cfg, s, fd, bytes, now), fd, rounds).After([OnRead(fd, bytes, now)], [])
  }

  lemma {:induction false} StepsConcat(cfg: Config, s: Stream, a: seq<Section>, b: seq<Section>)
    ensures Steps(cfg, s, a + b) == Steps(cfg, Steps(cfg, s, a), b)
  {
    hide Step;
    if b == [] {
      assert a + b == a;
    } else {
      var n := |b| - 1;
      StepsConcat(cfg, s, a, b[..n]);
      assert a + b == (a + b[..n]) + [b[n]];
      StepsPush(cfg, s, a + b[..n], b[n]);
    }
  }

  lemma TopIsSteps(cfg: Config, s: Stream, fd: int, round: Round)
    ensures Top(cfg, s, fd, round) == Steps(cfg, s, TopSections(fd, round))
  {
    hide LoopTop;
    StepsPush(cfg, s, round.before, OnLoopTop(fd, round.t0, round.t1, round.t2));
  }

  lemma TopIsLoopTop(cfg: Config, s: Stream, fd: int, round: Round)
    ensures Steps(cfg, s, TopSections(fd, round))
            == LoopTop(cfg, Steps(cfg, s, round.before), fd, round.t0, round.t1, round.t2)
  {
    hide LoopTop;
    StepsPush(cfg, s, round.before, OnLoopTop(fd, round.t0, round.t1, round.t2));
  }

  /** A round in terms of the state its top section leaves. */
  lemma PlayUnfolds(cfg: Config, s: Stream, fd: int, round: Round)
    ensures var top := Steps(cfg, s, TopSections(fd, round));
      var front := TopSections(fd, round);
      var next := NextSection(fd, round.poll);
      if !KeepsWaiting(cfg, top) then Play(cfg, s, fd, round) == Callback(Returned, front, [])
      else
        && round.t2 < Deadline(cfg, top)
        && Play(cfg, s, fd, round) ==
             Callback(if next.None? then Threw else StillWaiting,
                      front + round.during + if next.None? then [] else [next.value],
                      [Wait(WaitMs(cfg, top, round.t2), round.t2, Deadline(cfg, top))])
  {
    hide Steps, WaitMs, KeepsWaiting, Deadline, NextSection, TopSections;
    TopIsSteps(cfg, s, fd, round);
    assert TopSections(fd, round) + round.during + [] == TopSections(fd, round) + round.during;
  }

  /** The state in which a returned callback leaves a client: nothing buffered if the timeout guard is
      on, and less than the size limit otherwise. */
  ghost predicate Settled(cfg: Config, s: Stream) {
    if cfg.timeoutSeconds > 0 then s.rx == [] else |s.rx| < cfg.maxKb * 1024
  }

  /** A wait is between a millisecond and a second and begins before the deadline; unless it is the shortest it does
      not go beyond the deadline, and unless it is the longest it falls short of it by less than a millisecond. */
  predicate WaitOk(wait: Wait) {
    && 1 <= wait.ms <= 1000 && wait.at < wait.deadline
    && (wait.ms == 1 || wait.at + wait.ms * 1_000_000 <= wait.deadline)
    && (wait.ms == 1000 || wait.deadline < wait.at + (wait.ms + 1) * 1_000_000)
  }

  ghost predicate WaitsOk(waits: seq<Wait>) {
    forall i :: 0 <= i < |waits| ==> WaitOk(waits[i])
  }

  lemma PlaySettles(cfg: Config, s: Stream, fd: int, round: Round)
    requires cfg.Valid() && Inv(cfg, s)
    ensures var p := Play(cfg, s, fd, round);
      && Inv(cfg, Steps(cfg, s, p.sections))
      && (p.outcome.Returned? ==> Settled(cfg, Steps(cfg, s, p.sections)))
      && WaitsOk(p.waits)
  {
    hide Step, Ledger, Quiet, Top, AllWellCut, WireAll, Steps;
    TopIsSteps(cfg, s, fd, round);
    StepsKeepInv(cfg, s, TopSections(fd, round));
    StepsKeepInv(cfg, s, Play(cfg, s, fd, round).sections);
  }

  /** Every wait respects the deadline of the partial it is for; a loop that returns leaves the buffer settled;
      and one that threw or still waits keeps the books. */
  lemma {:induction false} LoopSettles(cfg: Config, s: Stream, fd: int, rounds: seq<Round>)
    requires cfg.Valid() && Inv(cfg, s)
    ensures var c := Loop(cfg, s, fd, rounds);
      && Inv(cfg, Steps(cfg, s, c.sections))
      && (c.outcome.Returned? ==> Settled(cfg, Steps(cfg, s, c.sections)))
      && WaitsOk(c.waits)
    decreases |rounds|
  {
    hide Step, Inv, Play, Settled, Steps;
    NoSteps(cfg, s);
    if rounds != [] {
      var played := Play(cfg, s, fd, rounds[0]);
      PlaySettles(cfg, s, fd, rounds[0]);
      if played.outcome.StillWaiting? {
        var t := Steps(cfg, s, played.sections);
        LoopSettles(cfg, t, fd, rounds[1..]);
        StepsConcat(cfg, s, played.sections, Loop(cfg, t, fd, rounds[1..]).sections);
      }
    }
  }

  lemma NoSteps(cfg: Config, s: Stream)
    ensures Steps(cfg, s, []) == s
  {
  }

  /** The whole callback settles. */
  lemma CallbackSettles(cfg: Config, s: Stream, fd: int, first: ReadResult, rounds: seq<Round>)
    requires cfg.Valid() && Inv(cfg, s)
    ensures var c := OnReady(cfg, s, fd, first, rounds);
      && Inv(cfg, Steps(cfg, s, c.sections))
      && (c.outcome.Returned? ==> Settled(cfg, Steps(cfg, s, c.sections)))
      && WaitsOk(c.waits)
  {
    hide Receive, Inv, Steps, Loop, Settled;
    NoSteps(cfg, s);
    if first.Read? {
      var section := OnRead(fd, first.bytes, first.now);
      StepKeepsInv(cfg, s, section);
      StepsPush(cfg, s, [], section);
      assert [] + [section] == [section];
      var r := Receive(cfg, s, fd, first.bytes, first.now);
      LoopSettles(cfg, r, fd, rounds);
      StepsConcat(cfg, s, [section], Loop(cfg, r, fd, rounds).sections);
    }
  }

  // ----- A partial does not outlive its deadline -----

  lemma AfterAfter(c: Callback, s: seq<Section>, w: seq<Wait>, s': seq<Section>, w': seq<Wait>)
    ensures c.After(s, w).After(s', w') == c.After(s' + s, w' + w)
  {
  }

  lemma AfterNothing(c: Callback)
    ensures c.After([], []) == c
    ensures Callback(c.outcome, [], []).After(c.sections, c.waits) == c
  {
  }

  /** One more round is played exactly if the loop still waits. */
  lemma {:induction false} LoopPush(cfg: Config, s: Stream, fd: int, rounds: seq<Round>, round: Round)
    ensures var c := Loop(cfg, s, fd, rounds);
      Loop(cfg, s, fd, rounds + [round]) ==
        if c.outcome.StillWaiting? then Play(cfg, Steps(cfg, s, c.sections), fd, round).After(c.sections, c.waits)
        else c
    decreases |rounds|
  {
    hide Play, Steps, Callback.After;
    var all := rounds + [round];
    NoSteps(cfg, s);
    if rounds == [] {
      AfterNothing(Play(cfg, s, fd, round));
      assert all[1..] == [];
    } else {
      var played := Play(cfg, s, fd, rounds[0]);
      assert all[0] == rounds[0] && all[1..] == rounds[1..] + [round];
      if played.outcome.StillWaiting? {
        var t := Steps(cfg, s, played.sections);
        LoopPush(cfg, t, fd, rounds[1..], round);
        var c := Loop(cfg, t, fd, rounds[1..]);
        StepsConcat(cfg, s, played.sections, c.sections);
        AfterAfter(Play(cfg, Steps(cfg, t, c.sections), fd, round), c.sections, c.waits, played.sections, played.waits);
        AfterParts(c, played.sections, played.waits);
      }
    }
  }

  lemma AfterParts(c: Callback, s: seq<Section>, w: seq<Wait>)
    ensures c.After(s, w) == Callback(c.outcome, s + c.sections, w + c.waits)
  {
  }

  lemma OtherKeepsOrClears(cfg: Config, s: Stream, section: Section)
    requires section.OnPop? || section.OnDeath? || section.OnSubscribe?
    ensures var u := Step(cfg, s, section); u.rx == [] || (u.rx == s.rx && u.startedAt == s.startedAt)
  {
  }

  /** Other threads leave the buffer and its timer alone, or clear the buffer. */
  lemma {:induction false} OthersKeepOrClear(cfg: Config, s: Stream, sections: seq<Section>)
    requires ByOthers(sections)
    ensures var u := Steps(cfg, s, sections); u.rx == [] || (u.rx == s.rx && u.startedAt == s.startedAt)
  {
    hide Step;
    if sections != [] {
      var init := sections[..|sections| - 1];
      OthersKeepOrClear(cfg, s, init);
      OtherKeepsOrClears(cfg, Steps(cfg, s, init), sections[|sections| - 1]);
    }
  }

  /** A round whose clock has reached the deadline ends the loop. */
  lemma OverdueRoundReturns(cfg: Config, s: Stream, fd: int, round: Round)
    requires cfg.Valid() && cfg.timeoutSeconds > 0 && Inv(cfg, s) && ByOthers(round.before)
    requires round.t1 >= Deadline(cfg, s) || round.t2 >= Deadline(cfg, s)
    ensures Play(cfg, s, fd, round).outcome.Returned?
  {
    hide Process, Finalize, Steps, Ledger, Quiet, AllWellCut, WireAll;
    var b := Steps(cfg, s, round.before);
    OthersKeepOrClear(cfg, s, round.before);
    StepsKeepInv(cfg, s, round.before);
    ProcessIsIdle(cfg, b, fd, round.t0);
    FinalizeFrame(cfg, b, fd);
    FinalizeFrame(cfg, Finalize(cfg, b, fd), fd);
  }

  /** As long as the loop has cut nothing, however many rounds it played and bytes it read, a clock that has
      reached the deadline of the partial it began with makes it return. */
  lemma OverdueLoopReturns(cfg: Config, s: Stream, fd: int, rounds: seq<Round>, last: Round)
    requires cfg.Valid() && cfg.timeoutSeconds > 0 && Inv(cfg, s) && s.rx != [] && ByOthers(last.before)
    requires var c := Loop(cfg, s, fd, rounds);
      c.outcome.StillWaiting? && Steps(cfg, s, c.sections).log.cuts == s.log.cuts
    requires last.t1 >= Deadline(cfg, s) || last.t2 >= Deadline(cfg, s)
    ensures Loop(cfg, s, fd, rounds + [last]).outcome.Returned?
  {
    hide Play, Steps, Loop, Inv, Deadline;
    var c := Loop(cfg, s, fd, rounds);
    var t := Steps(cfg, s, c.sections);
    StepsKeepInv(cfg, s, c.sections);
    TrickleKeepsDeadline(cfg, s, c.sections);
    LoopPush(cfg, s, fd, rounds, last);
    OverdueRoundReturns(cfg, t, fd, last);
  }

  // ----- What a callback reads, and how it ends -----

  /** The bytes a wait brings in. */
  function BytesOf(poll: PollResult): Bytes {
    match poll
    case Ready(Read(bytes, _)) => bytes
    case Ready(ReadFailed) => []
    case Silent(_) => []
    case PollFailed => []
  }

  /** The bytes the waits of these rounds bring in, in order. */
  function BytesPolled(rounds: seq<Round>): Bytes {
    if rounds == [] then [] else BytesOf(rounds[0].poll) + BytesPolled(rounds[1..])
  }

  predicate WaitFailed(poll: PollResult) {
    poll.PollFailed? || (poll.Ready? && poll.read.ReadFailed?)
  }

  /** The sections other threads get in during these rounds, in order. */
  function OthersIn(rounds: seq<Round>): seq<Section> {
    if rounds == [] then [] else rounds[0].before + rounds[0].during + OthersIn(rounds[1..])
  }

  /** The sections of other threads among `sections`. */
  function OfOthers(sections: seq<Section>): seq<Section> {
    if sections == [] then []
    else
      var last := sections[|sections| - 1];
      OfOthers(sections[..|sections| - 1]) + if last.OnPop? || last.OnDeath? || last.OnSubscribe? then [last] else []
  }

  /** One wait in each of the first rounds, at the last clock reading of its top section, and no failed one but the
      last; and a round left for the top section in which a callback returns. */
  ghost predicate WaitedOut(c: Callback, rounds: seq<Round>) {
    var n := |c.waits|;
    && n <= |rounds| && (c.outcome.Returned? ==> n < |rounds|)
    && (forall i :: 0 <= i < n ==> c.waits[i].at == rounds[i].t2)
    && (forall i :: 0 <= i < n - 1 ==> !WaitFailed(rounds[i].poll))
  }

  /** The bytes of those waits, and nothing else, are read in order, behind `bytes`; and every section of other threads
      is in its place. */
  ghost predicate ReadOut(c: Callback, bytes: Bytes, rounds: seq<Round>)
    requires WaitedOut(c, rounds)
  {
    var n := |c.waits|;
    && BytesRead(c.sections) == bytes + BytesPolled(rounds[..n])
    && OfOthers(c.sections) == OthersIn(rounds[..n]) + (if c.outcome.Returned? then rounds[n].before else [])
  }

  predicate LastWaitFailed(c: Callback, rounds: seq<Round>)
    requires |c.waits| <= |rounds|
  {
    c.waits != [] && WaitFailed(rounds[|c.waits| - 1].poll)
  }

  /** What the loop over `rounds` does: it throws exactly if its last wait failed, and otherwise returns or uses up the
      rounds. */
  ghost predicate PlayedOut(c: Callback, rounds: seq<Round>) {
    && WaitedOut(c, rounds) && ReadOut(c, [], rounds)
    && (c.outcome.Threw? <==> LastWaitFailed(c, rounds))
    && (c.outcome.StillWaiting? <==> |c.waits| == |rounds| && !LastWaitFailed(c, rounds))
  }

  lemma ReadPush(sections: seq<Section>, last: Section)
    ensures BytesRead(sections + [last]) == BytesRead(sections) + if last.OnRead? then last.bytes else []
    ensures OfOthers(sections + [last])
            == OfOthers(sections) + if last.OnPop? || last.OnDeath? || last.OnSubscribe? then [last] else []
  {
    assert (sections + [last])[..|sections|] == sections;
  }

  lemma NothingDone()
    ensures BytesRead([]) == [] && OfOthers([]) == []
  {
  }

  lemma {:induction false} BytesReadConcat(a: seq<Section>, b: seq<Section>)
    ensures BytesRead(a + b) == BytesRead(a) + BytesRead(b)
    ensures OfOthers(a + b) == OfOthers(a) + OfOthers(b)
  {
    hide BytesRead, OfOthers;
    if b == [] {
      NothingDone();
      assert a + b == a;
    } else {
      var init, last := b[..|b| - 1], b[|b| - 1];
      BytesReadConcat(a, init);
      assert b == init + [last] && a + b == a + init + [last];
      ReadPush(a + init, last);
      ReadPush(init, last);
    }
  }

  lemma {:induction false} OthersReadNothing(sections: seq<Section>)
    requires ByOthers(sections)
    ensures BytesRead(sections) == [] && OfOthers(sections) == sections
  {
    if sections != [] {
      OthersReadNothing(sections[..|sections| - 1]);
      assert sections == sections[..|sections| - 1] + [sections[|sections| - 1]];
    }
  }

  lemma OneSection(section: Section)
    ensures BytesRead([section]) == if section.OnRead? then section.bytes else []
    ensures OfOthers([section]) == if section.OnPop? || section.OnDeath? || section.OnSubscribe? then [section] else []
  {
    assert [section][..0] == [];
  }

  lemma TopReadsNothing(fd: int, round: Round)
    requires ByOthers(round.before)
    ensures BytesRead(TopSections(fd, round)) == [] && OfOthers(TopSections(fd, round)) == round.before
  {
    hide ByOthers, BytesRead, OfOthers;
    var top := OnLoopTop(fd, round.t0, round.t1, round.t2);
    OthersReadNothing(round.before);
    OneSection(top);
    BytesReadConcat(round.before, [top]);
  }

  /** One round: it waits once unless it returns, and reads what its wait brings in. */
  lemma PlayReads(cfg: Config, s: Stream, fd: int, round: Round)
    requires ByOthers(round.before) && ByOthers(round.during)
    ensures var p := Play(cfg, s, fd, round);
      && (p.outcome.Returned? ==>
            p.waits == [] && BytesRead(p.sections) == [] && OfOthers(p.sections) == round.before)
      && (!p.outcome.Returned? ==>
            && |p.waits| == 1 && p.waits[0].at == round.t2
            && (p.outcome.Threw? <==> WaitFailed(round.poll))
            && BytesRead(p.sections) == BytesOf(round.poll)
            && OfOthers(p.sections) == round.before + round.during)
  {
    hide ByOthers, BytesRead, OfOthers, Steps, TopSections, KeepsWaiting, Deadline, WaitMs;
    PlayUnfolds(cfg, s, fd, round);
    TopReadsNothing(fd, round);
    OthersReadNothing(round.during);
    var front := TopSections(fd, round);
    BytesReadConcat(front, round.during);
    var next := NextSection(fd, round.poll);
    if next.Some? {
      OneSection(next.value);
      BytesReadConcat(front + round.during, [next.value]);
    } else {
      assert front + round.during + [] == front + round.during;
    }
  }

  lemma ConsPolled(rounds: seq<Round>, n: nat)
    requires 0 < n <= |rounds|
    ensures BytesPolled(rounds[..n]) == BytesOf(rounds[0].poll) + BytesPolled(rounds[1..][..n - 1])
    ensures OthersIn(rounds[..n]) == rounds[0].before + rounds[0].during + OthersIn(rounds[1..][..n - 1])
  {
    assert rounds[..n][1..] == rounds[1..][..n - 1] && rounds[..n][0] == rounds[0];
  }

  lemma OneRoundPlayed(p: Callback, rounds: seq<Round>)
    requires rounds != [] && !p.outcome.StillWaiting?
    requires p.outcome.Returned? ==>
      p.waits == [] && BytesRead(p.sections) == [] && OfOthers(p.sections) == rounds[0].before
    requires p.outcome.Threw? ==>
      && |p.waits| == 1 && p.waits[0].at == rounds[0].t2 && WaitFailed(rounds[0].poll)
      && BytesRead(p.sections) == BytesOf(rounds[0].poll)
      && OfOthers(p.sections) == rounds[0].before + rounds[0].during
    ensures PlayedOut(p, rounds)
  {
    hide BytesRead, OfOthers;
    if p.outcome.Threw? {
      ConsPolled(rounds, 1);
      assert rounds[1..][..0] == [];
    } else {
      assert rounds[..0] == [];
    }
  }

  lemma OneRoundMore(p: Callback, c: Callback, rounds: seq<Round>)
    requires rounds != [] && PlayedOut(c, rounds[1..])
    requires |p.waits| == 1 && p.waits[0].at == rounds[0].t2 && !WaitFailed(rounds[0].poll)
    requires BytesRead(p.sections) == BytesOf(rounds[0].poll)
    requires OfOthers(p.sections) == rounds[0].before + rounds[0].during
    ensures PlayedOut(c.After(p.sections, p.waits), rounds)
  {
    hide BytesRead, OfOthers, BytesOf, WaitFailed;
    var all, n := c.After(p.sections, p.waits), |c.waits| + 1;
    BytesReadConcat(p.sections, c.sections);
    ConsPolled(rounds, n);
    assert all.waits == p.waits + c.waits;
    assert forall i :: 0 < i < |rounds| ==> rounds[i] == rounds[1..][i - 1];
  }

  lemma {:induction false} LoopPlaysOut(cfg: Config, s: Stream, fd: int, rounds: seq<Round>)
    requires RoundsOk(rounds)
    ensures PlayedOut(Loop(cfg, s, fd, rounds), rounds)
    decreases |rounds|
  {
    hide Play, Steps, Loop, WaitFailed, BytesOf, PlayedOut, Callback.After;
    LoopUnfolds(cfg, s, fd, rounds);
    if rounds == [] {
      NoRounds();
    } else {
      var p := Play(cfg, s, fd, rounds[0]);
      PlayReads(cfg, s, fd, rounds[0]);
      if p.outcome.StillWaiting? {
        var t := Steps(cfg, s, p.sections);
        LoopPlaysOut(cfg, t, fd, rounds[1..]);
        OneRoundMore(p, Loop(cfg, t, fd, rounds[1..]), rounds);
      } else {
        OneRoundPlayed(p, rounds);
      }
    }
  }

  lemma NoRounds()
    ensures PlayedOut(Callback(StillWaiting, [], []), [])
  {
  }

  /** What the whole callback does: nothing if the first read fails; otherwise its bytes are read first, and then the
      loop plays out. */
  ghost predicate CalledOut(c: Callback, first: ReadResult, rounds: seq<Round>) {
    && WaitedOut(c, rounds) && ReadOut(c, if first.Read? then first.bytes else [], rounds)
    && (first.ReadFailed? ==> c.waits == [] && c.sections == [])
    && (c.outcome.Threw? <==> first.ReadFailed? || LastWaitFailed(c, rounds))
    && (c.outcome.StillWaiting? <==> first.Read? && |c.waits| == |rounds| && !LastWaitFailed(c, rounds))
  }

  lemma CalledOutSays(c: Callback, first: ReadResult, rounds: seq<Round>)
    requires CalledOut(c, first, rounds)
    ensures |c.waits| <= |rounds|
    ensures BytesRead(c.sections) == (if first.Read? then first.bytes else []) + BytesPolled(rounds[..|c.waits|])
    ensures c.outcome.Threw? <==>
      first.ReadFailed? || (c.waits != [] && WaitFailed(rounds[|c.waits| - 1].poll))
  {
    hide BytesRead, OfOthers, WaitFailed, BytesPolled, OthersIn;
  }

  lemma ReadInFront(l: Callback, section: Section, rounds: seq<Round>)
    requires WaitedOut(l, rounds) && ReadOut(l, [], rounds) && section.OnRead?
    ensures var c := Callback(l.outcome, [section] + l.sections, l.waits);
      WaitedOut(c, rounds) && ReadOut(c, section.bytes, rounds)
  {
    hide BytesRead, OfOthers, WaitFailed, BytesPolled, OthersIn;
    OneSection(section);
    BytesReadConcat([section], l.sections);
    NothingInFront(BytesPolled(rounds[..|l.waits|]), OfOthers(l.sections));
  }

  lemma NothingInFront(bytes: Bytes, sections: seq<Section>)
    ensures [] + bytes == bytes && [] + sections == sections
  {
  }

  lemma AfterFirstRead(l: Callback, first: ReadResult, section: Section, rounds: seq<Round>)
    requires PlayedOut(l, rounds) && first.Read? && section.OnRead? && section.bytes == first.bytes
    ensures CalledOut(l.After([section], []), first, rounds)
  {
    hide WaitedOut, ReadOut, WaitFailed, Callback.After;
    AfterParts(l, [section], []);
    assert [] + l.waits == l.waits;
    assert |l.waits| <= |rounds| by { WaitsFit(l, rounds); }
    ReadInFront(l, section, rounds);
  }

  lemma WaitsFit(c: Callback, rounds: seq<Round>)
    requires WaitedOut(c, rounds)
    ensures |c.waits| <= |rounds|
  {
  }

  /** The whole callback reads what the first read and its waits bring in, in order and nothing else; and it throws
      exactly if the first read or the last wait failed. */
  lemma CallbackReads(cfg: Config, s: Stream, fd: int, first: ReadResult, rounds: seq<Round>)
    requires RoundsOk(rounds)
    ensures CalledOut(OnReady(cfg, s, fd, first, rounds), first, rounds)
  {
    hide Receive, Loop, PlayedOut, Callback.After;
    if first.Read? {
      hide WaitedOut, ReadOut;
      var r := Receive(cfg, s, fd, first.bytes, first.now);
      LoopPlaysOut(cfg, r, fd, rounds);
      AfterFirstRead(Loop(cfg, r, fd, rounds), first, OnRead(fd, first.bytes, first.now), rounds);
    } else {
      assert rounds[..0] == [];
    }
  }
}
