/** Independence of fragmentation, end to end: what a clean stream comes to in any run, and exactly when the
    guards leave it alone. */
module CleanRuns {
  import opened ByteStrings
  import opened NotificationScan
  import opened NotificationParser
  import opened CleanFrames
  import opened FrameStreams
  import opened CleanStreams
  import opened NotificationStream
  import opened StreamBooks
  import opened StreamTheorems

  predicate IsForced(piece: Piece) {
    piece.Guarded? || piece.Cleared?
  }

  ghost predicate NoneForced(pieces: seq<Piece>) {
    forall i :: 0 <= i < |pieces| ==> !IsForced(pieces[i])
  }

  lemma ForcedLast(cuts: seq<Piece>, text: Bytes)
    ensures !NoneForced(cuts + [Guarded(text)]) && !NoneForced(cuts + [Cleared(text)])
  {
    assert IsForced((cuts + [Guarded(text)])[|cuts|]) && IsForced((cuts + [Cleared(text)])[|cuts|]);
  }

  /** A section in which no guard fires and no session ends just parses. */
  lemma StepJustParses(cfg: Config, s: Stream, section: Section)
    requires Inv(cfg, s) && NoneForced(Step(cfg, s, section).log.cuts)
    ensures var more := if section.OnRead? then section.bytes else [];
      && Step(cfg, s, section).log.cuts == s.log.cuts + Parse(s.rx + more).0
      && Step(cfg, s, section).rx == Parse(s.rx + more).1
  {
    hide Process, Finalize, Parse, NoneForced, Inv;
    match section
    case OnRead(fd, bytes, now) =>
      var r := s.(rx := s.rx + bytes, log := s.log.(received := s.log.received + bytes));
      var p := Process(cfg, r, fd, now);
      ProcessFrame(cfg, r, fd, now);
      FinalizeFrame(cfg, p, fd);
      ForcedLast(p.log.cuts, p.rx);
    case OnLoopTop(fd, t0, t1, t2) =>
      UnforcedGuardIsIdle(cfg, s, section);
      IdleParse(cfg, s);
    case OnSilence(fd, now) =>
      UnforcedGuardIsIdle(cfg, s, section);
      IdleParse(cfg, s);
    case OnPop => IdleParse(cfg, s);
    case OnDeath => ForcedLast(s.log.cuts, s.rx); IdleParse(cfg, s);
    case OnSubscribe => ForcedLast(s.log.cuts, s.rx); IdleParse(cfg, s);
  }

  lemma IdleParse(cfg: Config, s: Stream)
    requires Inv(cfg, s)
    ensures s.rx + [] == s.rx && Parse(s.rx) == ([], s.rx) && s.log.cuts + [] == s.log.cuts
  {
    hide Ledger, Parse, Quiet, WireAll, AllWellCut;
    ParseIdleExactlyWhenQuiet(s.rx);
  }

  lemma {:induction false} UnforcedRunCutsFrames(cfg: Config, sections: seq<Section>, frames: seq<Bytes>)
    returns (done: nat)
    requires cfg.Valid() && AllClean(frames)
    requires IsPrefix(BytesRead(sections), Sent(frames)) && NoneForced(Run(cfg, sections).log.cuts)
    ensures At(frames, done, Run(cfg, sections).rx)
    ensures Run(cfg, sections).log.cuts == AsPieces(frames[..done])
    ensures BytesRead(sections) == Sent(frames[..done]) + Run(cfg, sections).rx
    decreases |sections|
  {
    hide Step, Parse, Sent, AsPieces, AllClean, Wire, Inv;
    if sections == [] {
      done := 0;
      EmptyAt(frames);
      SentNothing();
      assert frames[..0] == [];
    } else {
      var n := |sections| - 1;
      var s := Run(cfg, sections[..n]);
      StepExtendsCuts(cfg, s, sections[n]);
      PrefixNoneForced(Run(cfg, sections).log.cuts, |s.log.cuts|);
      var before := UnforcedRunCutsFrames(cfg, sections[..n], frames);
      RunKeepsInv(cfg, sections[..n]);
      StepJustParses(cfg, s, sections[n]);
      var more := if sections[n].OnRead? then sections[n].bytes else [];
      var rest;
      done, rest := CleanAdvance(frames, before, s.rx, more);
      SentConcat(frames[..before], frames[before..done]);
      assert frames[..done] == frames[..before] + frames[before..done];
    }
  }

  lemma PrefixNoneForced(pieces: seq<Piece>, n: nat)
    requires NoneForced(pieces) && n <= |pieces|
    ensures NoneForced(pieces[..n])
  {
    hide IsForced;
    forall i | 0 <= i < n ensures !IsForced(pieces[..n][i]) {
      assert pieces[..n][i] == pieces[i];
    }
  }

  // ----- How far a clean stream has come, and since when its partial has been waiting -----

  /** The frames complete in the first `n` bytes. */
  function Complete(frames: seq<Bytes>, n: nat): nat {
    if frames == [] || |Wire(Frame(frames[0]))| > n then 0 else 1 + Complete(frames[1..], n - |Wire(Frame(frames[0]))|)
  }

  /** The bytes of the first `n` that belong to no complete frame. */
  function Remainder(frames: seq<Bytes>, n: nat): nat {
    if frames == [] || |Wire(Frame(frames[0]))| > n then n else Remainder(frames[1..], n - |Wire(Frame(frames[0]))|)
  }

  /** The bytes of a partial that the sections have read. */
  function Held(sections: seq<Section>, frames: seq<Bytes>): nat {
    Remainder(frames, |BytesRead(sections)|)
  }

  /** The clock at the read that brought the first bytes of that partial. */
  function OpenedAt(sections: seq<Section>, frames: seq<Bytes>): int {
    if sections == [] then 0
    else
      var init, last := sections[..|sections| - 1], sections[|sections| - 1];
      if last.OnRead? && (Held(init, frames) == 0
                          || Complete(frames, |BytesRead(init)|) < Complete(frames, |BytesRead(sections)|))
      then last.now
      else OpenedAt(init, frames)
  }

  /** With the timeout guard on, the partial is not yet due at `now`. */
  predicate NotDue(cfg: Config, sections: seq<Section>, frames: seq<Bytes>, now: int) {
    cfg.timeoutSeconds > 0 ==> now < OpenedAt(sections, frames) + cfg.timeoutSeconds * 1_000_000_000
  }

  /** The last section takes nothing off a partial: it is below the size limit after a read, not due when a guard
      looks at the clock, and no session begins or ends on it. */
  predicate CalmAtLast(cfg: Config, sections: seq<Section>, frames: seq<Bytes>)
    requires sections != []
  {
    Held(sections, frames) > 0 ==>
      match sections[|sections| - 1]
      case OnRead(_, _, _) => cfg.maxKb > 0 ==> Held(sections, frames) < cfg.maxKb * 1024
      case OnLoopTop(_, _, t1, t2) => NotDue(cfg, sections, frames, t1) && NotDue(cfg, sections, frames, t2)
      case OnSilence(_, now) => NotDue(cfg, sections, frames, now)
      case OnPop => true
      case OnDeath => false
      case OnSubscribe => false
  }

  /** A condition on the inputs alone: chunk sizes, clock readings and the order of the sections. */
  predicate Calm(cfg: Config, sections: seq<Section>, frames: seq<Bytes>) {
    forall n :: 0 < n <= |sections| ==> CalmAtLast(cfg, sections[..n], frames)
  }

  lemma CalmNext(cfg: Config, sections: seq<Section>, frames: seq<Bytes>)
    requires sections != []
    ensures Calm(cfg, sections, frames) <==>
      Calm(cfg, sections[..|sections| - 1], frames) && CalmAtLast(cfg, sections, frames)
  {
    hide CalmAtLast;
    var init := sections[..|sections| - 1];
    assert forall n :: 0 < n <= |init| ==> init[..n] == sections[..n];
    assert sections[..|sections|] == sections;
  }

  /** A position in the stream is determined by the number of bytes that have come in. */
  lemma {:induction false} PositionIs(frames: seq<Bytes>, done: nat, partial: Bytes, n: nat)
    requires At(frames, done, partial) && n == |Sent(frames[..done])| + |partial|
    ensures Complete(frames, n) == done && Remainder(frames, n) == |partial|
    decreases |frames|
  {
    hide Wire, WireAll;
    SentNothing();
    if done > 0 {
      SentCons(frames[..done]);
      assert frames[..done][1..] == frames[1..][..done - 1];
      PositionIs(frames[1..], done - 1, partial, n - |Wire(Frame(frames[0]))|);
    } else {
      assert frames[..done] == [];
    }
  }

  /** Processing starts the timer anew exactly when something was cut or nothing was buffered. */
  lemma ProcessTimer(cfg: Config, s: Stream, fd: int, now: int)
    requires Process(cfg, s, fd, now).rx != []
    ensures Process(cfg, s, fd, now).startedAt == if Parse(s.rx).0 != [] || !s.timerActive then now else s.startedAt
  {
    hide Parse, CutAll;
    CutAllFrame(cfg, s, fd, Parse(s.rx).0);
  }

  /** The buffer of an unforced run, and the start of its wait, as functions of what came in. */
  lemma {:induction false} UnforcedRunIsTracked(cfg: Config, sections: seq<Section>, frames: seq<Bytes>)
    requires cfg.Valid() && AllClean(frames)
    requires IsPrefix(BytesRead(sections), Sent(frames)) && NoneForced(Run(cfg, sections).log.cuts)
    ensures var s := Run(cfg, sections);
      && |s.rx| == Held(sections, frames)
      && |s.log.cuts| == Complete(frames, |BytesRead(sections)|)
      && (s.rx != [] ==> s.startedAt == OpenedAt(sections, frames))
    decreases |sections|
  {
    hide Step, Parse, Sent, AllClean, Wire, Inv, Complete, Remainder, NoneForced;
    var done := UnforcedRunCutsFrames(cfg, sections, frames);
    PositionIs(frames, done, Run(cfg, sections).rx, |BytesRead(sections)|);
    if sections != [] && Run(cfg, sections).rx != [] {
      var n := |sections| - 1;
      var s := Run(cfg, sections[..n]);
      ReadPrefix(sections, Sent(frames));
      UnforcedBefore(cfg, sections);
      UnforcedRunIsTracked(cfg, sections[..n], frames);
      RunKeepsInv(cfg, sections[..n]);
      UnforcedStepTimer(cfg, s, sections[n]);
    }
  }

  lemma UnforcedBefore(cfg: Config, sections: seq<Section>)
    requires sections != [] && NoneForced(Run(cfg, sections).log.cuts)
    ensures NoneForced(Run(cfg, sections[..|sections| - 1]).log.cuts)
  {
    hide Step, NoneForced;
    var s := Run(cfg, sections[..|sections| - 1]);
    StepExtendsCuts(cfg, s, sections[|sections| - 1]);
    PrefixNoneForced(Run(cfg, sections).log.cuts, |s.log.cuts|);
  }

  lemma UnforcedStepTimer(cfg: Config, s: Stream, section: Section)
    requires Inv(cfg, s) && NoneForced(Step(cfg, s, section).log.cuts) && Step(cfg, s, section).rx != []
    ensures Step(cfg, s, section).startedAt ==
      if section.OnRead? && (s.rx == [] || |Step(cfg, s, section).log.cuts| > |s.log.cuts|) then section.now
      else s.startedAt
  {
    hide Ledger, Process, Finalize, Parse, Quiet, WireAll, AllWellCut;
    var t := Step(cfg, s, section);
    assert t.log.cuts != [] ==> !IsForced(t.log.cuts[|t.log.cuts| - 1]);
    match section
    case OnRead(fd, bytes, now) =>
      var r := s.(rx := s.rx + bytes, log := s.log.(received := s.log.received + bytes));
      ProcessFrame(cfg, r, fd, now);
      ProcessTimer(cfg, r, fd, now);
      FinalizeFrame(cfg, Process(cfg, r, fd, now), fd);
    case OnLoopTop(fd, t0, t1, t2) =>
      ProcessIsIdle(cfg, s, fd, t0);
      FinalizeFrame(cfg, s, fd);
      FinalizeFrame(cfg, Finalize(cfg, s, fd), fd);
    case OnSilence(fd, now) => FinalizeFrame(cfg, s, fd);
    case OnPop =>
    case OnDeath =>
    case OnSubscribe =>
  }

  // ----- A run is calm exactly when nothing is forced out of the buffer -----

  lemma NoneForcedConcat(a: seq<Piece>, b: seq<Piece>)
    ensures NoneForced(a + b) <==> NoneForced(a) && NoneForced(b)
  {
    hide IsForced;
    if NoneForced(a + b) {
      assert forall i :: 0 <= i < |a| ==> a[i] == (a + b)[i];
      assert forall i :: 0 <= i < |b| ==> b[i] == (a + b)[|a| + i];
    }
  }

  lemma FramesAreNotForced(frames: seq<Bytes>)
    ensures NoneForced(AsPieces(frames))
  {
  }

  /** After the sections before it ran unforced, what a section forces is decided by the inputs. */
  lemma LastForces(cfg: Config, sections: seq<Section>, frames: seq<Bytes>)
    requires cfg.Valid() && AllClean(frames) && sections != []
    requires IsPrefix(BytesRead(sections), Sent(frames)) && NoneForced(Run(cfg, sections[..|sections| - 1]).log.cuts)
    ensures NoneForced(Run(cfg, sections).log.cuts) <==> CalmAtLast(cfg, sections, frames)
  {
    hide *;
    var init, last := sections[..|sections| - 1], sections[|sections| - 1];
    RunPush(cfg, sections);
    ReadPrefix(sections, Sent(frames));
    UnforcedRunIsTracked(cfg, init, frames);
    RunKeepsInv(cfg, init);
    if last.OnRead? {
      LastReadForces(cfg, sections, frames);
    } else {
      OtherForces(cfg, Run(cfg, init), sections, frames);
    }
  }

  lemma LastReadForces(cfg: Config, sections: seq<Section>, frames: seq<Bytes>)
    requires cfg.Valid() && AllClean(frames) && sections != [] && sections[|sections| - 1].OnRead?
    requires IsPrefix(BytesRead(sections), Sent(frames)) && NoneForced(Run(cfg, sections[..|sections| - 1]).log.cuts)
    ensures NoneForced(Run(cfg, sections).log.cuts) <==> CalmAtLast(cfg, sections, frames)
  {
    hide Receive, Parse, Sent, AllClean, Wire, Complete, Remainder, Run, NoneForced, IsPrefix;
    var init, last := sections[..|sections| - 1], sections[|sections| - 1];
    var s := Run(cfg, init);
    RunPush(cfg, sections);
    ReadPrefix(sections, Sent(frames));
    var done := UnforcedRunCutsFrames(cfg, init, frames);
    var done', rest := CleanAdvance(frames, done, s.rx, last.bytes);
    PositionIs(frames, done', rest, |BytesRead(sections)|);
    FramesAreNotForced(frames[done..done']);
    ReadForces(cfg, s, last.fd, last.bytes, last.now);
  }

  lemma OtherForces(cfg: Config, s: Stream, sections: seq<Section>, frames: seq<Bytes>)
    requires sections != [] && !sections[|sections| - 1].OnRead? && Inv(cfg, s) && NoneForced(s.log.cuts)
    requires var init := sections[..|sections| - 1];
      |s.rx| == Held(init, frames) && (s.rx != [] ==> s.startedAt == OpenedAt(init, frames))
    ensures NoneForced(Step(cfg, s, sections[|sections| - 1]).log.cuts) <==> CalmAtLast(cfg, sections, frames)
  {
    hide LoopTop, PollSilent, DropBuffer, SessionDead, NoneForced, Inv, Complete, Remainder;
    assert BytesRead(sections) == BytesRead(sections[..|sections| - 1]) + [];
    match sections[|sections| - 1]
    case OnRead(_, _, _) =>
    case OnLoopTop(fd, t0, t1, t2) => LoopTopForces(cfg, s, fd, t0, t1, t2);
    case OnSilence(fd, now) => SilenceForces(cfg, s, fd, now);
    case OnPop =>
    case OnDeath => ClearingForces(s);
    case OnSubscribe => ClearingForces(s);
  }

  lemma RunPush(cfg: Config, sections: seq<Section>)
    requires sections != []
    ensures Run(cfg, sections) == Step(cfg, Run(cfg, sections[..|sections| - 1]), sections[|sections| - 1])
  {
    hide Step;
  }

  lemma ReadForces(cfg: Config, s: Stream, fd: int, bytes: Bytes, now: int)
    requires NoneForced(s.log.cuts) && NoneForced(Parse(s.rx + bytes).0)
    ensures var rest := Parse(s.rx + bytes).1;
      NoneForced(Receive(cfg, s, fd, bytes, now).log.cuts)
      <==> (rest != [] && cfg.maxKb > 0 ==> |rest| < cfg.maxKb * 1024)
  {
    hide Process, Finalize, Parse, NoneForced;
    var r := s.(rx := s.rx + bytes, log := s.log.(received := s.log.received + bytes));
    var p := Process(cfg, r, fd, now);
    ProcessFrame(cfg, r, fd, now);
    NoneForcedConcat(s.log.cuts, Parse(s.rx + bytes).0);
    FinalizeForces(cfg, p, fd);
  }

  lemma FinalizeForces(cfg: Config, s: Stream, fd: int)
    requires NoneForced(s.log.cuts)
    ensures NoneForced(Finalize(cfg, s, fd).log.cuts) <==> s.rx == []
  {
    hide Finalize, NoneForced;
    FinalizeFrame(cfg, s, fd);
    NoneForcedConcat(s.log.cuts, [Guarded(s.rx)]);
    assert s.log.cuts + [] == s.log.cuts;
    OneIsForced(Guarded(s.rx));
  }

  lemma OneIsForced(piece: Piece)
    ensures NoneForced([piece]) <==> !IsForced(piece)
  {
    assert [piece][0] == piece;
  }

  lemma LoopTopForces(cfg: Config, s: Stream, fd: int, t0: int, t1: int, t2: int)
    requires Inv(cfg, s) && NoneForced(s.log.cuts)
    ensures NoneForced(LoopTop(cfg, s, fd, t0, t1, t2).log.cuts)
      <==> (s.rx != [] && cfg.timeoutSeconds > 0 ==> t1 < Deadline(cfg, s) && t2 < Deadline(cfg, s))
  {
    hide Process, Finalize, NoneForced, Ledger, Quiet, WireAll, AllWellCut;
    ProcessIsIdle(cfg, s, fd, t0);
    FinalizeFrame(cfg, s, fd);
    FinalizeForces(cfg, s, fd);
  }

  lemma SilenceForces(cfg: Config, s: Stream, fd: int, now: int)
    requires Inv(cfg, s) && NoneForced(s.log.cuts)
    ensures NoneForced(PollSilent(cfg, s, fd, now).log.cuts)
      <==> (s.rx != [] && cfg.timeoutSeconds > 0 ==> now < Deadline(cfg, s))
  {
    hide Finalize, NoneForced, Ledger, Quiet, WireAll, AllWellCut;
    FinalizeForces(cfg, s, fd);
  }

  lemma ClearingForces(s: Stream)
    requires NoneForced(s.log.cuts)
    ensures NoneForced(DropBuffer(s).log.cuts) <==> s.rx == []
    ensures NoneForced(SessionDead(s).log.cuts) <==> s.rx == []
  {
    hide NoneForced;
    NoneForcedConcat(s.log.cuts, [Cleared(s.rx)]);
    OneIsForced(Cleared(s.rx));
  }

  lemma ReadPrefix(sections: seq<Section>, stream: Bytes)
    requires sections != [] && IsPrefix(BytesRead(sections), stream)
    ensures IsPrefix(BytesRead(sections[..|sections| - 1]), stream)
  {
    var init := BytesRead(sections[..|sections| - 1]);
    assert init == BytesRead(sections)[..|init|] == stream[..|init|];
  }

  /** A run on a clean stream forces nothing out of the buffer, by a guard or by the beginning or end of a
      session, exactly when its inputs are calm. */
  lemma {:induction false} CalmExactlyWhenNoneForced(cfg: Config, sections: seq<Section>, frames: seq<Bytes>)
    requires cfg.Valid() && AllClean(frames) && IsPrefix(BytesRead(sections), Sent(frames))
    ensures Calm(cfg, sections, frames) <==> NoneForced(Run(cfg, sections).log.cuts)
    decreases |sections|
  {
    hide Step, Sent, AllClean, CalmAtLast, BytesRead, IsForced, Calm;
    if sections == [] {
      assert Calm(cfg, [], frames) by { NothingIsCalm(cfg, frames); }
    } else {
      var init, last := sections[..|sections| - 1], sections[|sections| - 1];
      ReadPrefix(sections, Sent(frames));
      CalmExactlyWhenNoneForced(cfg, init, frames);
      CalmNext(cfg, sections, frames);
      if NoneForced(Run(cfg, sections).log.cuts) {
        UnforcedBefore(cfg, sections);
      }
      if NoneForced(Run(cfg, init).log.cuts) {
        LastForces(cfg, sections, frames);
      }
    }
  }

  lemma NothingIsCalm(cfg: Config, frames: seq<Bytes>)
    ensures Calm(cfg, [], frames)
  {
  }

  /** In any calm run that has read part of a clean stream, exactly the frames that are complete have been
      cut, and the buffer holds the part of the next one. */
  lemma CleanRunCutsFrames(cfg: Config, sections: seq<Section>, frames: seq<Bytes>) returns (done: nat)
    requires cfg.Valid() && AllClean(frames)
    requires IsPrefix(BytesRead(sections), Sent(frames)) && Calm(cfg, sections, frames)
    ensures At(frames, done, Run(cfg, sections).rx)
    ensures Run(cfg, sections).log.cuts == AsPieces(frames[..done])
    ensures BytesRead(sections) == Sent(frames[..done]) + Run(cfg, sections).rx
  {
    hide *;
    CalmExactlyWhenNoneForced(cfg, sections, frames);
    done := UnforcedRunCutsFrames(cfg, sections, frames);
  }

  // ----- Two simple ways to be calm -----

  /** Every frame with its marker is at most as long as the size limit. */
  predicate FramesFit(cfg: Config, frames: seq<Bytes>) {
    cfg.maxKb > 0 ==> forall i :: 0 <= i < |frames| ==> |Wire(Frame(frames[i]))| <= cfg.maxKb * 1024
  }

  /** What clock a section shows to the timer and the guards lies between the two moments. */
  predicate ReadAt(section: Section, from: int, to: int) {
    match section
    case OnRead(_, _, now) => from <= now < to
    case OnLoopTop(_, _, t1, t2) => from <= t1 < to && from <= t2 < to
    case OnSilence(_, now) => from <= now < to
    case OnPop => true
    case OnDeath => true
    case OnSubscribe => true
  }

  /** The size guard never fires on clean frames that fit, nor the timeout guard in a stretch shorter than the
      timeout: in one session such a run is calm. */
  lemma FittingFramesAreCalm(cfg: Config, sections: seq<Section>, frames: seq<Bytes>, from: int)
    requires IsPrefix(BytesRead(sections), Sent(frames)) && FramesFit(cfg, frames)
    requires forall i :: 0 <= i < |sections| ==> !sections[i].OnDeath? && !sections[i].OnSubscribe?
    requires cfg.timeoutSeconds > 0 ==>
      forall i :: 0 <= i < |sections| ==> ReadAt(sections[i], from, from + cfg.timeoutSeconds * 1_000_000_000)
    ensures Calm(cfg, sections, frames)
  {
    hide Sent, Wire, BytesRead, ReadAt, IsPrefix;
    forall n | 0 < n <= |sections| ensures CalmAtLast(cfg, sections[..n], frames) {
      ReadsPrefix(sections, n, Sent(frames));
      FittingIsCalmAtLast(cfg, sections[..n], frames, from);
    }
  }

  lemma {:induction false} ReadsPrefix(sections: seq<Section>, n: nat, stream: Bytes)
    requires n <= |sections| && IsPrefix(BytesRead(sections), stream)
    ensures IsPrefix(BytesRead(sections[..n]), stream)
    decreases |sections|
  {
    hide BytesRead, IsPrefix;
    if n < |sections| {
      ReadPrefix(sections, stream);
      assert sections[..|sections| - 1][..n] == sections[..n];
      ReadsPrefix(sections[..|sections| - 1], n, stream);
    } else {
      assert sections[..n] == sections;
    }
  }

  lemma FittingIsCalmAtLast(cfg: Config, sections: seq<Section>, frames: seq<Bytes>, from: int)
    requires sections != [] && IsPrefix(BytesRead(sections), Sent(frames)) && FramesFit(cfg, frames)
    requires forall i :: 0 <= i < |sections| ==> !sections[i].OnDeath? && !sections[i].OnSubscribe?
    requires cfg.timeoutSeconds > 0 ==>
      forall i :: 0 <= i < |sections| ==> ReadAt(sections[i], from, from + cfg.timeoutSeconds * 1_000_000_000)
    ensures CalmAtLast(cfg, sections, frames)
  {
    hide Sent, Wire, BytesRead, OpenedAt;
    var done, partial := PrefixOfSent(frames, BytesRead(sections));
    PositionIs(frames, done, partial, |BytesRead(sections)|);
    if cfg.timeoutSeconds > 0 {
      OpenedWithin(sections, frames, from, from + cfg.timeoutSeconds * 1_000_000_000);
    }
  }

  /** A partial was opened at one of the reads. */
  lemma {:induction false} OpenedWithin(sections: seq<Section>, frames: seq<Bytes>, from: int, to: int)
    requires forall i :: 0 <= i < |sections| ==> ReadAt(sections[i], from, to)
    ensures BytesRead(sections) != [] ==> OpenedAt(sections, frames) >= from
    decreases |sections|
  {
    hide Complete, Remainder;
    if sections != [] {
      var init := sections[..|sections| - 1];
      OpenedWithin(init, frames, from, to);
      NothingHeld(frames);
    }
  }

  lemma NothingHeld(frames: seq<Bytes>)
    ensures Remainder(frames, 0) == 0
  {
    hide Wire;
    if frames != [] {
      FrameNotEmpty(frames[0]);
    }
  }

  function WithMarker(frames: seq<Bytes>): seq<Bytes> {
    seq(|frames|, i requires 0 <= i < |frames| => frames[i] + EOM)
  }

  lemma {:induction false} EntriesOfCleanFrames(frames: seq<Bytes>)
    requires AllClean(frames)
    ensures EntriesOf(AsPieces(frames)) == WithMarker(frames)
  {
    hide Clean, EOM, Blank;
    if frames != [] {
      var n := |frames| - 1;
      assert AsPieces(frames)[..n] == AsPieces(frames[..n]);
      EntriesOfCleanFrames(frames[..n]);
      CleanIsNotBlank(frames[n]);
    }
  }

  lemma CleanIsNotBlank(frame: Bytes)
    requires Clean(frame)
    ensures !Blank(frame)
  {
    hide StartTag, MarkedAtEnd, Quiet, BenignPrefix, NameEnd, XmlLocalName;
    var wire := Wire(Frame(frame));
    var start := StartTag(wire, 0).value;
    StartTagOpens(wire, 0, start);
    assert start < |frame|;
  }

  // ----- What a calm run leaves in the queue -----

  /** The entries waiting if none was refused: complete frames come in with reads, pops take them out one by one,
      and the end of a session takes them all. */
  function Backlog(sections: seq<Section>, frames: seq<Bytes>): nat {
    if sections == [] then 0
    else
      var init, last := sections[..|sections| - 1], sections[|sections| - 1];
      var before := Backlog(init, frames);
      match last
      case OnRead(_, bytes, _) =>
        var was, got := Complete(frames, |BytesRead(init)|), Complete(frames, |BytesRead(sections)|);
        if was <= got then before + (got - was) else before
      case OnPop => if before > 0 then before - 1 else 0
      case OnDeath => 0
      case OnLoopTop(_, _, _, _) => before
      case OnSilence(_, _) => before
      case OnSubscribe => before
  }

  /** The backlog never exceeds the maximum of the queue. */
  predicate BacklogFits(cfg: Config, sections: seq<Section>, frames: seq<Bytes>) {
    cfg.queueMax >= 0 ==> forall n :: 0 <= n <= |sections| ==> Backlog(sections[..n], frames) <= cfg.queueMax
  }

  lemma BacklogFitsNext(cfg: Config, sections: seq<Section>, frames: seq<Bytes>)
    requires sections != []
    ensures BacklogFits(cfg, sections, frames) <==>
      && BacklogFits(cfg, sections[..|sections| - 1], frames)
      && (cfg.queueMax >= 0 ==> Backlog(sections, frames) <= cfg.queueMax)
  {
    hide Backlog;
    var init := sections[..|sections| - 1];
    forall n | 0 <= n <= |init| ensures init[..n] == sections[..n] {
    }
    assert sections[..|sections|] == sections;
    if cfg.queueMax >= 0 && BacklogFits(cfg, init, frames) && Backlog(sections, frames) <= cfg.queueMax {
      forall n | 0 <= n <= |sections| ensures Backlog(sections[..n], frames) <= cfg.queueMax {
        if n <= |init| {
          assert Backlog(init[..n], frames) <= cfg.queueMax;
        }
      }
    }
    if cfg.queueMax >= 0 && BacklogFits(cfg, sections, frames) {
      forall n | 0 <= n <= |init| ensures Backlog(init[..n], frames) <= cfg.queueMax {
        assert Backlog(sections[..n], frames) <= cfg.queueMax;
      }
      assert Backlog(sections[..|sections|], frames) <= cfg.queueMax;
    }
  }

  /** `t` has refused nothing more than `s` and holds `more` entries more, or has refused some. */
  predicate Queued(s: Stream, t: Stream, more: nat, fits: bool) {
    if fits then t.dropped == s.dropped && |t.queue| == |s.queue| + more else t.dropped > s.dropped
  }

  predicate HasRoom(cfg: Config, s: Stream, more: nat) {
    cfg.queueMax >= 0 ==> |s.queue| + more <= cfg.queueMax
  }

  lemma CutQueues(cfg: Config, s: Stream, fd: int, frame: Bytes)
    requires !Blank(frame) && (cfg.queueMax >= 0 ==> |s.queue| <= cfg.queueMax)
    ensures Queued(s, Cut(cfg, s, fd, Frame(frame)), 1, HasRoom(cfg, s, 1))
    ensures cfg.queueMax >= 0 ==> |Cut(cfg, s, fd, Frame(frame)).queue| <= cfg.queueMax
    ensures Cut(cfg, s, fd, Frame(frame)).dropped >= s.dropped
  {
    hide TrimCopy, EOM, Blank;
    EomLength();
    TrimsToNothing(frame);
  }

  lemma {:induction false} CutAllQueues(cfg: Config, s: Stream, fd: int, frames: seq<Bytes>)
    requires AllClean(frames) && (cfg.queueMax >= 0 ==> |s.queue| <= cfg.queueMax)
    ensures var c := CutAll(cfg, s, fd, AsPieces(frames));
      && Queued(s, c, |frames|, HasRoom(cfg, s, |frames|))
      && (cfg.queueMax >= 0 ==> |c.queue| <= cfg.queueMax)
      && c.dropped >= s.dropped
  {
    hide Cut, Clean, Blank;
    if frames != [] {
      var n := |frames| - 1;
      assert AsPieces(frames)[..n] == AsPieces(frames[..n]);
      CutAllQueues(cfg, s, fd, frames[..n]);
      CleanIsNotBlank(frames[n]);
      CutQueues(cfg, CutAll(cfg, s, fd, AsPieces(frames[..n])), fd, frames[n]);
    }
  }

  /** A read that forces nothing queues what it cuts. */
  lemma ReadQueues(cfg: Config, s: Stream, fd: int, bytes: Bytes, now: int, frames: seq<Bytes>)
    requires AllClean(frames) && (cfg.queueMax >= 0 ==> |s.queue| <= cfg.queueMax)
    requires Parse(s.rx + bytes).0 == AsPieces(frames) && NoneForced(Receive(cfg, s, fd, bytes, now).log.cuts)
    ensures Queued(s, Receive(cfg, s, fd, bytes, now), |frames|, HasRoom(cfg, s, |frames|))
  {
    hide Parse, CutAll, AllClean, AsPieces, Finalize, IsForced;
    var r := s.(rx := s.rx + bytes, log := s.log.(received := s.log.received + bytes));
    var p := Process(cfg, r, fd, now);
    CutAllQueues(cfg, r, fd, frames);
    FinalizeFrame(cfg, p, fd);
    LastIsNotForced(cfg, p, fd);
  }

  lemma LastIsNotForced(cfg: Config, s: Stream, fd: int)
    ensures s.rx != [] ==> !NoneForced(Finalize(cfg, s, fd).log.cuts)
  {
    hide Finalize;
    FinalizeFrame(cfg, s, fd);
    if s.rx != [] {
      var cuts := s.log.cuts + [Guarded(s.rx)];
      assert IsForced(cuts[|s.log.cuts|]);
    }
  }

  /** A look at the clock that forces nothing changes nothing. */
  lemma UnforcedGuardIsIdle(cfg: Config, s: Stream, section: Section)
    requires Inv(cfg, s) && (section.OnLoopTop? || section.OnSilence?)
    requires NoneForced(Step(cfg, s, section).log.cuts)
    ensures Step(cfg, s, section) == s
  {
    hide Process, Finalize, NoneForced, Ledger, Quiet, WireAll, AllWellCut;
    LastIsNotForced(cfg, s, section.fd);
    FinalizeFrame(cfg, s, section.fd);
    if section.OnLoopTop? {
      ProcessIsIdle(cfg, s, section.fd, section.t0);
    }
  }

  /** On a clean stream read calmly the queue refuses nothing exactly when the backlog fits, and then it holds
      the backlog. */
  lemma {:induction false} NothingDroppedExactlyWhenBacklogFits(cfg: Config, sections: seq<Section>, frames: seq<Bytes>)
    requires cfg.Valid() && AllClean(frames)
    requires IsPrefix(BytesRead(sections), Sent(frames)) && Calm(cfg, sections, frames)
    ensures var s := Run(cfg, sections);
      && (s.dropped == 0 <==> BacklogFits(cfg, sections, frames))
      && (s.dropped == 0 ==> |s.queue| == Backlog(sections, frames))
    decreases |sections|
  {
    hide *;
    if sections == [] {
      NoBacklog(cfg, frames);
    } else {
      var init := sections[..|sections| - 1];
      ReadPrefix(sections, Sent(frames));
      CalmNext(cfg, sections, frames);
      NothingDroppedExactlyWhenBacklogFits(cfg, init, frames);
      BacklogFitsNext(cfg, sections, frames);
      LastQueues(cfg, sections, frames);
    }
  }

  lemma NoBacklog(cfg: Config, frames: seq<Bytes>)
    ensures Run(cfg, []).dropped == 0 && Run(cfg, []).queue == [] && Backlog([], frames) == 0
    ensures BacklogFits(cfg, [], frames)
  {
    var none: seq<Section> := [];
    assert none[..0] == [];
  }

  /** One more section: refused entries stay refused, and if there were none the backlog decides. */
  lemma LastQueues(cfg: Config, sections: seq<Section>, frames: seq<Bytes>)
    requires cfg.Valid() && AllClean(frames) && sections != []
    requires IsPrefix(BytesRead(sections), Sent(frames)) && Calm(cfg, sections, frames)
    requires var s := Run(cfg, sections[..|sections| - 1]);
      s.dropped == 0 ==> |s.queue| == Backlog(sections[..|sections| - 1], frames)
    ensures var s, t := Run(cfg, sections[..|sections| - 1]), Run(cfg, sections);
      && (s.dropped > 0 ==> t.dropped > 0)
      && (s.dropped == 0 ==>
            && (t.dropped == 0 <==> (cfg.queueMax >= 0 ==> Backlog(sections, frames) <= cfg.queueMax))
            && (t.dropped == 0 ==> |t.queue| == Backlog(sections, frames)))
  {
    hide Run, Step, Inv, Calm, AllClean, Sent, BytesRead, NoneForced, IsPrefix, Complete;
    var init, last := sections[..|sections| - 1], sections[|sections| - 1];
    var s := Run(cfg, init);
    RunPush(cfg, sections);
    CalmExactlyWhenNoneForced(cfg, sections, frames);
    RunKeepsInv(cfg, init);
    QueueWithinMax(cfg, s);
    if last.OnRead? {
      LastReadQueues(cfg, sections, frames);
    } else if last.OnLoopTop? || last.OnSilence? {
      UnforcedGuardIsIdle(cfg, s, last);
    } else {
      OthersQueue(cfg, s, last);
    }
  }

  lemma QueueWithinMax(cfg: Config, s: Stream)
    requires Inv(cfg, s)
    ensures cfg.queueMax >= 0 ==> |s.queue| <= cfg.queueMax
  {
    hide DropBooks, PieceBooks, BufferBooks, AcceptedIn, Peak;
  }

  lemma OthersQueue(cfg: Config, s: Stream, section: Section)
    requires section.OnPop? || section.OnDeath? || section.OnSubscribe?
    ensures var t := Step(cfg, s, section);
      && t.dropped == s.dropped
      && |t.queue| == if section.OnDeath? then 0
                      else if section.OnPop? && s.queue != [] then |s.queue| - 1
                      else |s.queue|
  {
  }

  lemma LastReadQueues(cfg: Config, sections: seq<Section>, frames: seq<Bytes>)
    requires cfg.Valid() && AllClean(frames) && sections != [] && sections[|sections| - 1].OnRead?
    requires IsPrefix(BytesRead(sections), Sent(frames)) && NoneForced(Run(cfg, sections).log.cuts)
    ensures var init := sections[..|sections| - 1];
      var was, got := Complete(frames, |BytesRead(init)|), Complete(frames, |BytesRead(sections)|);
      was <= got && Queued(Run(cfg, init), Run(cfg, sections), got - was, HasRoom(cfg, Run(cfg, init), got - was))
  {
    hide Run, Receive, Inv, Parse, Sent, Wire, AllClean, AsPieces, NoneForced, IsPrefix, Complete, Remainder, HasRoom;
    hide Queued;
    var init, last := sections[..|sections| - 1], sections[|sections| - 1];
    var s := Run(cfg, init);
    RunPush(cfg, sections);
    RunKeepsInv(cfg, init);
    QueueWithinMax(cfg, s);
    ReadPrefix(sections, Sent(frames));
    UnforcedBefore(cfg, sections);
    var done := UnforcedRunCutsFrames(cfg, init, frames);
    PositionIs(frames, done, s.rx, |BytesRead(init)|);
    var done', rest := CleanAdvance(frames, done, s.rx, last.bytes);
    PositionIs(frames, done', rest, |BytesRead(sections)|);
    AtFits(frames, done', rest);
    CleanSlice(frames, done, done');
    ReadQueues(cfg, s, last.fd, last.bytes, last.now, frames[done..done']);
  }

  lemma CleanSlice(frames: seq<Bytes>, i: nat, m: nat)
    requires AllClean(frames) && i <= m <= |frames|
    ensures AllClean(frames[i..m])
  {
    hide Clean;
  }

  /** The backlog is at most the frames there are, so a queue with room for them all refuses none. */
  lemma {:induction false} BacklogBounded(sections: seq<Section>, frames: seq<Bytes>)
    ensures Backlog(sections, frames) <= Complete(frames, |BytesRead(sections)|) <= |frames|
  {
    CompleteBounded(frames, |BytesRead(sections)|);
    if sections != [] {
      var init := sections[..|sections| - 1];
      BacklogBounded(init, frames);
      CompleteGrows(frames, |BytesRead(init)|, |BytesRead(sections)|);
    } else {
      assert Backlog(sections, frames) == 0;
    }
  }

  lemma {:induction false} CompleteBounded(frames: seq<Bytes>, n: nat)
    ensures Complete(frames, n) <= |frames|
    decreases |frames|
  {
    hide Wire;
    if frames != [] && |Wire(Frame(frames[0]))| <= n {
      CompleteBounded(frames[1..], n - |Wire(Frame(frames[0]))|);
    }
  }

  lemma {:induction false} CompleteGrows(frames: seq<Bytes>, n: nat, m: nat)
    requires n <= m
    ensures Complete(frames, n) <= Complete(frames, m)
    decreases |frames|
  {
    hide Wire;
    if frames != [] && |Wire(Frame(frames[0]))| <= n {
      CompleteGrows(frames[1..], n - |Wire(Frame(frames[0]))|, m - |Wire(Frame(frames[0]))|);
    }
  }

  lemma FewFramesFit(cfg: Config, sections: seq<Section>, frames: seq<Bytes>)
    requires cfg.queueMax < 0 || |frames| <= cfg.queueMax
    ensures BacklogFits(cfg, sections, frames)
  {
    hide Backlog, Complete;
    forall n | 0 <= n <= |sections| ensures Backlog(sections[..n], frames) <= |frames| {
      BacklogBounded(sections[..n], frames);
    }
  }

  /** Independence of fragmentation, end to end: whatever the reads, ticks and pops in between, once a clean
      stream has come in calmly the queue has been given exactly its frames, each with its marker, in
      order; what left it followed by what it holds are all of them exactly when the backlog never
      exceeded its maximum, so that it refused none; nothing is left over, and the only diagnostics are
      about frames the XML parser rejects. */
  lemma CleanStreamArrives(cfg: Config, sections: seq<Section>, frames: seq<Bytes>)
    requires cfg.Valid() && AllClean(frames)
    requires BytesRead(sections) == Sent(frames) && Calm(cfg, sections, frames)
    ensures var s := Run(cfg, sections);
      && EntriesIn(s.log.verdicts) == WithMarker(frames)
      && (s.log.taken + s.queue == WithMarker(frames) <==> BacklogFits(cfg, sections, frames))
      && (s.dropped == 0 <==> BacklogFits(cfg, sections, frames))
      && s.rx == [] && s.incomplete == 0
      && DiagnosesIn(s.log.events) == Rejected(cfg.parses, frames)
      && (DiagnosesIn(s.log.events) == [] <==> forall i :: 0 <= i < |frames| ==> cfg.parses(TrimCopy(frames[i])))
  {
    hide *;
    var s := Run(cfg, sections);
    WholeIsPrefix(Sent(frames));
    CalmExactlyWhenNoneForced(cfg, sections, frames);
    var done := UnforcedRunCutsFrames(cfg, sections, frames);
    WholeStreamDone(frames, done, s.rx);
    assert frames[..done] == frames;
    TakesEverythingExactlyWhenNothingDropped(cfg, sections);
    NothingDroppedExactlyWhenBacklogFits(cfg, sections, frames);
    EntriesOfCleanFrames(frames);
    RunKeepsInv(cfg, sections);
    BooksOf(cfg, s);
    FramesAreNotIncomplete(frames);
    RejectedAreDiagnosed(cfg, frames);
    NothingRejected(cfg.parses, frames);
  }

  lemma WholeIsPrefix(s: Bytes)
    ensures IsPrefix(s, s)
  {
  }

  /** In particular a queue that is unbounded, or has room for all the frames, has taken them all. */
  lemma CleanStreamArrivesWithRoom(cfg: Config, sections: seq<Section>, frames: seq<Bytes>)
    requires cfg.Valid() && AllClean(frames) && (cfg.queueMax == -1 || |frames| <= cfg.queueMax)
    requires BytesRead(sections) == Sent(frames) && Calm(cfg, sections, frames)
    ensures var s := Run(cfg, sections); s.dropped == 0 && s.log.taken + s.queue == WithMarker(frames)
  {
    hide AllClean, Run, Sent, BytesRead, Calm, BacklogFits, WithMarker;
    CleanStreamArrives(cfg, sections, frames);
    FewFramesFit(cfg, sections, frames);
  }

  /** The frames whose trimmed text the XML parser does not accept, as diagnostics with their sizes. */
  function Rejected(parses: Bytes -> bool, frames: seq<Bytes>): seq<(EventKind, nat)> {
    if frames == [] then []
    else
      var last := frames[|frames| - 1];
      Rejected(parses, frames[..|frames| - 1]) + if parses(TrimCopy(last)) then [] else [(Malformed, |last|)]
  }

  lemma {:induction false} RejectedAreDiagnosed(cfg: Config, frames: seq<Bytes>)
    requires AllClean(frames)
    ensures DiagnosesOf(cfg, AsPieces(frames)) == Rejected(cfg.parses, frames)
  {
    hide Clean, TrimCopy, Blank;
    if frames != [] {
      var n := |frames| - 1;
      assert AsPieces(frames)[..n] == AsPieces(frames[..n]);
      RejectedAreDiagnosed(cfg, frames[..n]);
      CleanIsNotBlank(frames[n]);
      TrimsToNothing(frames[n]);
    }
  }

  lemma {:induction false} NothingRejected(parses: Bytes -> bool, frames: seq<Bytes>)
    ensures Rejected(parses, frames) == [] <==> forall i :: 0 <= i < |frames| ==> parses(TrimCopy(frames[i]))
  {
    hide TrimCopy;
    if frames != [] {
      var n := |frames| - 1;
      NothingRejected(parses, frames[..n]);
      assert forall i :: 0 <= i < n ==> frames[..n][i] == frames[i];
    }
  }

  lemma BooksOf(cfg: Config, s: Stream)
    requires Inv(cfg, s)
    ensures s.incomplete == IncompletePieces(s.log.cuts) && DiagnosesIn(s.log.events) == DiagnosesOf(cfg, s.log.cuts)
  {
    hide QueueBooks, DropBooks, BufferBooks;
  }

  lemma {:induction false} FramesAreNotIncomplete(frames: seq<Bytes>)
    ensures IncompletePieces(AsPieces(frames)) == 0
  {
    if frames != [] {
      assert AsPieces(frames)[..|frames| - 1] == AsPieces(frames[..|frames| - 1]);
      FramesAreNotIncomplete(frames[..|frames| - 1]);
    }
  }
}
