/** What the books mean for a client: theorems about every run of the critical sections, whatever the
    threads, the network and the clock do. */
module StreamTheorems {
  import opened Wrappers
  import opened ByteStrings
  import opened NotificationScan
  import opened NotificationParser
  import opened NotificationStream
  import opened StreamBooks
  import opened CleanFrames
  import opened FrameStreams
  import opened CleanStreams
  import opened CleanExamples

  /** The bytes the sections of a run read, in order. */
  function BytesRead(sections: seq<Section>): Bytes {
    if sections == [] then []
    else
      var last := sections[|sections| - 1];
      BytesRead(sections[..|sections| - 1]) + if last.OnRead? then last.bytes else []
  }

  // ----- Frames of the sections -----

  lemma ProcessFrame(cfg: Config, s: Stream, fd: int, now: int)
    ensures var p := Process(cfg, s, fd, now);
      && p.log.received == s.log.received && p.log.cuts == s.log.cuts + Parse(s.rx).0 && p.rx == Parse(s.rx).1
  {
    hide Parse, CutAll;
    CutAllFrame(cfg, s, fd, Parse(s.rx).0);
  }

  lemma FinalizeFrame(cfg: Config, s: Stream, fd: int)
    ensures var f := Finalize(cfg, s, fd);
      && f.log.received == s.log.received && f.rx == []
      && f.log.cuts == s.log.cuts + if s.rx == [] then [] else [Guarded(s.rx)]
  {
    hide Cut;
    CutFrame(cfg, s.(rx := [], timerActive := false), fd, Guarded(s.rx));
  }

  lemma StepReceives(cfg: Config, s: Stream, section: Section)
    ensures Step(cfg, s, section).log.received == s.log.received + if section.OnRead? then section.bytes else []
  {
    hide Process, Finalize;
    match section
    case OnRead(fd, bytes, now) =>
      var r := s.(rx := s.rx + bytes, log := s.log.(received := s.log.received + bytes));
      ProcessFrame(cfg, r, fd, now);
      FinalizeFrame(cfg, Process(cfg, r, fd, now), fd);
    case OnLoopTop(fd, t0, t1, t2) =>
      var p := Process(cfg, s, fd, t0);
      ProcessFrame(cfg, s, fd, t0);
      FinalizeFrame(cfg, p, fd);
      FinalizeFrame(cfg, Finalize(cfg, p, fd), fd);
    case OnSilence(fd, now) => FinalizeFrame(cfg, s, fd);
    case OnPop =>
    case OnDeath =>
    case OnSubscribe =>
  }

  /** Byte conservation over whole runs: everything read is, in order, what was cut and what is still
      buffered. */
  lemma {:induction false} BytesConserved(cfg: Config, sections: seq<Section>)
    requires cfg.Valid()
    ensures BytesRead(sections) == WireAll(Run(cfg, sections).log.cuts) + Run(cfg, sections).rx
  {
    RunKeepsInv(cfg, sections);
    RunReceives(cfg, sections);
  }

  lemma {:induction false} RunReceives(cfg: Config, sections: seq<Section>)
    ensures Run(cfg, sections).log.received == BytesRead(sections)
  {
    hide Step;
    if sections != [] {
      RunReceives(cfg, sections[..|sections| - 1]);
      StepReceives(cfg, Run(cfg, sections[..|sections| - 1]), sections[|sections| - 1]);
    }
  }

  // ----- The queue -----

  /** FIFO with admission, over whole runs: what was accepted is what left followed by what is queued,
      and the counters count it. */
  lemma QueueIsAFifo(cfg: Config, sections: seq<Section>)
    requires cfg.Valid()
    ensures var s := Run(cfg, sections);
      && AcceptedIn(s.log.verdicts) == s.log.taken + s.queue
      && EntriesIn(s.log.verdicts) == EntriesOf(s.log.cuts)
      && s.enqueued == |s.log.taken| + |s.queue|
      && s.enqueued + s.dropped == |EntriesOf(s.log.cuts)|
      && |s.queue| <= s.watermark == Peak(s.log.sizes)
      && (cfg.queueMax >= 0 ==> s.watermark <= cfg.queueMax)
  {
    hide AcceptedIn, Peak, EntriesOf, BufferBooks;
    RunKeepsInv(cfg, sections);
  }

  /** The queue is given every entry of the stream, in order, and what left it followed by what it holds
      are all of them exactly when it refused none. */
  lemma TakesEverythingExactlyWhenNothingDropped(cfg: Config, sections: seq<Section>)
    requires cfg.Valid()
    ensures var s := Run(cfg, sections);
      && EntriesIn(s.log.verdicts) == EntriesOf(s.log.cuts)
      && (s.log.taken + s.queue == EntriesOf(s.log.cuts) <==> s.dropped == 0)
  {
    hide AcceptedIn, EntriesIn, EntriesOf, BufferBooks, DropBooks;
    RunKeepsInv(cfg, sections);
    AllAccepted(Run(cfg, sections).log.verdicts);
  }

  /** In particular an unbounded queue takes them all. */
  lemma UnboundedTakesEverything(cfg: Config, sections: seq<Section>)
    requires cfg.Valid() && cfg.queueMax == -1
    ensures var s := Run(cfg, sections); s.dropped == 0 && s.log.taken + s.queue == EntriesOf(s.log.cuts)
  {
    hide AcceptedIn, EntriesIn, EntriesOf, BufferBooks, DropBooks;
    RunKeepsInv(cfg, sections);
    TakesEverythingExactlyWhenNothingDropped(cfg, sections);
  }

  lemma {:induction false} AllAccepted(verdicts: seq<Verdict>)
    ensures |AcceptedIn(verdicts)| <= |verdicts| == |EntriesIn(verdicts)|
    ensures |AcceptedIn(verdicts)| == |verdicts| ==> AcceptedIn(verdicts) == EntriesIn(verdicts)
  {
    if verdicts != [] {
      AllAccepted(verdicts[..|verdicts| - 1]);
    }
  }

  /** Drop reporting telescopes: the deltas of the queue-full and summary events add up to the drops
      reported, and fewer than a threshold are outstanding. */
  lemma DropReportsTelescope(cfg: Config, sections: seq<Section>)
    requires cfg.Valid()
    ensures var s := Run(cfg, sections);
      && SumOfDeltas(s.log.events) == s.reported
      && 0 <= s.dropped - SumOfDeltas(s.log.events) < cfg.dropThreshold
      && forall i :: 0 <= i < |s.log.events| ==> DropEventOk(cfg, s.log.events[i])
  {
    hide SumOfDeltas, BufferBooks;
    RunKeepsInv(cfg, sections);
  }

  // ----- Alternation, said without an automaton -----

  /** Among the first `n` events a queue-full event has not yet been answered by a recovery. */
  ghost predicate FullAt(events: seq<HealthEvent>, n: nat)
    requires n <= |events|
  {
    exists i :: 0 <= i < n && events[i].kind.QueueFull? && forall k :: i < k < n ==> !events[k].kind.QueueRecovered?
  }

  ghost predicate Alternates(events: seq<HealthEvent>) {
    forall n :: 0 <= n < |events| ==>
      && (events[n].kind.QueueFull? ==> !FullAt(events, n))
      && (events[n].kind.QueueRecovered? || events[n].kind.DropsSummary? ==> FullAt(events, n))
  }

  lemma FullAtInPrefix(events: seq<HealthEvent>, n: nat)
    requires n < |events|
    ensures FullAt(events[..|events| - 1], n) <==> FullAt(events, n)
  {
    var init := events[..|events| - 1];
    if FullAt(events, n) {
      var i :| 0 <= i < n && events[i].kind.QueueFull? && forall k :: i < k < n ==> !events[k].kind.QueueRecovered?;
      assert init[i].kind.QueueFull? && forall k :: i < k < n ==> !init[k].kind.QueueRecovered?;
    }
    if FullAt(init, n) {
      var i :| 0 <= i < n && init[i].kind.QueueFull? && forall k :: i < k < n ==> !init[k].kind.QueueRecovered?;
      assert events[i].kind.QueueFull? && forall k :: i < k < n ==> !events[k].kind.QueueRecovered?;
    }
  }

  lemma FullAtNext(events: seq<HealthEvent>)
    requires events != []
    ensures var n := |events| - 1;
      FullAt(events, |events|) <==>
        events[n].kind.QueueFull? || (FullAt(events, n) && !events[n].kind.QueueRecovered?)
  {
    var n := |events| - 1;
    if events[n].kind.QueueFull? {
      assert FullAt(events, |events|);
    } else if FullAt(events, n) && !events[n].kind.QueueRecovered? {
      var i :| 0 <= i < n && events[i].kind.QueueFull? && forall k :: i < k < n ==> !events[k].kind.QueueRecovered?;
      assert forall k :: i < k < |events| ==> !events[k].kind.QueueRecovered?;
    }
  }

  /** The inferred full-state exists exactly for alternating events, and is the state after the last one. */
  lemma {:induction false} FullAfterMeansAlternates(events: seq<HealthEvent>)
    ensures FullAfter(events) == if Alternates(events) then Some(FullAt(events, |events|)) else None
  {
    if events != [] {
      var n := |events| - 1;
      FullAfterMeansAlternates(events[..n]);
      AlternatesNext(events);
      FullAtInPrefix(events, n);
      FullAtNext(events);
    }
  }

  lemma AlternatesNext(events: seq<HealthEvent>)
    requires events != []
    ensures var n := |events| - 1;
      Alternates(events) <==>
        && Alternates(events[..n])
        && (events[n].kind.QueueFull? ==> !FullAt(events, n))
        && (events[n].kind.QueueRecovered? || events[n].kind.DropsSummary? ==> FullAt(events, n))
  {
    hide FullAt;
    forall n: nat | n < |events| ensures FullAt(events[..|events| - 1], n) <==> FullAt(events, n) {
      FullAtInPrefix(events, n);
    }
  }

  /** Queue-full and recovered events of a client strictly alternate, full first; summaries come only in
      between; and the full-state is what the events say. */
  lemma FullAndRecoveredAlternate(cfg: Config, sections: seq<Section>)
    requires cfg.Valid()
    ensures var s := Run(cfg, sections); Alternates(s.log.events) && (s.full <==> FullAt(s.log.events, |s.log.events|))
  {
    hide FullAt, Alternates, BufferBooks;
    RunKeepsInv(cfg, sections);
    FullAfterMeansAlternates(Run(cfg, sections).log.events);
  }

  // ----- Entries -----

  lemma {:induction false} EntryHasAPiece(pieces: seq<Piece>, e: Bytes) returns (i: nat)
    requires e in EntriesOf(pieces)
    ensures i < |pieces| && EntryOf(pieces[i]) == [e]
  {
    hide EntryOf;
    var n := |pieces| - 1;
    if e in EntryOf(pieces[n]) {
      i := n;
      EntryIsSingle(pieces[n]);
    } else {
      i := EntryHasAPiece(pieces[..n], e);
    }
  }

  lemma EntryIsSingle(piece: Piece)
    ensures |EntryOf(piece)| <= 1
  {
  }

  lemma {:induction false} AcceptedWasOffered(verdicts: seq<Verdict>, e: Bytes)
    requires e in AcceptedIn(verdicts)
    ensures e in EntriesIn(verdicts)
  {
    var n := |verdicts| - 1;
    if verdicts[n].Accepted? && e == verdicts[n].entry {
      assert EntriesIn(verdicts)[n] == e;
    } else {
      AcceptedWasOffered(verdicts[..n], e);
      var k :| 0 <= k < n && EntriesIn(verdicts[..n])[k] == e;
      assert EntriesIn(verdicts)[k] == e;
    }
  }

  /** EOM is an unambiguous mark: an entry that was ever queued either ends in its only EOM and was
      delimited by it on the wire, or contains no EOM and came from recovery, abandonment or a guard. */
  lemma EomIsUnambiguous(cfg: Config, sections: seq<Section>, e: Bytes) returns (piece: Piece)
    requires cfg.Valid()
    requires e in Run(cfg, sections).log.taken + Run(cfg, sections).queue
    ensures piece in Run(cfg, sections).log.cuts && e == Wire(piece) && e != []
    ensures if piece.Frame? then MarkedAtEnd(e)
            else NoEom(e) && (piece.Recovered? || piece.Abandoned? || piece.Guarded?)
  {
    hide *;
    RunKeepsInv(cfg, sections);
    piece := EntryMark(cfg, Run(cfg, sections), e);
  }

  lemma EntryMark(cfg: Config, s: Stream, e: Bytes) returns (piece: Piece)
    requires Inv(cfg, s) && e in s.log.taken + s.queue
    ensures piece in s.log.cuts && e == Wire(piece) && e != []
    ensures if piece.Frame? then MarkedAtEnd(e)
            else NoEom(e) && (piece.Recovered? || piece.Abandoned? || piece.Guarded?)
  {
    hide AcceptedIn, EntriesIn, EntriesOf, DropBooks, Quiet, StartTag, NotificationEnd, Find, DiagnosesIn, DiagnosesOf;
    AcceptedWasOffered(s.log.verdicts, e);
    var i := EntryHasAPiece(s.log.cuts, e);
    piece := s.log.cuts[i];
    PieceMark(piece, e);
  }

  lemma PieceMark(piece: Piece, e: Bytes)
    requires WellCut(piece) && EntryOf(piece) == [e]
    ensures e == Wire(piece) && e != []
    ensures if piece.Frame? then MarkedAtEnd(e)
            else NoEom(e) && (piece.Recovered? || piece.Abandoned? || piece.Guarded?)
  {
    hide Find, StartTag, Blank;
  }

  /** Every piece takes at least one byte off the buffer. */
  lemma PiecesAreNotEmpty(piece: Piece)
    requires WellCut(piece)
    ensures |Wire(piece)| > 0
  {
    hide Find, StartTag;
  }

  // ----- Full-state and queue size -----

  /** The full-state says that the queue is exactly at its maximum. */
  ghost predicate FullMeansAtMax(cfg: Config, s: Stream) {
    s.full ==> cfg.queueMax >= 0 && |s.queue| == cfg.queueMax
  }

  lemma CutKeepsFullMeaning(cfg: Config, s: Stream, fd: int, piece: Piece)
    requires FullMeansAtMax(cfg, s) && (cfg.queueMax >= 0 ==> |s.queue| <= cfg.queueMax)
    ensures FullMeansAtMax(cfg, Cut(cfg, s, fd, piece))
    ensures cfg.queueMax >= 0 ==> |Cut(cfg, s, fd, piece).queue| <= cfg.queueMax
  {
    hide TrimCopy, EOM;
  }

  lemma {:induction false} CutAllKeepsFullMeaning(cfg: Config, s: Stream, fd: int, pieces: seq<Piece>)
    requires FullMeansAtMax(cfg, s) && (cfg.queueMax >= 0 ==> |s.queue| <= cfg.queueMax)
    ensures FullMeansAtMax(cfg, CutAll(cfg, s, fd, pieces))
    ensures cfg.queueMax >= 0 ==> |CutAll(cfg, s, fd, pieces).queue| <= cfg.queueMax
  {
    hide Cut, FullMeansAtMax;
    if pieces != [] {
      var n := |pieces| - 1;
      CutAllKeepsFullMeaning(cfg, s, fd, pieces[..n]);
      CutKeepsFullMeaning(cfg, CutAll(cfg, s, fd, pieces[..n]), fd, pieces[n]);
    }
  }

  lemma StepKeepsFullMeaning(cfg: Config, s: Stream, section: Section)
    requires FullMeansAtMax(cfg, s) && (cfg.queueMax >= 0 ==> |s.queue| <= cfg.queueMax)
    requires !section.OnDeath?
    ensures FullMeansAtMax(cfg, Step(cfg, s, section))
    ensures cfg.queueMax >= 0 ==> |Step(cfg, s, section).queue| <= cfg.queueMax
  {
    hide Cut, CutAll, Parse;
    match section
    case OnRead(fd, bytes, now) =>
      var r := s.(rx := s.rx + bytes, log := s.log.(received := s.log.received + bytes));
      ProcessKeepsFullMeaning(cfg, r, fd, now);
      FinalizeKeepsFullMeaning(cfg, Process(cfg, r, fd, now), fd);
    case OnLoopTop(fd, t0, t1, t2) =>
      var p := Process(cfg, s, fd, t0);
      ProcessKeepsFullMeaning(cfg, s, fd, t0);
      FinalizeKeepsFullMeaning(cfg, p, fd);
      FinalizeKeepsFullMeaning(cfg, Finalize(cfg, p, fd), fd);
    case OnSilence(fd, now) => FinalizeKeepsFullMeaning(cfg, s, fd);
    case OnPop =>
    case OnSubscribe =>
  }

  lemma ProcessKeepsFullMeaning(cfg: Config, s: Stream, fd: int, now: int)
    requires FullMeansAtMax(cfg, s) && (cfg.queueMax >= 0 ==> |s.queue| <= cfg.queueMax)
    ensures FullMeansAtMax(cfg, Process(cfg, s, fd, now))
    ensures cfg.queueMax >= 0 ==> |Process(cfg, s, fd, now).queue| <= cfg.queueMax
  {
    hide CutAll, Parse;
    CutAllKeepsFullMeaning(cfg, s, fd, Parse(s.rx).0);
  }

  lemma FinalizeKeepsFullMeaning(cfg: Config, s: Stream, fd: int)
    requires FullMeansAtMax(cfg, s) && (cfg.queueMax >= 0 ==> |s.queue| <= cfg.queueMax)
    ensures FullMeansAtMax(cfg, Finalize(cfg, s, fd))
    ensures cfg.queueMax >= 0 ==> |Finalize(cfg, s, fd).queue| <= cfg.queueMax
  {
    hide Cut;
    CutKeepsFullMeaning(cfg, s.(rx := [], timerActive := false), fd, Guarded(s.rx));
  }

  /** Between session deaths the full-state means a queue at its maximum. */
  lemma {:induction false} FullMeansAtMaxBetweenDeaths(cfg: Config, s: Stream, sections: seq<Section>)
    requires FullMeansAtMax(cfg, s) && (cfg.queueMax >= 0 ==> |s.queue| <= cfg.queueMax)
    requires forall i :: 0 <= i < |sections| ==> !sections[i].OnDeath?
    ensures FullMeansAtMax(cfg, Steps(cfg, s, sections))
    ensures cfg.queueMax >= 0 ==> |Steps(cfg, s, sections).queue| <= cfg.queueMax
  {
    hide Step, FullMeansAtMax;
    if sections != [] {
      var n := |sections| - 1;
      FullMeansAtMaxBetweenDeaths(cfg, s, sections[..n]);
      StepKeepsFullMeaning(cfg, Steps(cfg, s, sections[..n]), sections[n]);
    }
  }

  /** A session death breaks that meaning exactly when it finds the full-state set on a queue that can
      hold anything at all. */
  lemma DeathLeavesStaleFullState(cfg: Config, s: Stream)
    requires FullMeansAtMax(cfg, s)
    ensures FullMeansAtMax(cfg, SessionDead(s)) <==> !(s.full && cfg.queueMax > 0)
  {
  }

  /** And such a death happens: a one-place queue, two notifications in one read, then the session dies. */
  lemma StaleFullStateIsReachable(cfg: Config)
    requires cfg.Valid() && cfg.queueMax == 1 && cfg.maxKb == -1
    ensures !FullMeansAtMax(cfg, Run(cfg, [OnRead(7, Sent([SAMPLE, SAMPLE]), 0), OnDeath]))
  {
    hide Sent, Step, SAMPLE;
    var read := OnRead(7, Sent([SAMPLE, SAMPLE]), 0);
    TwoSamplesFill(cfg);
    StepsPush(cfg, INITIAL, [], read);
    StepsPush(cfg, INITIAL, [read], OnDeath);
    assert [] + [read] == [read] && [read] + [OnDeath] == [read, OnDeath];
    DeathIsStale(cfg, Step(cfg, INITIAL, read));
  }

  lemma DeathIsStale(cfg: Config, s: Stream)
    requires s.full && cfg.queueMax > 0
    ensures !FullMeansAtMax(cfg, Step(cfg, s, OnDeath))
  {
  }

  lemma TwoSamplesFill(cfg: Config)
    requires cfg.Valid() && cfg.queueMax == 1 && cfg.maxKb == -1
    ensures Step(cfg, INITIAL, OnRead(7, Sent([SAMPLE, SAMPLE]), 0)).full
  {
    hide Parse, Sent, Clean, Wire, AsPieces, SAMPLE, Cut, CutAll, Quiet;
    var sent := Sent([SAMPLE, SAMPLE]);
    SampleIsClean();
    EmptyQuiet();
    CleanParse([SAMPLE, SAMPLE], []);
    assert sent + [] == sent && [] + sent == sent;
    SentTwo(SAMPLE, SAMPLE);
    var r := INITIAL.(rx := sent, log := INITIAL.log.(received := sent));
    CutAllTwo(cfg, r, 7, Frame(SAMPLE), Frame(SAMPLE));
    SampleFillsThenOverflows(cfg, r);
  }

  // ----- What a full-state that outlived its queue does -----

  /** The full-state stands, and no queue-full event has been raised since `s`. */
  ghost predicate StaysFullSilently(s: Stream, t: Stream) {
    && t.full && IsEventPrefix(s.log.events, t.log.events)
    && forall i :: |s.log.events| <= i < |t.log.events| ==> !t.log.events[i].kind.QueueFull?
  }

  predicate IsEventPrefix(a: seq<HealthEvent>, b: seq<HealthEvent>) {
    |a| <= |b| && b[..|a|] == a
  }

  lemma SilenceGoesOn(s: Stream, t: Stream, u: Stream)
    requires StaysFullSilently(s, t) && StaysFullSilently(t, u)
    ensures StaysFullSilently(s, u)
  {
    assert forall i :: 0 <= i < |t.log.events| ==>
        u.log.events[i] == u.log.events[..|t.log.events|][i] == t.log.events[i];
  }

  /** In the full-state a refused entry raises a summary or nothing, never queue-full. */
  lemma RefuseInFullState(cfg: Config, s: Stream, fd: int, entry: Bytes, bytes: nat)
    requires s.full
    ensures var r := Refuse(cfg, s, fd, entry, bytes);
      && StaysFullSilently(s, r)
      && (s.dropped + 1 - s.reported >= cfg.dropThreshold ==>
            |r.log.events| == |s.log.events| + 1 && r.log.events[|s.log.events|].kind.DropsSummary?)
      && (s.dropped + 1 - s.reported < cfg.dropThreshold ==> r.log.events == s.log.events)
  {
  }

  lemma OfferInFullState(cfg: Config, s: Stream, fd: int, entry: Bytes, bytes: nat)
    requires s.full
    ensures StaysFullSilently(s, Offer(cfg, s, fd, entry, bytes))
  {
    hide Refuse;
    RefuseInFullState(cfg, s, fd, entry, bytes);
  }

  lemma DiagnoseInFullState(cfg: Config, s: Stream, fd: int, kind: EventKind, bytes: nat)
    requires s.full && !kind.QueueFull?
    ensures StaysFullSilently(s, Diagnose(cfg, s, fd, kind, bytes))
  {
  }

  lemma CutInFullState(cfg: Config, s: Stream, fd: int, piece: Piece)
    requires s.full
    ensures StaysFullSilently(s, Cut(cfg, s, fd, piece))
  {
    hide TrimCopy, EOM, Offer, Diagnose, StaysFullSilently;
    var c := s.(log := s.log.(cuts := s.log.cuts + [piece]));
    var n := |piece.text|;
    var d := Diagnose(cfg, c, fd, KindOf(piece), n);
    var entry := if piece.Frame? then piece.text + EOM else piece.text;
    assert StaysFullSilently(s, c) by { StaysOnLogging(s, piece); }
    OfferInFullState(cfg, c, fd, entry, 0);
    DiagnoseInFullState(cfg, c, fd, KindOf(piece), n);
    SilentIsFull(c, d);
    OfferInFullState(cfg, d, fd, entry, n);
    SilenceGoesOn(s, c, Offer(cfg, c, fd, entry, 0));
    SilenceGoesOn(s, c, d);
    SilenceGoesOn(s, d, Offer(cfg, d, fd, entry, n));
  }

  lemma StaysOnLogging(s: Stream, piece: Piece)
    requires s.full
    ensures StaysFullSilently(s, s.(log := s.log.(cuts := s.log.cuts + [piece])))
  {
  }

  lemma SilentIsFull(s: Stream, t: Stream)
    requires StaysFullSilently(s, t)
    ensures t.full
  {
  }

  lemma {:induction false} CutAllInFullState(cfg: Config, s: Stream, fd: int, pieces: seq<Piece>)
    requires s.full
    ensures StaysFullSilently(s, CutAll(cfg, s, fd, pieces))
  {
    hide Cut;
    if pieces != [] {
      var n := |pieces| - 1;
      CutAllInFullState(cfg, s, fd, pieces[..n]);
      CutInFullState(cfg, CutAll(cfg, s, fd, pieces[..n]), fd, pieces[n]);
      SilenceGoesOn(s, CutAll(cfg, s, fd, pieces[..n]), CutAll(cfg, s, fd, pieces));
    }
  }

  lemma FinalizeInFullState(cfg: Config, s: Stream, fd: int)
    requires s.full
    ensures StaysFullSilently(s, Finalize(cfg, s, fd))
  {
    hide Cut;
    CutInFullState(cfg, s.(rx := [], timerActive := false), fd, Guarded(s.rx));
  }

  lemma ProcessInFullState(cfg: Config, s: Stream, fd: int, now: int)
    requires s.full
    ensures StaysFullSilently(s, Process(cfg, s, fd, now))
  {
    hide CutAll, Parse;
    CutAllInFullState(cfg, s, fd, Parse(s.rx).0);
  }

  lemma StepInFullState(cfg: Config, s: Stream, section: Section)
    requires s.full && !section.OnPop?
    ensures StaysFullSilently(s, Step(cfg, s, section))
  {
    hide Process, Finalize;
    match section
    case OnRead(fd, bytes, now) =>
      var r := s.(rx := s.rx + bytes, log := s.log.(received := s.log.received + bytes));
      var p := Process(cfg, r, fd, now);
      ProcessInFullState(cfg, r, fd, now);
      FinalizeInFullState(cfg, p, fd);
      SilenceGoesOn(s, p, Finalize(cfg, p, fd));
    case OnLoopTop(fd, t0, t1, t2) =>
      var p := Process(cfg, s, fd, t0);
      var f := Finalize(cfg, p, fd);
      ProcessInFullState(cfg, s, fd, t0);
      FinalizeInFullState(cfg, p, fd);
      FinalizeInFullState(cfg, f, fd);
      SilenceGoesOn(s, p, f);
      SilenceGoesOn(s, f, Finalize(cfg, f, fd));
    case OnSilence(fd, now) => FinalizeInFullState(cfg, s, fd);
    case OnDeath =>
    case OnSubscribe =>
  }

  /** So once the full-state is set, stale or not, no overflow is announced as queue-full before an entry
      is popped, however many sessions end and begin meanwhile. */
  lemma {:induction false} NoQueueFullBeforeAPop(cfg: Config, s: Stream, sections: seq<Section>)
    requires s.full && forall i :: 0 <= i < |sections| ==> !sections[i].OnPop?
    ensures StaysFullSilently(s, Steps(cfg, s, sections))
  {
    hide Step;
    if sections != [] {
      var n := |sections| - 1;
      var t := Steps(cfg, s, sections[..n]);
      NoQueueFullBeforeAPop(cfg, s, sections[..n]);
      StepInFullState(cfg, t, sections[n]);
      SilenceGoesOn(s, t, Steps(cfg, s, sections));
    }
  }

  /** A pop that takes an entry ends the full-state exactly when it leaves the queue below its maximum, and
      raises one recovery then. */
  lemma PopInFullState(cfg: Config, s: Stream)
    requires s.full && s.queue != []
    ensures var p := Pop(cfg, s);
      if AtMax(cfg, Take(s)) then p.full && p.log.events == s.log.events
      else !p.full && |p.log.events| == |s.log.events| + 1 && p.log.events[..|s.log.events|] == s.log.events
           && p.log.events[|s.log.events|].kind.QueueRecovered?
  {
  }

  /** After the death of a session in the full-state, the first entry of the next one, popped before anything
      else comes, is answered by a recovery, although a queue with room for more was never full since. */
  lemma StaleRecovery(cfg: Config, s: Stream, entry: Bytes)
    requires FullMeansAtMax(cfg, s) && s.full && cfg.queueMax > 0
    ensures var d := SessionDead(s);
      var p := Pop(cfg, Accept(d, entry));
      && !AtMax(cfg, d) && (cfg.queueMax > 1 ==> !AtMax(cfg, Accept(d, entry)))
      && p.queue == [] && p.log.taken == d.log.taken + [entry]
      && !p.full && |p.log.events| == |s.log.events| + 1
      && p.log.events[|s.log.events|].kind.QueueRecovered? && p.log.events[|s.log.events|].queueSize == 0
  {
  }

  lemma StepsPush(cfg: Config, s: Stream, sections: seq<Section>, last: Section)
    ensures Steps(cfg, s, sections + [last]) == Step(cfg, Steps(cfg, s, sections), last)
  {
    hide Step;
    assert (sections + [last])[..|sections|] == sections;
  }

  lemma CutAllTwo(cfg: Config, s: Stream, fd: int, a: Piece, b: Piece)
    ensures CutAll(cfg, s, fd, [a, b]) == Cut(cfg, Cut(cfg, s, fd, a), fd, b)
  {
    hide Cut;
    assert [a, b][..1] == [a] && [a][..0] == [];
    assert CutAll(cfg, s, fd, [a]) == Cut(cfg, CutAll(cfg, s, fd, []), fd, a);
  }

  lemma SampleFillsThenOverflows(cfg: Config, r: Stream)
    requires cfg.queueMax == 1 && cfg.dropThreshold > 0 && r.queue == [] && !r.full
    ensures Cut(cfg, Cut(cfg, r, 7, Frame(SAMPLE)), 7, Frame(SAMPLE)).full
  {
    hide SAMPLE, EOM;
    EomLength();
    TrimsToNothing(SAMPLE);
    SampleIsNotBlank();
  }

  lemma SampleIsNotBlank()
    ensures !Blank(SAMPLE)
  {
    assert !IsSpace(SAMPLE[0]);
  }

  // ----- The guards -----

  /** At every release of the mutex the buffer is in normal form and, with the size guard on, below it;
      the timer runs exactly while something is buffered. */
  lemma BufferIsBounded(cfg: Config, sections: seq<Section>)
    requires cfg.Valid()
    ensures var s := Run(cfg, sections);
      && Quiet(s.rx) && (s.timerActive <==> s.rx != [])
      && (cfg.maxKb > 0 ==> |s.rx| < cfg.maxKb * 1024)
  {
    hide Ledger, Quiet;
    RunKeepsInv(cfg, sections);
  }

  lemma ProcessIsIdle(cfg: Config, s: Stream, fd: int, now: int)
    requires Inv(cfg, s)
    ensures Process(cfg, s, fd, now) == s
  {
    hide Ledger, Parse, Quiet, WireAll, AllWellCut;
    ParseIdleExactlyWhenQuiet(s.rx);
  }

  /** Parsing again what a section left is a no-op, whatever the time. */
  lemma ParsingAgainIsIdle(cfg: Config, sections: seq<Section>, fd: int, now: int)
    requires cfg.Valid()
    ensures Process(cfg, Run(cfg, sections), fd, now) == Run(cfg, sections)
  {
    hide Process, Inv;
    RunKeepsInv(cfg, sections);
    ProcessIsIdle(cfg, Run(cfg, sections), fd, now);
  }

  /** When the guard loop returns, nothing is left if the timeout guard is on, and less than the size
      limit otherwise; when it waits, the partial is not overdue. */
  lemma LoopTopSettles(cfg: Config, sections: seq<Section>, fd: int, t0: int, t1: int, t2: int)
    requires cfg.Valid()
    ensures var s := Run(cfg, sections + [OnLoopTop(fd, t0, t1, t2)]);
      && (!KeepsWaiting(cfg, s) ==> if cfg.timeoutSeconds > 0 then s.rx == [] else |s.rx| < cfg.maxKb * 1024)
      && (KeepsWaiting(cfg, s) ==> t2 < Deadline(cfg, s))
  {
    hide Ledger, Quiet, Process, Cut;
    var all := sections + [OnLoopTop(fd, t0, t1, t2)];
    assert all[..|all| - 1] == sections;
    RunKeepsInv(cfg, all);
    var p := Process(cfg, Run(cfg, sections), fd, t0);
    FinalizeFrame(cfg, p, fd);
    FinalizeFrame(cfg, Finalize(cfg, p, fd), fd);
  }

  /** The start of the wait for the rest of a partial moves only when bytes leave the buffer. */
  lemma StepKeepsDeadline(cfg: Config, s: Stream, section: Section)
    requires Inv(cfg, s) && s.rx != []
    requires Step(cfg, s, section).log.cuts == s.log.cuts
    ensures Step(cfg, s, section).startedAt == s.startedAt && Step(cfg, s, section).rx != []
  {
    hide Ledger, Quiet, Parse, CutAll, Cut, WireAll;
    match section
    case OnRead(fd, bytes, now) =>
      var r := s.(rx := s.rx + bytes, log := s.log.(received := s.log.received + bytes));
      ProcessFrame(cfg, r, fd, now);
      CutAllFrame(cfg, r, fd, Parse(r.rx).0);
      FinalizeFrame(cfg, Process(cfg, r, fd, now), fd);
      NothingCutNothingGone(r.rx);
    case OnLoopTop(fd, t0, t1, t2) =>
      var p := Process(cfg, s, fd, t0);
      ProcessFrame(cfg, s, fd, t0);
      CutAllFrame(cfg, s, fd, Parse(s.rx).0);
      NothingCutNothingGone(s.rx);
      FinalizeFrame(cfg, p, fd);
      FinalizeFrame(cfg, Finalize(cfg, p, fd), fd);
    case OnSilence(fd, now) => FinalizeFrame(cfg, s, fd);
    case OnPop =>
    case OnDeath =>
    case OnSubscribe =>
  }

  lemma NothingCutNothingGone(buf: Bytes)
    ensures Parse(buf).0 == [] ==> Parse(buf).1 == buf
  {
    hide Parse, WireAll;
    ParseConserves(buf);
    WireNothing();
  }

  predicate IsCutPrefix(a: seq<Piece>, b: seq<Piece>) {
    |a| <= |b| && b[..|a|] == a
  }

  lemma PrefixThenPrefix(a: seq<Piece>, b: seq<Piece>, c: seq<Piece>)
    requires IsCutPrefix(a, b) && IsCutPrefix(b, c)
    ensures IsCutPrefix(a, c)
  {
    assert c[..|a|] == c[..|b|][..|a|];
  }

  lemma ProcessExtendsCuts(cfg: Config, s: Stream, fd: int, now: int)
    ensures IsCutPrefix(s.log.cuts, Process(cfg, s, fd, now).log.cuts)
  {
    hide Process, Parse;
    ProcessFrame(cfg, s, fd, now);
  }

  lemma FinalizeExtendsCuts(cfg: Config, s: Stream, fd: int)
    ensures IsCutPrefix(s.log.cuts, Finalize(cfg, s, fd).log.cuts)
  {
    hide Finalize;
    FinalizeFrame(cfg, s, fd);
  }

  lemma StepExtendsCuts(cfg: Config, s: Stream, section: Section)
    ensures |s.log.cuts| <= |Step(cfg, s, section).log.cuts|
    ensures Step(cfg, s, section).log.cuts[..|s.log.cuts|] == s.log.cuts
  {
    assert IsCutPrefix(s.log.cuts, Step(cfg, s, section).log.cuts) by { StepExtends(cfg, s, section); }
  }

  lemma StepExtends(cfg: Config, s: Stream, section: Section)
    ensures IsCutPrefix(s.log.cuts, Step(cfg, s, section).log.cuts)
  {
    hide Process, Finalize, IsCutPrefix;
    SameCuts(s.log.cuts);
    match section
    case OnRead(fd, bytes, now) =>
      var r := s.(rx := s.rx + bytes, log := s.log.(received := s.log.received + bytes));
      var p := Process(cfg, r, fd, now);
      ProcessExtendsCuts(cfg, r, fd, now);
      FinalizeExtendsCuts(cfg, p, fd);
      PrefixThenPrefix(s.log.cuts, p.log.cuts, Finalize(cfg, p, fd).log.cuts);
    case OnLoopTop(fd, t0, t1, t2) =>
      var p := Process(cfg, s, fd, t0);
      var f := Finalize(cfg, p, fd);
      ProcessExtendsCuts(cfg, s, fd, t0);
      FinalizeExtendsCuts(cfg, p, fd);
      FinalizeExtendsCuts(cfg, f, fd);
      PrefixThenPrefix(s.log.cuts, p.log.cuts, f.log.cuts);
      PrefixThenPrefix(s.log.cuts, f.log.cuts, Finalize(cfg, f, fd).log.cuts);
    case OnSilence(fd, now) => FinalizeExtendsCuts(cfg, s, fd);
    case OnPop =>
    case OnDeath => OneMore(s.log.cuts, Cleared(s.rx));
    case OnSubscribe => OneMore(s.log.cuts, Cleared(s.rx));
  }

  lemma SameCuts(a: seq<Piece>)
    ensures IsCutPrefix(a, a)
  {
  }

  lemma OneMore(a: seq<Piece>, piece: Piece)
    ensures IsCutPrefix(a, a + [piece])
  {
  }

  lemma {:induction false} StepsKeepInv(cfg: Config, s: Stream, sections: seq<Section>)
    requires cfg.Valid() && Inv(cfg, s)
    ensures Inv(cfg, Steps(cfg, s, sections))
    ensures |s.log.cuts| <= |Steps(cfg, s, sections).log.cuts|
    ensures Steps(cfg, s, sections).log.cuts[..|s.log.cuts|] == s.log.cuts
  {
    hide Step, Inv;
    if sections != [] {
      var n := |sections| - 1;
      StepsKeepInv(cfg, s, sections[..n]);
      StepKeepsInv(cfg, Steps(cfg, s, sections[..n]), sections[n]);
      StepExtendsCuts(cfg, Steps(cfg, s, sections[..n]), sections[n]);
    }
  }

  /** Bytes that trickle in never postpone the deadline: as long as nothing is cut, however many sections
      run, a partial keeps the start of its wait. */
  lemma {:induction false} TrickleKeepsDeadline(cfg: Config, s: Stream, sections: seq<Section>)
    requires cfg.Valid() && Inv(cfg, s) && s.rx != []
    requires Steps(cfg, s, sections).log.cuts == s.log.cuts
    ensures Deadline(cfg, Steps(cfg, s, sections)) == Deadline(cfg, s) && Steps(cfg, s, sections).rx != []
  {
    hide Step, Inv;
    if sections != [] {
      var n := |sections| - 1;
      var before := Steps(cfg, s, sections[..n]);
      StepsKeepInv(cfg, s, sections[..n]);
      StepExtendsCuts(cfg, before, sections[n]);
      TrickleKeepsDeadline(cfg, s, sections[..n]);
      StepKeepsDeadline(cfg, before, sections[n]);
    }
  }
}
