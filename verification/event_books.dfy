/** What the health events of a client say: in every run the counters, sizes and deltas an event carries are those
    of the history up to its generation. */
module EventBooks {
  import opened ByteStrings
  import opened NotificationParser
  import opened NotificationStream
  import opened StreamBooks

  function IncompleteEvents(events: seq<HealthEvent>): nat {
    if events == [] then 0
    else IncompleteEvents(events[..|events| - 1]) + if events[|events| - 1].kind.Incomplete? then 1 else 0
  }

  predicate IsDropEvent(event: HealthEvent) {
    event.kind.QueueFull? || event.kind.DropsSummary?
  }

  predicate IsDiagnostic(event: HealthEvent) {
    event.kind.Malformed? || event.kind.Incomplete?
  }

  /** The counters of event `i`: entries accepted and refused, entries waiting, the peak and the incomplete
      notifications, all up to its generation. */
  ghost predicate CountsTold(cfg: Config, log: Log, i: nat)
    requires i < |log.events| == |log.marks|
  {
    var e, m := log.events[i], log.marks[i];
    && m.verdicts <= |log.verdicts| && m.taken <= |log.taken|
    && var accepted := |AcceptedIn(log.verdicts[..m.verdicts])|;
       && e.enqueued == accepted && e.dropped == m.verdicts - accepted
       && e.queueSize == accepted - m.taken && e.queueMaxSize == cfg.queueMax
       && accepted <= |log.sizes| && e.highWatermark == Peak(log.sizes[..accepted])
       && e.incomplete == IncompleteEvents(log.events[..i + 1])
  }

  /** Its delta: a drop event reports every drop not reported before, other events report none. */
  ghost predicate DeltaTold(log: Log, i: nat)
    requires i < |log.events|
  {
    if IsDropEvent(log.events[i]) then log.events[i].dropped == SumOfDeltas(log.events[..i + 1])
    else log.events[i].droppedDelta == 0
  }

  /** Its payload size is about the piece just cut: all its bytes in a diagnostic; in a drop event the same, but
      0 for a frame that the XML parser accepts; nothing in a recovery.  And it is generated when the pieces cut so
      far have been diagnosed. */
  ghost predicate PieceTold(cfg: Config, log: Log, i: nat)
    requires i < |log.events| == |log.marks|
  {
    var e, m := log.events[i], log.marks[i];
    && m.cuts <= |log.cuts| && m.verdicts <= |log.verdicts|
    && DiagnosesIn(log.events[..i + 1]) == DiagnosesOf(cfg, log.cuts[..m.cuts])
    && (e.kind.QueueRecovered? ==> e.partialBytes == 0)
    && (!e.kind.QueueRecovered? ==>
          && m.cuts > 0
          && var piece := log.cuts[m.cuts - 1];
             e.partialBytes ==
               if IsDropEvent(e) && piece.Frame? && TrimCopy(piece.text) != [] && cfg.parses(TrimCopy(piece.text))
               then 0
               else |piece.text|)
    && (IsDropEvent(e) ==> m.verdicts > 0 && log.verdicts[m.verdicts - 1].Refused?)
  }

  ghost predicate EventTold(cfg: Config, log: Log, i: nat)
    requires i < |log.events| == |log.marks|
  {
    CountsTold(cfg, log, i) && DeltaTold(log, i) && PieceTold(cfg, log, i)
  }

  ghost predicate AllTold(cfg: Config, log: Log) {
    |log.marks| == |log.events| && forall i :: 0 <= i < |log.events| ==> EventTold(cfg, log, i)
  }

  /** And the counters themselves go with the history. */
  ghost predicate EventBooksOk(cfg: Config, s: Stream) {
    && AllTold(cfg, s.log)
    && |s.log.sizes| == s.enqueued
    && s.incomplete == IncompleteEvents(s.log.events)
  }

  // ----- Histories that go on -----

  predicate IsPrefixOf<T(==)>(a: seq<T>, b: seq<T>) {
    |a| <= |b| && b[..|a|] == a
  }

  ghost predicate Grows(a: Log, b: Log) {
    && IsPrefixOf(a.cuts, b.cuts) && IsPrefixOf(a.verdicts, b.verdicts) && IsPrefixOf(a.sizes, b.sizes)
    && IsPrefixOf(a.taken, b.taken) && IsPrefixOf(a.events, b.events) && IsPrefixOf(a.marks, b.marks)
  }

  lemma SamePrefixes<T>(a: seq<T>, b: seq<T>, n: nat)
    requires IsPrefixOf(a, b) && n <= |a|
    ensures b[..n] == a[..n] && (n < |a| ==> b[n] == a[n])
  {
    assert b[..n] == b[..|a|][..n];
    assert n < |a| ==> b[n] == b[..|a|][n];
  }

  lemma ToldStays(cfg: Config, a: Log, b: Log, i: nat)
    requires Grows(a, b) && i < |a.events| == |a.marks| && |b.events| == |b.marks| && EventTold(cfg, a, i)
    ensures EventTold(cfg, b, i)
  {
    hide AcceptedIn, Peak, IncompleteEvents, SumOfDeltas, DiagnosesIn, DiagnosesOf, TrimCopy, IsPrefixOf;
    var m, accepted := a.marks[i], |AcceptedIn(a.verdicts[..a.marks[i].verdicts])|;
    SamePrefixes(a.events, b.events, i);
    SamePrefixes(a.events, b.events, i + 1);
    SamePrefixes(a.marks, b.marks, i);
    SamePrefixes(a.verdicts, b.verdicts, m.verdicts);
    SamePrefixes(a.cuts, b.cuts, m.cuts);
    SamePrefixes(a.sizes, b.sizes, accepted);
    Longer(a, b);
    if m.verdicts > 0 {
      SamePrefixes(a.verdicts, b.verdicts, m.verdicts - 1);
    }
    if m.cuts > 0 {
      SamePrefixes(a.cuts, b.cuts, m.cuts - 1);
    }
  }

  lemma Longer(a: Log, b: Log)
    requires Grows(a, b)
    ensures |a.cuts| <= |b.cuts| && |a.verdicts| <= |b.verdicts| && |a.sizes| <= |b.sizes| && |a.taken| <= |b.taken|
    ensures |a.events| <= |b.events|
  {
  }

  lemma AllToldGoesOn(cfg: Config, a: Log, b: Log)
    requires AllTold(cfg, a) && Grows(a, b) && b.events == a.events && b.marks == a.marks
    ensures AllTold(cfg, b)
  {
    hide EventTold, Grows;
    forall i | 0 <= i < |b.events| ensures EventTold(cfg, b, i) {
      ToldStays(cfg, a, b, i);
    }
  }

  lemma AllToldWith(cfg: Config, a: Log, event: HealthEvent)
    requires AllTold(cfg, a) && EventTold(cfg, a.With(event), |a.events|)
    ensures AllTold(cfg, a.With(event))
  {
    hide EventTold;
    var b := a.With(event);
    assert Grows(a, b);
    forall i | 0 <= i < |b.events| ensures EventTold(cfg, b, i) {
      if i < |a.events| {
        ToldStays(cfg, a, b, i);
      }
    }
  }

  // ----- One event -----

  lemma CountsOfNew(cfg: Config, s: Stream, kind: EventKind, fd: int, delta: int, bytes: nat)
    requires QueueBooks(cfg, s) && |s.log.sizes| == s.enqueued && |s.log.marks| == |s.log.events|
    requires s.incomplete == IncompleteEvents(s.log.events) + if kind.Incomplete? then 1 else 0
    ensures CountsTold(cfg, Raise(cfg, s, kind, fd, delta, bytes).log, |s.log.events|)
  {
    hide AcceptedIn, Peak;
    var b := Raise(cfg, s, kind, fd, delta, bytes).log;
    assert b.events[..|s.log.events| + 1] == b.events && b.events[..|b.events| - 1] == s.log.events;
    assert b.verdicts[..|b.verdicts|] == b.verdicts && b.sizes[..|b.sizes|] == b.sizes;
  }

  lemma PieceOfNew(cfg: Config, s: Stream, kind: EventKind, fd: int, delta: int, bytes: nat)
    requires |s.log.marks| == |s.log.events|
    requires var event := MakeEvent(cfg, s, kind, fd, delta, bytes);
      DiagnosesIn(s.log.events + [event]) == DiagnosesOf(cfg, s.log.cuts)
    requires kind.QueueRecovered? ==> bytes == 0
    requires !kind.QueueRecovered? ==>
      && s.log.cuts != []
      && var piece := s.log.cuts[|s.log.cuts| - 1];
         bytes == if (kind.QueueFull? || kind.DropsSummary?) && piece.Frame? && TrimCopy(piece.text) != []
                     && cfg.parses(TrimCopy(piece.text)) then 0
                  else |piece.text|
    requires kind.QueueFull? || kind.DropsSummary? ==>
      s.log.verdicts != [] && s.log.verdicts[|s.log.verdicts| - 1].Refused?
    ensures PieceTold(cfg, Raise(cfg, s, kind, fd, delta, bytes).log, |s.log.events|)
  {
    hide DiagnosesIn, DiagnosesOf, TrimCopy;
    var b := Raise(cfg, s, kind, fd, delta, bytes).log;
    assert b.events[..|s.log.events| + 1] == b.events && b.cuts[..|b.cuts|] == b.cuts;
  }

  lemma DeltaOfNew(cfg: Config, s: Stream, kind: EventKind, fd: int, delta: int, bytes: nat)
    requires if kind.QueueFull? || kind.DropsSummary? then s.dropped == SumOfDeltas(s.log.events) + delta
             else delta == 0
    ensures DeltaTold(Raise(cfg, s, kind, fd, delta, bytes).log, |s.log.events|)
  {
    var b := Raise(cfg, s, kind, fd, delta, bytes).log;
    assert b.events[..|s.log.events| + 1] == b.events && b.events[..|b.events| - 1] == s.log.events;
  }

  lemma PushDiagnosis(events: seq<HealthEvent>, event: HealthEvent)
    ensures DiagnosesIn(events + [event])
            == DiagnosesIn(events) + if IsDiagnostic(event) then [(event.kind, event.partialBytes)] else []
    ensures IncompleteEvents(events + [event]) == IncompleteEvents(events) + if event.kind.Incomplete? then 1 else 0
  {
    assert (events + [event])[..|events|] == events;
  }

  // ----- Cutting -----

  lemma DiagnoseTells(cfg: Config, s: Stream, fd: int, kind: EventKind, piece: Piece)
    requires kind.Malformed? || kind.Incomplete?
    requires QueueBooks(cfg, s) && EventBooksOk(cfg, s)
    requires s.log.cuts != [] && s.log.cuts[|s.log.cuts| - 1] == piece
    requires DiagnosesIn(s.log.events) + [(kind, |piece.text|)] == DiagnosesOf(cfg, s.log.cuts)
    ensures EventBooksOk(cfg, Diagnose(cfg, s, fd, kind, |piece.text|))
  {
    hide QueueBooks, CountsTold, DeltaTold, PieceTold, DiagnosesIn, DiagnosesOf;
    hide IncompleteEvents, TrimCopy, SumOfDeltas;
    var c := if kind.Incomplete? then s.(incomplete := s.incomplete + 1) else s;
    var event := MakeEvent(cfg, c, kind, fd, 0, |piece.text|);
    assert QueueBooks(cfg, c) by { QueueBooksIgnoreIncomplete(cfg, s, c.incomplete); }
    PushDiagnosis(s.log.events, event);
    CountsOfNew(cfg, c, kind, fd, 0, |piece.text|);
    DeltaOfNew(cfg, c, kind, fd, 0, |piece.text|);
    PieceOfNew(cfg, c, kind, fd, 0, |piece.text|);
    AllToldWith(cfg, c.log, event);
  }

  lemma QueueBooksIgnoreIncomplete(cfg: Config, s: Stream, n: nat)
    requires QueueBooks(cfg, s)
    ensures QueueBooks(cfg, s.(incomplete := n))
  {
    hide AcceptedIn, Peak;
  }

  /** The payload size of a drop event about the piece just cut. */
  predicate DropBytesOf(cfg: Config, log: Log, bytes: nat) {
    && log.cuts != []
    && var piece := log.cuts[|log.cuts| - 1];
       bytes == if piece.Frame? && TrimCopy(piece.text) != [] && cfg.parses(TrimCopy(piece.text)) then 0
                else |piece.text|
  }

  lemma OfferTells(cfg: Config, s: Stream, fd: int, entry: Bytes, bytes: nat)
    requires QueueBooks(cfg, s) && DropBooks(cfg, s) && EventBooksOk(cfg, s) && DropBytesOf(cfg, s.log, bytes)
    requires DiagnosesIn(s.log.events) == DiagnosesOf(cfg, s.log.cuts)
    ensures EventBooksOk(cfg, Offer(cfg, s, fd, entry, bytes))
  {
    hide Accept, Refuse, QueueBooks, DropBooks, EventBooksOk, DiagnosesIn, DiagnosesOf, DropBytesOf;
    if entry != [] {
      if AtMax(cfg, s) {
        RefuseTells(cfg, s, fd, entry, bytes);
      } else {
        AcceptTells(cfg, s, entry);
      }
    }
  }

  lemma AcceptTells(cfg: Config, s: Stream, entry: Bytes)
    requires EventBooksOk(cfg, s)
    ensures EventBooksOk(cfg, Accept(s, entry))
  {
    hide EventTold, AllTold, IncompleteEvents;
    AllToldGoesOn(cfg, s.log, Accept(s, entry).log);
  }

  lemma RefuseTells(cfg: Config, s: Stream, fd: int, entry: Bytes, bytes: nat)
    requires QueueBooks(cfg, s) && DropBooks(cfg, s) && EventBooksOk(cfg, s) && AtMax(cfg, s)
    requires DropBytesOf(cfg, s.log, bytes) && DiagnosesIn(s.log.events) == DiagnosesOf(cfg, s.log.cuts)
    ensures EventBooksOk(cfg, Refuse(cfg, s, fd, entry, bytes))
  {
    hide QueueBooks, EventTold, DiagnosesIn, DiagnosesOf, IncompleteEvents, TrimCopy, SumOfDeltas, FullAfter;
    var d := s.(dropped := s.dropped + 1, log := s.log.(verdicts := s.log.verdicts + [Refused(entry)]));
    AllToldGoesOn(cfg, s.log, d.log);
    var delta := d.dropped - d.reported;
    if !s.full || delta >= cfg.dropThreshold {
      var r := d.(full := true, reported := d.dropped);
      var kind := if s.full then DropsSummary else QueueFull;
      RefuseKeepsQueueBooks(cfg, s, fd, entry, bytes);
      assert QueueBooks(cfg, r) by { QueueBooksIgnoreEvents(cfg, Refuse(cfg, s, fd, entry, bytes), r); }
      var event := MakeEvent(cfg, r, kind, fd, delta, bytes);
      PushDiagnosis(s.log.events, event);
      CountsOfNew(cfg, r, kind, fd, delta, bytes);
      DeltaOfNew(cfg, r, kind, fd, delta, bytes);
      PieceOfNew(cfg, r, kind, fd, delta, bytes);
      assert EventTold(cfg, d.log.With(event), |d.log.events|) by { ThreeTold(cfg, d.log.With(event), |d.log.events|); }
      AllToldWith(cfg, d.log, event);
    }
  }

  lemma ThreeTold(cfg: Config, log: Log, i: nat)
    requires i < |log.events| == |log.marks|
    requires CountsTold(cfg, log, i) && DeltaTold(log, i) && PieceTold(cfg, log, i)
    ensures EventTold(cfg, log, i)
  {
  }

  lemma QueueBooksIgnoreEvents(cfg: Config, s: Stream, t: Stream)
    requires QueueBooks(cfg, s)
    requires t == s.(log := s.log.(events := t.log.events, marks := t.log.marks))
    ensures QueueBooks(cfg, t)
  {
    hide AcceptedIn, Peak;
  }

  lemma CutTells(cfg: Config, s: Stream, fd: int, piece: Piece)
    requires cfg.Valid() && Ledger(cfg, s) && EventBooksOk(cfg, s) && WellCut(piece)
    ensures EventBooksOk(cfg, Cut(cfg, s, fd, piece))
  {
    hide Offer, Diagnose, WellCut, Cut, EntryOf, DiagnosisOf;
    hide QueueBooks, DropBooks, EventBooksOk, DiagnosesIn, DiagnosesOf;
    CutFollowsTables(cfg, s, fd, piece);
    var c := s.(log := s.log.(cuts := s.log.cuts + [piece]));
    CuttingTells(cfg, s, piece);
    QueueBooksIgnoreCuts(cfg, s, piece);
    DiagnoseKeepsQueueAndDropBooks(cfg, c, fd, KindOf(piece), |piece.text|);
    DiagnosedSettlesAllButTheEntry(cfg, s, fd, piece);
    DiagnosisIs(cfg, piece);
    var d := Diagnosed(cfg, s, fd, piece);
    if DiagnosisOf(cfg, piece) != [] {
      DiagnoseReports(cfg, c, fd, KindOf(piece), |piece.text|);
      DiagnoseTells(cfg, c, fd, KindOf(piece), piece);
    }
    if EntryOf(piece) != [] {
      DropBytes(cfg, piece, d.log, fd, c);
      OfferTells(cfg, d, fd, EntryOf(piece)[0], DiagnosedBytes(cfg, piece));
    }
  }

  lemma CuttingTells(cfg: Config, s: Stream, piece: Piece)
    requires EventBooksOk(cfg, s)
    ensures EventBooksOk(cfg, s.(log := s.log.(cuts := s.log.cuts + [piece])))
  {
    hide EventTold, AllTold, IncompleteEvents;
    AllToldGoesOn(cfg, s.log, s.log.(cuts := s.log.cuts + [piece]));
  }

  lemma QueueBooksIgnoreCuts(cfg: Config, s: Stream, piece: Piece)
    requires QueueBooks(cfg, s) && DropBooks(cfg, s)
    ensures var c := s.(log := s.log.(cuts := s.log.cuts + [piece])); QueueBooks(cfg, c) && DropBooks(cfg, c)
  {
    hide AcceptedIn, Peak, SumOfDeltas, FullAfter;
  }

  lemma DropBytes(cfg: Config, piece: Piece, log: Log, fd: int, c: Stream)
    requires c.log.cuts != [] && c.log.cuts[|c.log.cuts| - 1] == piece && EntryOf(piece) != []
    requires log == (if DiagnosisOf(cfg, piece) == [] then c else Diagnose(cfg, c, fd, KindOf(piece), |piece.text|)).log
    ensures DropBytesOf(cfg, log, DiagnosedBytes(cfg, piece))
  {
    hide TrimCopy, Diagnose;
    DiagnoseFrame(cfg, c, fd, KindOf(piece), |piece.text|);
    TrimsToNothing(piece.text);
  }

  lemma {:induction false} CutAllTells(cfg: Config, s: Stream, fd: int, pieces: seq<Piece>)
    requires cfg.Valid() && Ledger(cfg, s) && EventBooksOk(cfg, s) && AllWellCut(pieces)
    ensures EventBooksOk(cfg, CutAll(cfg, s, fd, pieces))
  {
    hide Ledger, WellCut, Cut, EventBooksOk;
    if pieces != [] {
      var n := |pieces| - 1;
      CutAllTells(cfg, s, fd, pieces[..n]);
      CutAllKeepsLedger(cfg, s, fd, pieces[..n]);
      CutTells(cfg, CutAll(cfg, s, fd, pieces[..n]), fd, pieces[n]);
    }
  }

  // ----- Critical sections -----

  lemma BooksIgnoreBuffer(cfg: Config, s: Stream, t: Stream)
    requires EventBooksOk(cfg, s)
    requires t == s.(rx := t.rx, timerActive := t.timerActive, startedAt := t.startedAt,
                     log := s.log.(received := t.log.received))
    ensures EventBooksOk(cfg, t)
  {
    hide EventTold, AllTold, IncompleteEvents;
    AllToldGoesOn(cfg, s.log, t.log);
  }

  lemma ProcessTells(cfg: Config, s: Stream, fd: int, now: int)
    requires cfg.Valid() && Ledger(cfg, s) && EventBooksOk(cfg, s)
    ensures EventBooksOk(cfg, Process(cfg, s, fd, now))
  {
    hide Ledger, WellCut, Parse, CutAll, EventBooksOk;
    var (pieces, rest) := Parse(s.rx);
    ParseCutsWell(s.rx);
    CutAllTells(cfg, s, fd, pieces);
    BooksIgnoreBuffer(cfg, CutAll(cfg, s, fd, pieces), Process(cfg, s, fd, now));
  }

  lemma FinalizeTells(cfg: Config, s: Stream, fd: int)
    requires cfg.Valid() && Ledger(cfg, s) && Parsed(s) && EventBooksOk(cfg, s)
    ensures EventBooksOk(cfg, Finalize(cfg, s, fd))
  {
    hide Ledger, Cut, Quiet, EventBooksOk, WireAll, AllWellCut;
    var e := s.(rx := [], timerActive := false);
    LedgerIgnoresBuffer(cfg, s, e);
    BooksIgnoreBuffer(cfg, s, e);
    if s.rx != [] {
      CutTells(cfg, e, fd, Guarded(s.rx));
    } else {
      BooksIgnoreBuffer(cfg, s, s.(timerActive := false));
    }
  }

  lemma PopTells(cfg: Config, s: Stream)
    requires QueueBooks(cfg, s) && PieceBooks(cfg, s) && EventBooksOk(cfg, s)
    ensures EventBooksOk(cfg, Pop(cfg, s))
  {
    hide QueueBooks, EventTold, DiagnosesIn, DiagnosesOf, IncompleteEvents, TrimCopy, SumOfDeltas;
    hide EntriesIn, EntriesOf, IncompletePieces;
    if s.queue != [] {
      var p := Take(s);
      AllToldGoesOn(cfg, s.log, p.log);
      TakeKeepsQueueBooks(cfg, s);
      if s.full && !AtMax(cfg, p) {
        var r := p.(full := false);
        assert QueueBooks(cfg, r) by { QueueBooksIgnoreFull(cfg, p); }
        var event := MakeEvent(cfg, r, QueueRecovered, -1, 0, 0);
        PushDiagnosis(s.log.events, event);
        CountsOfNew(cfg, r, QueueRecovered, -1, 0, 0);
        DeltaOfNew(cfg, r, QueueRecovered, -1, 0, 0);
        PieceOfNew(cfg, r, QueueRecovered, -1, 0, 0);
        ThreeTold(cfg, p.log.With(event), |p.log.events|);
        AllToldWith(cfg, p.log, event);
      }
    }
  }

  lemma QueueBooksIgnoreFull(cfg: Config, s: Stream)
    requires QueueBooks(cfg, s)
    ensures QueueBooks(cfg, s.(full := false))
  {
    hide AcceptedIn, Peak;
  }

  lemma ClearingTells(cfg: Config, s: Stream)
    requires EventBooksOk(cfg, s)
    ensures EventBooksOk(cfg, DropBuffer(s)) && EventBooksOk(cfg, SessionDead(s))
  {
    hide EventTold, AllTold, IncompleteEvents;
    AllToldGoesOn(cfg, s.log, DropBuffer(s).log);
    AllToldGoesOn(cfg, s.log, SessionDead(s).log);
  }

  lemma StepTells(cfg: Config, s: Stream, section: Section)
    requires cfg.Valid() && Inv(cfg, s) && EventBooksOk(cfg, s)
    ensures EventBooksOk(cfg, Step(cfg, s, section))
  {
    hide Ledger, Quiet, Cut, Process, Finalize, WellCut, WireAll, Pop, SessionDead, DropBuffer, EventBooksOk;
    match section
    case OnRead(fd, bytes, now) =>
      var r := s.(rx := s.rx + bytes, log := s.log.(received := s.log.received + bytes));
      LedgerIgnoresBuffer(cfg, s, r);
      BooksIgnoreBuffer(cfg, s, r);
      ProcessKeeps(cfg, r, fd, now);
      ProcessTells(cfg, r, fd, now);
      FinalizeTells(cfg, Process(cfg, r, fd, now), fd);
    case OnLoopTop(fd, t0, t1, t2) =>
      var p := Process(cfg, s, fd, t0);
      ProcessKeeps(cfg, s, fd, t0);
      ProcessTells(cfg, s, fd, t0);
      FinalizeKeeps(cfg, p, fd);
      FinalizeTells(cfg, p, fd);
      FinalizeTells(cfg, Finalize(cfg, p, fd), fd);
    case OnSilence(fd, now) => FinalizeTells(cfg, s, fd);
    case OnPop => LedgerParts(cfg, s); PopTells(cfg, s);
    case OnDeath => ClearingTells(cfg, s);
    case OnSubscribe => ClearingTells(cfg, s);
  }

  lemma LedgerParts(cfg: Config, s: Stream)
    requires Ledger(cfg, s)
    ensures QueueBooks(cfg, s) && DropBooks(cfg, s) && PieceBooks(cfg, s)
  {
  }

  lemma {:induction false} RunTells(cfg: Config, sections: seq<Section>)
    requires cfg.Valid()
    ensures EventBooksOk(cfg, Run(cfg, sections))
  {
    hide Step, Inv;
    if sections != [] {
      RunTells(cfg, sections[..|sections| - 1]);
      RunKeepsInv(cfg, sections[..|sections| - 1]);
      StepTells(cfg, Run(cfg, sections[..|sections| - 1]), sections[|sections| - 1]);
    }
  }

  /** Events tell the truth: in every run, every event carries the counts of entries accepted, refused and waiting,
      the peak, and the incomplete notifications up to its generation, the delta that accounts for all drops up to
      then, and the size of the piece it is about. */
  lemma EventsTellTheTruth(cfg: Config, sections: seq<Section>, i: nat)
    requires cfg.Valid() && i < |Run(cfg, sections).log.events|
    ensures |Run(cfg, sections).log.marks| == |Run(cfg, sections).log.events|
    ensures EventTold(cfg, Run(cfg, sections).log, i)
  {
    hide EventTold, Run, IncompleteEvents;
    RunTells(cfg, sections);
  }

  // ----- Where the bytes went -----

  function SumOfSizes(diagnoses: seq<(EventKind, nat)>): nat {
    if diagnoses == [] then 0 else SumOfSizes(diagnoses[..|diagnoses| - 1]) + diagnoses[|diagnoses| - 1].1
  }

  /** The bytes no diagnostic is about: frames that the XML parser accepts, the markers of all frames, and what a
      session left behind. */
  function Unreported(parses: Bytes -> bool, pieces: seq<Piece>): nat {
    if pieces == [] then 0
    else
      var last := pieces[|pieces| - 1];
      Unreported(parses, pieces[..|pieces| - 1]) +
      if last.Frame? then 6 + (if TrimCopy(last.text) != [] && parses(TrimCopy(last.text)) then |last.text| else 0)
      else if last.Cleared? then |last.text|
      else 0
  }

  lemma SumOfSizesPush(a: seq<(EventKind, nat)>, b: seq<(EventKind, nat)>)
    requires |b| <= 1
    ensures SumOfSizes(a + b) == SumOfSizes(a) + if b == [] then 0 else b[0].1
  {
    if b == [] {
      assert a + b == a;
    } else {
      assert (a + b)[..|a|] == a;
    }
  }

  lemma {:induction false} PiecesAreReported(cfg: Config, pieces: seq<Piece>)
    ensures |WireAll(pieces)| == SumOfSizes(DiagnosesOf(cfg, pieces)) + Unreported(cfg.parses, pieces)
  {
    hide TrimCopy, SumOfSizes, EOM;
    EomLength();
    if pieces == [] {
      NothingReported();
    } else {
      var n := |pieces| - 1;
      PiecesAreReported(cfg, pieces[..n]);
      assert pieces == pieces[..n] + [pieces[n]];
      WireAllPush(pieces[..n], pieces[n]);
      SumOfSizesPush(DiagnosesOf(cfg, pieces[..n]), DiagnosisOf(cfg, pieces[n]));
    }
  }

  lemma NothingReported()
    ensures SumOfSizes([]) == 0 && WireAll([]) == []
  {
  }

  /** Every byte received is still buffered, is reported by exactly one parser diagnostic, or belongs to an accepted
      frame, a marker or a session that ended. */
  lemma BytesAreReported(cfg: Config, sections: seq<Section>)
    requires cfg.Valid()
    ensures var s := Run(cfg, sections);
      |s.log.received| == |s.rx| + SumOfSizes(DiagnosesIn(s.log.events)) + Unreported(cfg.parses, s.log.cuts)
  {
    hide Run, WireAll, DiagnosesOf, DiagnosesIn, SumOfSizes, Unreported, QueueBooks, DropBooks, Quiet, AllWellCut;
    RunKeepsInv(cfg, sections);
    PiecesAreReported(cfg, Run(cfg, sections).log.cuts);
  }

  // ----- Whose socket an event names -----

  /** The events since `s` all name the socket `fd`. */
  ghost predicate EventsName(s: Stream, t: Stream, fd: int) {
    && IsPrefixOf(s.log.events, t.log.events)
    && forall i :: |s.log.events| <= i < |t.log.events| ==> t.log.events[i].fd == fd
  }

  lemma NamesGoOn(s: Stream, t: Stream, u: Stream, fd: int)
    requires EventsName(s, t, fd) && EventsName(t, u, fd)
    ensures EventsName(s, u, fd)
  {
    hide IsPrefixOf;
    LongerEvents(s.log.events, t.log.events);
    LongerEvents(t.log.events, u.log.events);
    PrefixOfPrefix(s.log.events, t.log.events, u.log.events);
    forall i | |s.log.events| <= i < |u.log.events| ensures u.log.events[i].fd == fd {
      if i < |t.log.events| {
        SamePrefixes(t.log.events, u.log.events, i);
      }
    }
  }

  lemma LongerEvents<T>(a: seq<T>, b: seq<T>)
    requires IsPrefixOf(a, b)
    ensures |a| <= |b|
  {
  }

  lemma PrefixOfPrefix<T>(a: seq<T>, b: seq<T>, c: seq<T>)
    requires IsPrefixOf(a, b) && IsPrefixOf(b, c)
    ensures IsPrefixOf(a, c)
  {
    assert c[..|a|] == c[..|b|][..|a|];
  }

  lemma OfferNames(cfg: Config, s: Stream, fd: int, entry: Bytes, bytes: nat)
    ensures EventsName(s, Offer(cfg, s, fd, entry, bytes), fd)
  {
  }

  lemma DiagnoseNames(cfg: Config, s: Stream, fd: int, kind: EventKind, bytes: nat)
    ensures EventsName(s, Diagnose(cfg, s, fd, kind, bytes), fd)
  {
  }

  lemma CutNames(cfg: Config, s: Stream, fd: int, piece: Piece)
    ensures EventsName(s, Cut(cfg, s, fd, piece), fd)
  {
    hide Offer, Diagnose, EventsName, TrimCopy, EOM;
    var c := s.(log := s.log.(cuts := s.log.cuts + [piece]));
    var n := |piece.text|;
    var d := Diagnose(cfg, c, fd, KindOf(piece), n);
    var entry := if piece.Frame? then piece.text + EOM else piece.text;
    SameEventsNoName(s, c, fd);
    DiagnoseNames(cfg, c, fd, KindOf(piece), n);
    OfferNames(cfg, c, fd, entry, 0);
    OfferNames(cfg, d, fd, entry, n);
    NamesGoOn(s, c, d, fd);
    NamesGoOn(s, c, Offer(cfg, c, fd, entry, 0), fd);
    NamesGoOn(s, d, Offer(cfg, d, fd, entry, n), fd);
  }

  lemma SameEventsNoName(s: Stream, t: Stream, fd: int)
    requires t.log.events == s.log.events
    ensures EventsName(s, t, fd)
  {
  }

  lemma {:induction false} CutAllNames(cfg: Config, s: Stream, fd: int, pieces: seq<Piece>)
    ensures EventsName(s, CutAll(cfg, s, fd, pieces), fd)
  {
    hide Cut, EventsName;
    if pieces == [] {
      SameEventsNoName(s, s, fd);
    } else {
      var n := |pieces| - 1;
      CutAllNames(cfg, s, fd, pieces[..n]);
      CutNames(cfg, CutAll(cfg, s, fd, pieces[..n]), fd, pieces[n]);
      NamesGoOn(s, CutAll(cfg, s, fd, pieces[..n]), CutAll(cfg, s, fd, pieces), fd);
    }
  }

  lemma ProcessNames(cfg: Config, s: Stream, fd: int, now: int)
    ensures EventsName(s, Process(cfg, s, fd, now), fd)
  {
    hide CutAll, Parse;
    CutAllNames(cfg, s, fd, Parse(s.rx).0);
  }

  lemma FinalizeNames(cfg: Config, s: Stream, fd: int)
    ensures EventsName(s, Finalize(cfg, s, fd), fd)
  {
    hide Cut;
    CutNames(cfg, s.(rx := [], timerActive := false), fd, Guarded(s.rx));
  }

  /** The events of a section of the reactor name its socket; a recovery names none. */
  lemma EventsNameTheirSocket(cfg: Config, s: Stream, section: Section)
    ensures var t := Step(cfg, s, section);
      match section
      case OnRead(fd, _, _) => EventsName(s, t, fd)
      case OnLoopTop(fd, _, _, _) => EventsName(s, t, fd)
      case OnSilence(fd, _) => EventsName(s, t, fd)
      case OnPop => EventsName(s, t, -1)
      case OnDeath => t.log.events == s.log.events
      case OnSubscribe => t.log.events == s.log.events
  {
    hide Process, Finalize, Pop, EventsName;
    match section
    case OnRead(fd, bytes, now) =>
      var r := s.(rx := s.rx + bytes, log := s.log.(received := s.log.received + bytes));
      var p := Process(cfg, r, fd, now);
      SameEventsNoName(s, r, fd);
      ProcessNames(cfg, r, fd, now);
      NamesGoOn(s, r, p, fd);
      FinalizeNames(cfg, p, fd);
      NamesGoOn(s, p, Finalize(cfg, p, fd), fd);
    case OnLoopTop(fd, t0, t1, t2) =>
      var p := Process(cfg, s, fd, t0);
      var f := Finalize(cfg, p, fd);
      ProcessNames(cfg, s, fd, t0);
      FinalizeNames(cfg, p, fd);
      NamesGoOn(s, p, f, fd);
      FinalizeNames(cfg, f, fd);
      NamesGoOn(s, f, Finalize(cfg, f, fd), fd);
    case OnSilence(fd, now) =>
      FinalizeNames(cfg, s, fd);
      SameEventsNoName(s, s, fd);
    case OnPop => PopNames(cfg, s);
    case OnDeath =>
    case OnSubscribe =>
  }

  lemma PopNames(cfg: Config, s: Stream)
    ensures EventsName(s, Pop(cfg, s), -1)
  {
  }
}
