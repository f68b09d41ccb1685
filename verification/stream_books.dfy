/** What every critical section keeps: nothing received is lost or reordered, every piece is accounted
    for, and the queue, its counters and its events tell one story. */
module StreamBooks {
  import opened Wrappers
  import opened ByteStrings
  import opened NotificationScan
  import opened NotificationParser
  import opened NotificationStream

  // ----- Reading the log -----

  function AcceptedIn(verdicts: seq<Verdict>): seq<Bytes> {
    if verdicts == [] then []
    else
      var last := verdicts[|verdicts| - 1];
      AcceptedIn(verdicts[..|verdicts| - 1]) + if last.Accepted? then [last.entry] else []
  }

  function EntriesIn(verdicts: seq<Verdict>): seq<Bytes> {
    seq(|verdicts|, i requires 0 <= i < |verdicts| => verdicts[i].entry)
  }

  function Peak(sizes: seq<nat>): nat {
    if sizes == [] then 0
    else
      var before := Peak(sizes[..|sizes| - 1]);
      if sizes[|sizes| - 1] > before then sizes[|sizes| - 1] else before
  }

  /** The entry a piece is worth: the bytes as they came, frames with their marker. */
  function EntryOf(piece: Piece): seq<Bytes> {
    match piece
    case Orphan(_) => []
    case Frame(text) => if Blank(text) then [] else [text + EOM]
    case Recovered(text) => [text]
    case Abandoned(text) => [text]
    case Guarded(text) => [text]
    case Cleared(_) => []
  }

  function EntriesOf(pieces: seq<Piece>): seq<Bytes> {
    if pieces == [] then [] else EntriesOf(pieces[..|pieces| - 1]) + EntryOf(pieces[|pieces| - 1])
  }

  /** The parser diagnostic a piece calls for, with its payload size. */
  function DiagnosisOf(cfg: Config, piece: Piece): seq<(EventKind, nat)> {
    match piece
    case Orphan(text) => [(Malformed, |text|)]
    case Frame(text) => if cfg.IsValidNotification(text) then [] else [(Malformed, |text|)]
    case Recovered(text) => [(Malformed, |text|)]
    case Abandoned(text) => [(Incomplete, |text|)]
    case Guarded(text) => [(Incomplete, |text|)]
    case Cleared(_) => []
  }

  function DiagnosesOf(cfg: Config, pieces: seq<Piece>): seq<(EventKind, nat)> {
    if pieces == [] then [] else DiagnosesOf(cfg, pieces[..|pieces| - 1]) + DiagnosisOf(cfg, pieces[|pieces| - 1])
  }

  function DiagnosesIn(events: seq<HealthEvent>): seq<(EventKind, nat)> {
    if events == [] then []
    else
      var last := events[|events| - 1];
      DiagnosesIn(events[..|events| - 1])
      + if last.kind.Malformed? || last.kind.Incomplete? then [(last.kind, last.partialBytes)] else []
  }

  function IncompletePieces(pieces: seq<Piece>): nat {
    if pieces == [] then 0
    else
      var last := pieces[|pieces| - 1];
      IncompletePieces(pieces[..|pieces| - 1]) + if last.Abandoned? || last.Guarded? then 1 else 0
  }

  function SumOfDeltas(events: seq<HealthEvent>): int {
    if events == [] then 0
    else
      var last := events[|events| - 1];
      SumOfDeltas(events[..|events| - 1])
      + if last.kind.QueueFull? || last.kind.DropsSummary? then last.droppedDelta else 0
  }

  /** The full-state a listener infers from the events alone; `None` if they do not alternate. */
  function FullAfter(events: seq<HealthEvent>): Option<bool> {
    if events == [] then Some(false)
    else
      var before := FullAfter(events[..|events| - 1]);
      match events[|events| - 1].kind
      case QueueFull => if before == Some(false) then Some(true) else None
      case DropsSummary => if before == Some(true) then Some(true) else None
      case QueueRecovered => if before == Some(true) then Some(false) else None
      case Malformed => before
      case Incomplete => before
  }

  // ----- The books -----

  /** The queue is a FIFO with admission. */
  ghost predicate QueueBooks(cfg: Config, s: Stream) {
    && AcceptedIn(s.log.verdicts) == s.log.taken + s.queue
    && s.enqueued == |AcceptedIn(s.log.verdicts)|
    && s.enqueued + s.dropped == |s.log.verdicts|
    && |s.queue| <= s.watermark == Peak(s.log.sizes)
    && (if cfg.queueMax >= 0 then s.watermark <= cfg.queueMax else s.dropped == 0)
  }

  /** Drops are reported by telescoping deltas, never more than a threshold late. */
  ghost predicate DropBooks(cfg: Config, s: Stream) {
    && s.reported == SumOfDeltas(s.log.events)
    && s.reported <= s.dropped < s.reported + cfg.dropThreshold
    && FullAfter(s.log.events) == Some(s.full)
    && forall i :: 0 <= i < |s.log.events| ==> DropEventOk(cfg, s.log.events[i])
  }

  /** A queue-full event stands for at most a threshold of drops and a summary for exactly that; both report
      a queue at its maximum, and a recovery one below it. */
  predicate DropEventOk(cfg: Config, event: HealthEvent) {
    && (event.kind.QueueFull? ==> 1 <= event.droppedDelta <= cfg.dropThreshold)
    && (event.kind.DropsSummary? ==> event.droppedDelta == cfg.dropThreshold)
    && (event.kind.QueueFull? || event.kind.DropsSummary? ==> event.queueSize == event.queueMaxSize == cfg.queueMax)
    && (event.kind.QueueRecovered? ==>
          event.queueMaxSize == cfg.queueMax && (cfg.queueMax < 0 || event.queueSize < cfg.queueMax))
  }

  /** Every piece was offered or not, and diagnosed or not, as its kind demands. */
  ghost predicate PieceBooks(cfg: Config, s: Stream) {
    && EntriesIn(s.log.verdicts) == EntriesOf(s.log.cuts)
    && DiagnosesIn(s.log.events) == DiagnosesOf(cfg, s.log.cuts)
    && s.incomplete == IncompletePieces(s.log.cuts)
  }

  ghost predicate Ledger(cfg: Config, s: Stream) {
    QueueBooks(cfg, s) && DropBooks(cfg, s) && PieceBooks(cfg, s)
  }

  /** The receive buffer between two critical sections. */
  ghost predicate BufferBooks(cfg: Config, s: Stream) {
    && s.log.received == WireAll(s.log.cuts) + s.rx
    && AllWellCut(s.log.cuts)
    && Quiet(s.rx)
    && (s.timerActive <==> s.rx != [])
    && (cfg.maxKb > 0 ==> |s.rx| < cfg.maxKb * 1024)
  }

  ghost predicate Inv(cfg: Config, s: Stream) {
    Ledger(cfg, s) && BufferBooks(cfg, s)
  }

  // ----- One cut -----

  lemma AcceptKeepsQueueBooks(cfg: Config, s: Stream, entry: Bytes)
    requires QueueBooks(cfg, s) && !AtMax(cfg, s)
    ensures QueueBooks(cfg, Accept(s, entry))
  {
    var o := Accept(s, entry);
    assert o.log.verdicts[..|o.log.verdicts| - 1] == s.log.verdicts;
    assert o.log.sizes[..|o.log.sizes| - 1] == s.log.sizes;
  }

  lemma RefuseKeepsQueueBooks(cfg: Config, s: Stream, fd: int, entry: Bytes, bytes: nat)
    requires QueueBooks(cfg, s) && AtMax(cfg, s)
    ensures QueueBooks(cfg, Refuse(cfg, s, fd, entry, bytes))
  {
    hide Peak;
    var o := Refuse(cfg, s, fd, entry, bytes);
    assert o.log.verdicts[..|o.log.verdicts| - 1] == s.log.verdicts;
  }

  lemma OfferKeepsQueueBooks(cfg: Config, s: Stream, fd: int, entry: Bytes, bytes: nat)
    requires QueueBooks(cfg, s)
    ensures QueueBooks(cfg, Offer(cfg, s, fd, entry, bytes))
  {
    hide QueueBooks, AtMax, Accept, Refuse;
    if AtMax(cfg, s) {
      RefuseKeepsQueueBooks(cfg, s, fd, entry, bytes);
    } else {
      AcceptKeepsQueueBooks(cfg, s, entry);
    }
  }

  /** One more event of the drop books: its delta, the state it leads to, and its shape. */
  lemma DropBooksPush(cfg: Config, events: seq<HealthEvent>, event: HealthEvent)
    requires forall i :: 0 <= i < |events| ==> DropEventOk(cfg, events[i])
    requires DropEventOk(cfg, event)
    ensures SumOfDeltas(events + [event])
            == SumOfDeltas(events) + if event.kind.QueueFull? || event.kind.DropsSummary? then event.droppedDelta else 0
    ensures FullAfter(events) == Some(false) && event.kind.QueueFull? ==> FullAfter(events + [event]) == Some(true)
    ensures FullAfter(events) == Some(true) && event.kind.DropsSummary? ==> FullAfter(events + [event]) == Some(true)
    ensures forall i :: 0 <= i < |events + [event]| ==> DropEventOk(cfg, (events + [event])[i])
  {
    hide DropEventOk;
    assert (events + [event])[..|events|] == events;
  }

  lemma OfferKeepsDropBooks(cfg: Config, s: Stream, fd: int, entry: Bytes, bytes: nat)
    requires cfg.Valid() && DropBooks(cfg, s) && QueueBooks(cfg, s)
    ensures DropBooks(cfg, Offer(cfg, s, fd, entry, bytes))
  {
    hide AcceptedIn, Peak, SumOfDeltas, FullAfter;
    if entry != [] && AtMax(cfg, s) && (!s.full || s.dropped + 1 - s.reported >= cfg.dropThreshold) {
      var d := s.(dropped := s.dropped + 1);
      var event := MakeEvent(cfg, d, if s.full then DropsSummary else QueueFull, fd, d.dropped - d.reported, bytes);
      DropBooksPush(cfg, s.log.events, event);
    }
  }

  lemma DiagnoseKeepsQueueAndDropBooks(cfg: Config, s: Stream, fd: int, kind: EventKind, bytes: nat)
    requires kind.Malformed? || kind.Incomplete?
    requires QueueBooks(cfg, s) && DropBooks(cfg, s)
    ensures QueueBooks(cfg, Diagnose(cfg, s, fd, kind, bytes)) && DropBooks(cfg, Diagnose(cfg, s, fd, kind, bytes))
  {
    var d := Diagnose(cfg, s, fd, kind, bytes);
    assert d.log.events[..|d.log.events| - 1] == s.log.events;
  }

  /** An offer settles one entry and raises no parser diagnostic. */
  lemma OfferSettles(cfg: Config, s: Stream, fd: int, entry: Bytes, bytes: nat)
    requires entry != []
    ensures var o := Offer(cfg, s, fd, entry, bytes);
      && EntriesIn(o.log.verdicts) == EntriesIn(s.log.verdicts) + [entry]
      && DiagnosesIn(o.log.events) == DiagnosesIn(s.log.events)
      && o.log.cuts == s.log.cuts && o.incomplete == s.incomplete
  {
    var o := Offer(cfg, s, fd, entry, bytes);
    if o.log.events != s.log.events {
      assert o.log.events[..|o.log.events| - 1] == s.log.events;
    }
  }

  /** A diagnostic settles no entry and is counted when it reports an incomplete notification. */
  lemma DiagnoseReports(cfg: Config, s: Stream, fd: int, kind: EventKind, bytes: nat)
    requires kind.Malformed? || kind.Incomplete?
    ensures var d := Diagnose(cfg, s, fd, kind, bytes);
      && d.log.verdicts == s.log.verdicts && d.log.cuts == s.log.cuts
      && DiagnosesIn(d.log.events) == DiagnosesIn(s.log.events) + [(kind, bytes)]
      && d.incomplete == s.incomplete + if kind.Incomplete? then 1 else 0
  {
    var d := Diagnose(cfg, s, fd, kind, bytes);
    assert d.log.events[..|d.log.events| - 1] == s.log.events;
  }

  function KindOf(piece: Piece): EventKind {
    if piece.Abandoned? || piece.Guarded? then Incomplete else Malformed
  }

  /** The payload size that a drop event of the piece's entry reports: 0 if nothing is wrong with it. */
  function DiagnosedBytes(cfg: Config, piece: Piece): nat {
    if DiagnosisOf(cfg, piece) == [] then 0 else |piece.text|
  }

  /** The state after a piece was logged and, where its kind demands it, diagnosed. */
  function Diagnosed(cfg: Config, s: Stream, fd: int, piece: Piece): Stream {
    var c := s.(log := s.log.(cuts := s.log.cuts + [piece]));
    if DiagnosisOf(cfg, piece) == [] then c else Diagnose(cfg, c, fd, KindOf(piece), |piece.text|)
  }

  /** Cutting is diagnosing by the table, then offering by the table; what is offered is never empty. */
  lemma CutFollowsTables(cfg: Config, s: Stream, fd: int, piece: Piece)
    requires WellCut(piece)
    ensures var d := Diagnosed(cfg, s, fd, piece);
      && (EntryOf(piece) == [] ==> Cut(cfg, s, fd, piece) == d)
      && (EntryOf(piece) != [] ==>
            && |EntryOf(piece)| == 1 && EntryOf(piece)[0] != []
            && Cut(cfg, s, fd, piece) == Offer(cfg, d, fd, EntryOf(piece)[0], DiagnosedBytes(cfg, piece)))
  {
    hide Offer, Diagnose, Find, StartTag;
    TrimsToNothing(piece.text);
  }

  /** A frame is diagnosed exactly if there is nothing in it but spaces, or the XML parser does not accept what is
      between the spaces around it. */
  lemma DiagnosedExactlyWhenRejected(cfg: Config, before: Bytes, core: Bytes, after: Bytes)
    requires Blank(before) && Blank(after)
    requires core != [] ==> !IsSpace(core[0]) && !IsSpace(core[|core| - 1])
    ensures var frame := before + core + after;
      DiagnosisOf(cfg, Frame(frame)) == if core != [] && cfg.parses(core) then [] else [(Malformed, |frame|)]
  {
    hide TrimCopy, IsSpace;
    var frame := before + core + after;
    TrimsToNothing(frame);
    if core != [] {
      TrimCopyIs(frame, before, core, after);
    }
  }

  lemma DiagnosedSettlesAllButTheEntry(cfg: Config, s: Stream, fd: int, piece: Piece)
    requires PieceBooks(cfg, s)
    ensures var d := Diagnosed(cfg, s, fd, piece);
      && d.log.verdicts == s.log.verdicts
      && EntriesOf(d.log.cuts) == EntriesOf(s.log.cuts) + EntryOf(piece)
      && DiagnosesIn(d.log.events) == DiagnosesOf(cfg, d.log.cuts)
      && d.incomplete == IncompletePieces(d.log.cuts)
  {
    hide Diagnose, EntryOf, DiagnosisOf, EntriesIn, EntriesOf, DiagnosesOf, DiagnosesIn, IncompletePieces;
    var c := s.(log := s.log.(cuts := s.log.cuts + [piece]));
    TablesPush(cfg, s.log.cuts, piece);
    DiagnosisIs(cfg, piece);
    DiagnoseReports(cfg, c, fd, KindOf(piece), |piece.text|);
  }

  lemma TablesPush(cfg: Config, pieces: seq<Piece>, piece: Piece)
    ensures EntriesOf(pieces + [piece]) == EntriesOf(pieces) + EntryOf(piece)
    ensures DiagnosesOf(cfg, pieces + [piece]) == DiagnosesOf(cfg, pieces) + DiagnosisOf(cfg, piece)
    ensures IncompletePieces(pieces + [piece])
            == IncompletePieces(pieces) + if piece.Abandoned? || piece.Guarded? then 1 else 0
  {
    hide EntryOf, DiagnosisOf;
    assert (pieces + [piece])[..|pieces|] == pieces;
  }

  lemma DiagnosisIs(cfg: Config, piece: Piece)
    ensures DiagnosisOf(cfg, piece) == [] || DiagnosisOf(cfg, piece) == [(KindOf(piece), |piece.text|)]
    ensures piece.Abandoned? || piece.Guarded? ==> DiagnosisOf(cfg, piece) != []
  {
    hide Config.IsValidNotification;
  }

  lemma CutKeepsPieceBooks(cfg: Config, s: Stream, fd: int, piece: Piece)
    requires PieceBooks(cfg, s) && WellCut(piece)
    ensures PieceBooks(cfg, Cut(cfg, s, fd, piece))
  {
    hide Offer, Diagnosed, WellCut, Cut, EntryOf, EntriesOf, EntriesIn, DiagnosesIn, DiagnosesOf, IncompletePieces;
    CutFollowsTables(cfg, s, fd, piece);
    DiagnosedSettlesAllButTheEntry(cfg, s, fd, piece);
    var d := Diagnosed(cfg, s, fd, piece);
    if EntryOf(piece) != [] {
      var bytes := DiagnosedBytes(cfg, piece);
      OfferSettles(cfg, d, fd, EntryOf(piece)[0], bytes);
      assert EntryOf(piece) == [EntryOf(piece)[0]];
    }
  }

  lemma CutKeepsQueueAndDropBooks(cfg: Config, s: Stream, fd: int, piece: Piece)
    requires cfg.Valid() && QueueBooks(cfg, s) && DropBooks(cfg, s) && WellCut(piece)
    ensures QueueBooks(cfg, Cut(cfg, s, fd, piece)) && DropBooks(cfg, Cut(cfg, s, fd, piece))
  {
    hide Offer, Diagnose, WellCut, Cut, EntryOf, DiagnosisOf;
    CutFollowsTables(cfg, s, fd, piece);
    var c := s.(log := s.log.(cuts := s.log.cuts + [piece]));
    DiagnoseKeepsQueueAndDropBooks(cfg, c, fd, KindOf(piece), |piece.text|);
    var d := Diagnosed(cfg, s, fd, piece);
    if EntryOf(piece) != [] {
      var bytes := DiagnosedBytes(cfg, piece);
      OfferKeepsQueueBooks(cfg, d, fd, EntryOf(piece)[0], bytes);
      OfferKeepsDropBooks(cfg, d, fd, EntryOf(piece)[0], bytes);
    }
  }

  lemma CutKeepsLedger(cfg: Config, s: Stream, fd: int, piece: Piece)
    requires cfg.Valid() && Ledger(cfg, s) && WellCut(piece)
    ensures Ledger(cfg, Cut(cfg, s, fd, piece))
  {
    hide Cut, QueueBooks, DropBooks, PieceBooks, WellCut;
    CutKeepsPieceBooks(cfg, s, fd, piece);
    CutKeepsQueueAndDropBooks(cfg, s, fd, piece);
  }

  lemma {:induction false} CutAllKeepsLedger(cfg: Config, s: Stream, fd: int, pieces: seq<Piece>)
    requires cfg.Valid() && Ledger(cfg, s) && AllWellCut(pieces)
    ensures Ledger(cfg, CutAll(cfg, s, fd, pieces))
  {
    hide Ledger, WellCut, Cut;
    if pieces != [] {
      var n := |pieces| - 1;
      CutAllKeepsLedger(cfg, s, fd, pieces[..n]);
      CutKeepsLedger(cfg, CutAll(cfg, s, fd, pieces[..n]), fd, pieces[n]);
    }
  }

  // ----- Critical sections keep the ledger -----

  lemma TakeKeepsQueueBooks(cfg: Config, s: Stream)
    requires QueueBooks(cfg, s) && s.queue != []
    ensures QueueBooks(cfg, Take(s))
  {
    hide AcceptedIn, Peak;
    assert s.queue == [s.queue[0]] + s.queue[1..];
    assert s.log.taken + s.queue == s.log.taken + [s.queue[0]] + s.queue[1..];
  }

  lemma PopKeepsQueueBooks(cfg: Config, s: Stream)
    requires QueueBooks(cfg, s)
    ensures QueueBooks(cfg, Pop(cfg, s))
  {
    hide AcceptedIn, Peak, Take;
    if s.queue != [] {
      TakeKeepsQueueBooks(cfg, s);
    }
  }

  lemma PopKeepsLedger(cfg: Config, s: Stream)
    requires Ledger(cfg, s)
    ensures Ledger(cfg, Pop(cfg, s))
  {
    hide QueueBooks, EntriesIn, EntriesOf, DiagnosesOf, IncompletePieces;
    PopKeepsQueueBooks(cfg, s);
    var p := Pop(cfg, s);
    if p.log.events != s.log.events {
      assert p.log.events[..|p.log.events| - 1] == s.log.events;
    }
  }

  lemma DropBufferKeepsLedger(cfg: Config, s: Stream)
    requires Ledger(cfg, s)
    ensures Ledger(cfg, DropBuffer(s))
  {
    if s.rx != [] {
      var d := DropBuffer(s);
      assert d.log.cuts[..|d.log.cuts| - 1] == s.log.cuts;
    }
  }

  lemma SessionDeadKeepsLedger(cfg: Config, s: Stream)
    requires Ledger(cfg, s)
    ensures Ledger(cfg, SessionDead(s))
  {
    DropBufferKeepsLedger(cfg, s);
  }

  /** The part of the state that is neither queue, counter nor log of entries and events. */
  ghost predicate SameBuffer(s: Stream, t: Stream) {
    && t.rx == s.rx && t.timerActive == s.timerActive && t.startedAt == s.startedAt
    && t.log.received == s.log.received && t.log.taken == s.log.taken
  }

  lemma OfferFrame(cfg: Config, s: Stream, fd: int, entry: Bytes, bytes: nat)
    ensures SameBuffer(s, Offer(cfg, s, fd, entry, bytes)) && Offer(cfg, s, fd, entry, bytes).log.cuts == s.log.cuts
  {
  }

  lemma DiagnoseFrame(cfg: Config, s: Stream, fd: int, kind: EventKind, bytes: nat)
    ensures SameBuffer(s, Diagnose(cfg, s, fd, kind, bytes)) && Diagnose(cfg, s, fd, kind, bytes).log.cuts == s.log.cuts
  {
  }

  /** Cutting touches neither the buffer nor its timer, and logs the piece. */
  lemma CutFrame(cfg: Config, s: Stream, fd: int, piece: Piece)
    ensures SameBuffer(s, Cut(cfg, s, fd, piece))
    ensures Cut(cfg, s, fd, piece).log.cuts == s.log.cuts + [piece]
  {
    hide Offer, Diagnose, TrimCopy, EOM;
    var c := s.(log := s.log.(cuts := s.log.cuts + [piece]));
    var n := |piece.text|;
    var d := Diagnose(cfg, c, fd, KindOf(piece), n);
    DiagnoseFrame(cfg, c, fd, KindOf(piece), n);
    var entry := if piece.Frame? then piece.text + EOM else piece.text;
    OfferFrame(cfg, c, fd, entry, 0);
    OfferFrame(cfg, d, fd, entry, n);
  }

  lemma {:induction false} CutAllFrame(cfg: Config, s: Stream, fd: int, pieces: seq<Piece>)
    ensures SameBuffer(s, CutAll(cfg, s, fd, pieces))
    ensures CutAll(cfg, s, fd, pieces).log.cuts == s.log.cuts + pieces
  {
    hide Cut;
    if pieces != [] {
      var n := |pieces| - 1;
      CutAllFrame(cfg, s, fd, pieces[..n]);
      CutFrame(cfg, CutAll(cfg, s, fd, pieces[..n]), fd, pieces[n]);
      assert pieces == pieces[..n] + [pieces[n]];
    }
  }

  /** Everything `BufferBooks` says but the size limit, which only holds once the guard has looked. */
  ghost predicate Parsed(s: Stream) {
    && s.log.received == WireAll(s.log.cuts) + s.rx
    && AllWellCut(s.log.cuts)
    && Quiet(s.rx)
    && (s.timerActive <==> s.rx != [])
  }

  lemma LedgerIgnoresBuffer(cfg: Config, s: Stream, t: Stream)
    requires Ledger(cfg, s)
    requires t == s.(rx := t.rx, timerActive := t.timerActive, startedAt := t.startedAt,
                     log := s.log.(received := t.log.received))
    ensures Ledger(cfg, t)
  {
    hide AcceptedIn, Peak, EntriesIn, EntriesOf, DiagnosesIn, DiagnosesOf, IncompletePieces, SumOfDeltas, FullAfter;
  }

  lemma ProcessKeeps(cfg: Config, s: Stream, fd: int, now: int)
    requires cfg.Valid() && Ledger(cfg, s)
    requires s.log.received == WireAll(s.log.cuts) + s.rx && AllWellCut(s.log.cuts)
    ensures Ledger(cfg, Process(cfg, s, fd, now)) && Parsed(Process(cfg, s, fd, now))
  {
    hide Ledger, WellCut, Quiet, Parse, CutAll, WireAll;
    var (pieces, rest) := Parse(s.rx);
    ParseCutsWell(s.rx);
    ParseConserves(s.rx);
    ParseLeavesQuiet(s.rx);
    CutAllKeepsLedger(cfg, s, fd, pieces);
    CutAllFrame(cfg, s, fd, pieces);
    WireAllConcat(s.log.cuts, pieces);
    LedgerIgnoresBuffer(cfg, CutAll(cfg, s, fd, pieces), Process(cfg, s, fd, now));
  }

  lemma FinalizeKeeps(cfg: Config, s: Stream, fd: int)
    requires cfg.Valid() && Ledger(cfg, s) && Parsed(s)
    ensures var f := Finalize(cfg, s, fd); Ledger(cfg, f) && BufferBooks(cfg, f) && f.rx == []
  {
    hide Ledger, Quiet, Cut, WireAll;
    EmptyIsQuiet();
    if s.rx != [] {
      var e := s.(rx := [], timerActive := false);
      LedgerIgnoresBuffer(cfg, s, e);
      CutKeepsLedger(cfg, e, fd, Guarded(s.rx));
      CutFrame(cfg, e, fd, Guarded(s.rx));
      WireAllPush(s.log.cuts, Guarded(s.rx));
    }
  }

  lemma EmptyIsQuiet()
    ensures Quiet([])
  {
  }

  /** Whatever the section, and whatever the network and the clock do in it, the books stay right. */
  lemma StepKeepsInv(cfg: Config, s: Stream, section: Section)
    requires cfg.Valid() && Inv(cfg, s)
    ensures Inv(cfg, Step(cfg, s, section))
  {
    hide Ledger, Quiet, Cut, Process, Finalize, WellCut, WireAll, Pop, SessionDead, DropBuffer;
    match section
    case OnRead(fd, bytes, now) =>
      var r := s.(rx := s.rx + bytes, log := s.log.(received := s.log.received + bytes));
      LedgerIgnoresBuffer(cfg, s, r);
      ProcessKeeps(cfg, r, fd, now);
      FinalizeKeeps(cfg, Process(cfg, r, fd, now), fd);
    case OnLoopTop(fd, t0, t1, t2) =>
      var p := Process(cfg, s, fd, t0);
      ProcessKeeps(cfg, s, fd, t0);
      FinalizeKeeps(cfg, p, fd);
      if !(SizeLimitReached(cfg, p) || TimeoutReached(cfg, p, t1)) {
        FinalizeKeeps(cfg, p, fd);
      } else {
        FinalizeKeeps(cfg, Finalize(cfg, p, fd), fd);
      }
    case OnSilence(fd, now) => FinalizeKeeps(cfg, s, fd);
    case OnPop => PopKeepsLedger(cfg, s); PopFrame(cfg, s);
    case OnDeath => SessionDeadKeepsLedger(cfg, s); DropBufferKeepsBuffer(cfg, s);
    case OnSubscribe => DropBufferKeepsLedger(cfg, s); DropBufferKeepsBuffer(cfg, s);
  }

  lemma PopFrame(cfg: Config, s: Stream)
    requires BufferBooks(cfg, s)
    ensures BufferBooks(cfg, Pop(cfg, s))
  {
    hide Quiet, WellCut, WireAll;
  }

  lemma DropBufferKeepsBuffer(cfg: Config, s: Stream)
    requires BufferBooks(cfg, s)
    ensures BufferBooks(cfg, DropBuffer(s)) && BufferBooks(cfg, SessionDead(s))
  {
    hide Quiet, WireAll;
    EmptyIsQuiet();
    WireAllPush(s.log.cuts, Cleared(s.rx));
  }

  /** So the books are right after any run of any threads. */
  lemma {:induction false} RunKeepsInv(cfg: Config, sections: seq<Section>)
    requires cfg.Valid()
    ensures Inv(cfg, Run(cfg, sections))
  {
    hide Step;
    if sections == [] {
      EmptyIsQuiet();
    } else {
      RunKeepsInv(cfg, sections[..|sections| - 1]);
      StepKeepsInv(cfg, Run(cfg, sections[..|sections| - 1]), sections[|sections| - 1]);
    }
  }
}
