/** The client's side of a notification session: the fields its queue mutex protects, and the code that
    updates them in place.  Every method is one critical section, or a part of one, and is proved equal
    to the function of the same section. */
module NetconfNotifications {
  import opened Wrappers
  import opened ByteStrings
  import opened NotificationScan
  import opened NotificationParser
  import opened NotificationStream
  import opened StreamBooks
  import opened StreamTheorems
  import opened GuardLoop

  /** The events raised by the callback; recoveries are raised by whoever takes notifications out. */
  function ByCallback(events: seq<HealthEvent>): seq<HealthEvent> {
    if events == [] then []
    else
      var last := events[|events| - 1];
      ByCallback(events[..|events| - 1]) + if last.kind.QueueRecovered? then [] else [last]
  }

  /** `all` is split into `a` and `b`; those raised by the callback come in order, first those in `a`, then `b`. */
  ghost predicate KeptApart(all: seq<HealthEvent>, a: seq<HealthEvent>, b: seq<HealthEvent>) {
    && multiset(all) == multiset(a) + multiset(b)
    && ByCallback(all) == ByCallback(a) + b
    && ByCallback(b) == b
  }

  class NotificationClient {
    const cfg: Config

    var rxBuffer: Bytes
    var rxPartialTimerActive: bool
    var rxPartialStartedAt: int

    var queue: seq<Bytes>
    var enqueuedCount: nat
    var droppedQueueFullCount: nat
    var lastDropEventCount: nat
    var incompleteCount: nat
    var queueHighWatermark: nat
    var queueFullState: bool

    var eventsToEmit: seq<HealthEvent>  // collected under the mutex by the running callback
    var emitted: seq<HealthEvent>       // handed to the event bus

    ghost var log: Log

    ghost function State(): Stream
      reads this
    {
      Stream(rxBuffer, rxPartialTimerActive, rxPartialStartedAt, queue, enqueuedCount, droppedQueueFullCount,
             lastDropEventCount, incompleteCount, queueHighWatermark, queueFullState, log)
    }

    /** Every event generated is on its way to the bus or already there, once. */
    ghost predicate EventsKept()
      reads this
    {
      KeptApart(log.events, emitted, eventsToEmit)
    }

    ghost predicate Valid()
      reads this
    {
      cfg.Valid() && Inv(cfg, State()) && EventsKept()
    }

    constructor (cfg: Config)
      requires cfg.Valid()
      ensures Valid() && this.cfg == cfg && State() == INITIAL && eventsToEmit == []
    {
      this.cfg := cfg;
      rxBuffer, rxPartialTimerActive, rxPartialStartedAt := [], false, 0;
      queue := [];
      enqueuedCount, droppedQueueFullCount, lastDropEventCount, incompleteCount := 0, 0, 0, 0;
      queueHighWatermark, queueFullState := 0, false;
      eventsToEmit, emitted := [], [];
      log := Log([], [], [], [], [], [], []);
      new;
      RunKeepsInv(cfg, []);
      NoSteps(cfg, INITIAL);
    }

    /** A configuration the constructor of the client rejects makes no client. */
    static method Create(cfg: Config) returns (client: NotificationClient?)
      ensures client != null <==>
        && cfg.queueMax >= -1
        && (cfg.maxKb == -1 || cfg.maxKb >= 1) && (cfg.timeoutSeconds == -1 || cfg.timeoutSeconds >= 1)
        && !(cfg.maxKb == -1 && cfg.timeoutSeconds == -1)
        && cfg.dropThreshold >= 1
      ensures client != null ==> fresh(client) && client.Valid() && client.cfg == cfg && client.State() == INITIAL
      ensures client != null ==> client.eventsToEmit == []
    {
      if !(cfg.queueMax >= -1) {
        return null;
      }
      if cfg.maxKb < -1 || cfg.maxKb == 0 {
        return null;
      }
      if cfg.timeoutSeconds < -1 || cfg.timeoutSeconds == 0 {
        return null;
      }
      if cfg.maxKb < 0 && cfg.timeoutSeconds < 0 {
        return null;
      }
      if cfg.dropThreshold <= 0 {
        return null;
      }
      client := new NotificationClient(cfg);
    }

    // ----- Queue and events -----

    method PushEvent(kind: EventKind, fd: int, delta: int, bytes: nat)
      requires EventsKept() && !kind.QueueRecovered?
      modifies this`eventsToEmit, this`log
      ensures State() == Raise(cfg, old(State()), kind, fd, delta, bytes) && EventsKept()
      ensures |eventsToEmit| == |old(eventsToEmit)| + 1 && eventsToEmit[..|old(eventsToEmit)|] == old(eventsToEmit)
      ensures var event := eventsToEmit[|old(eventsToEmit)|];
        && event.kind == kind && event.fd == fd && event.droppedDelta == delta && event.partialBytes == bytes
        && event.queueSize == |queue| && event.queueMaxSize == cfg.queueMax
        && event.highWatermark == queueHighWatermark && event.enqueued == enqueuedCount
        && event.dropped == droppedQueueFullCount && event.incomplete == incompleteCount
    {
      hide KeptApart;
      var event := HealthEvent(kind, fd, |queue|, cfg.queueMax, queueHighWatermark, enqueuedCount,
                               droppedQueueFullCount, delta, incompleteCount, bytes);
      Collected(log.events, emitted, eventsToEmit, event);
      eventsToEmit := eventsToEmit + [event];
      log := log.With(event);
    }

    method AddDiagnosticEvent(kind: EventKind, fd: int, bytes: nat)
      requires EventsKept() && (kind.Malformed? || kind.Incomplete?)
      modifies this`eventsToEmit, this`log, this`incompleteCount
      ensures State() == Diagnose(cfg, old(State()), fd, kind, bytes) && EventsKept()
    {
      hide KeptApart;
      if kind.Incomplete? {
        incompleteCount := incompleteCount + 1;
      }
      PushEvent(kind, fd, 0, bytes);
    }

    /** The full-queue branch of `enqueue_or_drop_locked`. */
    method DropNotification(fd: int, notification: Bytes, diagnosticBytes: nat)
      requires EventsKept()
      modifies this
      ensures State() == Refuse(cfg, old(State()), fd, notification, diagnosticBytes) && EventsKept()
      ensures emitted == old(emitted)
    {
      hide KeptApart, Raise;
      droppedQueueFullCount := droppedQueueFullCount + 1;
      log := log.(verdicts := log.verdicts + [Refused(notification)]);
      var delta := droppedQueueFullCount - lastDropEventCount;
      var first := !queueFullState;
      if first || delta >= cfg.dropThreshold {
        queueFullState := true;
        lastDropEventCount := droppedQueueFullCount;
        PushEvent(if first then QueueFull else DropsSummary, fd, delta, diagnosticBytes);
      }
    }

    method EnqueueOrDrop(fd: int, notification: Bytes, diagnosticBytes: nat)
      requires EventsKept()
      modifies this
      ensures State() == Offer(cfg, old(State()), fd, notification, diagnosticBytes) && EventsKept()
      ensures emitted == old(emitted)
    {
      hide KeptApart, Refuse;
      if notification == [] {
        return;
      }
      if cfg.queueMax >= 0 && |queue| >= cfg.queueMax {
        DropNotification(fd, notification, diagnosticBytes);
        return;
      }
      queue := queue + [notification];
      log := log.(verdicts := log.verdicts + [Accepted(notification)], sizes := log.sizes + [|queue|]);
      enqueuedCount := enqueuedCount + 1;
      if |queue| > queueHighWatermark {
        queueHighWatermark := |queue|;
      }
    }

    // ----- Pieces -----

    method ProcessEomFrame(fd: int, frame: Bytes)
      requires EventsKept()
      modifies this
      ensures State() == Cut(cfg, old(State()), fd, Frame(frame)) && EventsKept() && emitted == old(emitted)
      ensures DiagnosesIn(log.events) == old(DiagnosesIn(log.events))
                + if TrimCopy(frame) != [] && cfg.parses(TrimCopy(frame)) then [] else [(Malformed, |frame|)]
    {
      FrameIsDiagnosed(cfg, State(), fd, frame);
      hide KeptApart, Offer, Diagnose, TrimCopy, EOM;
      log := log.(cuts := log.cuts + [Frame(frame)]);
      if TrimCopy(frame) == [] {
        AddDiagnosticEvent(Malformed, fd, |frame|);
        return;
      }
      var malformed := !cfg.IsValidNotification(frame);
      if malformed {
        AddDiagnosticEvent(Malformed, fd, |frame|);
      }
      EnqueueOrDrop(fd, frame + EOM, if malformed then |frame| else 0);
    }

    method ProcessRecovered(fd: int, text: Bytes)
      requires EventsKept()
      modifies this
      ensures State() == Cut(cfg, old(State()), fd, Recovered(text)) && EventsKept() && emitted == old(emitted)
    {
      hide KeptApart, Offer, Diagnose;
      log := log.(cuts := log.cuts + [Recovered(text)]);
      AddDiagnosticEvent(Malformed, fd, |text|);
      EnqueueOrDrop(fd, text, |text|);
    }

    /** An incomplete notification, abandoned by its device or cut by a guard. */
    method ProcessIncomplete(fd: int, piece: Piece)
      requires EventsKept() && (piece.Abandoned? || piece.Guarded?)
      modifies this
      ensures State() == Cut(cfg, old(State()), fd, piece) && EventsKept() && emitted == old(emitted)
    {
      hide KeptApart, Offer, Diagnose;
      log := log.(cuts := log.cuts + [piece]);
      AddDiagnosticEvent(Incomplete, fd, |piece.text|);
      EnqueueOrDrop(fd, piece.text, |piece.text|);
    }

    method ProcessOrphan(fd: int, text: Bytes)
      requires EventsKept()
      modifies this
      ensures State() == Cut(cfg, old(State()), fd, Orphan(text)) && EventsKept() && emitted == old(emitted)
    {
      hide KeptApart, Diagnose;
      log := log.(cuts := log.cuts + [Orphan(text)]);
      AddDiagnosticEvent(Malformed, fd, |text|);
    }

    // ----- The parser -----

    /** `buffer.erase(0, n)`; whatever was timed is gone. */
    method Erase(n: nat) returns (front: Bytes)
      requires n <= |rxBuffer|
      modifies this`rxBuffer, this`rxPartialTimerActive
      ensures front == old(rxBuffer)[..n]
      ensures State() == old(State()).(rx := old(rxBuffer)[n..], timerActive := false)
    {
      front := rxBuffer[..n];
      rxBuffer := rxBuffer[n..];
      rxPartialTimerActive := false;
    }

    /** Drops the orphan prefix in front of the first start tag. */
    method CutOrphan(fd: int) returns (cut: bool)
      requires EventsKept()
      modifies this
      ensures var n := OrphanLength(old(rxBuffer));
        && (cut <==> n > 0)
        && State() == (if n == 0 then old(State())
                       else Cut(cfg, old(State()).(rx := old(rxBuffer)[n..], timerActive := false), fd,
                                Orphan(old(rxBuffer)[..n])))
        && rxBuffer == old(rxBuffer)[n..] && (cut ==> !rxPartialTimerActive)
      ensures EventsKept() && emitted == old(emitted)
    {
      hide KeptApart, Cut, StartTag, BenignPrefix;
      var first := FindNotificationStartTag(rxBuffer, 0);
      if first.None? || first.value == 0 || BenignPrefix(rxBuffer[..first.value]) {
        return false;
      }
      var prefix := Erase(first.value);
      CutFrame(cfg, State(), fd, Orphan(prefix));
      ProcessOrphan(fd, prefix);
      return true;
    }

    /** Cuts EOM-terminated frames until no marker is left. */
    method CutEomFrames(fd: int) returns (any: bool)
      requires EventsKept()
      modifies this
      ensures var (frames, left) := CutFrames(old(rxBuffer));
        && (any <==> frames != [])
        && State() == CutAll(cfg, old(State()), fd, frames)
                      .(rx := left, timerActive := old(rxPartialTimerActive) && !any)
      ensures EventsKept() && emitted == old(emitted)
    {
      hide KeptApart, Cut, CutAll, CutFrames, Find, EOM;
      ghost var done: seq<Piece> := [];
      any := false;
      var eom := Find(rxBuffer, EOM, 0);
      CutAllNone(cfg, State(), fd);
      assert done + CutFrames(rxBuffer).0 == CutFrames(rxBuffer).0;
      while eom.Some?
        invariant eom == Find(rxBuffer, EOM, 0)
        invariant EventsKept() && emitted == old(emitted)
        invariant any <==> done != []
        invariant CutFrames(old(rxBuffer)).0 == done + CutFrames(rxBuffer).0
        invariant CutFrames(old(rxBuffer)).1 == CutFrames(rxBuffer).1
        invariant State() == CutAll(cfg, old(State()), fd, done)
                             .(rx := rxBuffer, timerActive := old(rxPartialTimerActive) && !any)
        decreases |rxBuffer|
      {
        ghost var before := rxBuffer;
        CutFramesUnfolds(before, eom.value);
        var frame := rxBuffer[..eom.value];
        var gone := Erase(eom.value + EOM_LENGTH);
        ghost var mid := State();
        ProcessEomFrame(fd, frame);
        CutAllPush(cfg, old(State()), fd, done, Frame(frame), mid);
        assert done + ([Frame(frame)] + CutFrames(rxBuffer).0) == done + [Frame(frame)] + CutFrames(rxBuffer).0;
        done := done + [Frame(frame)];
        any := true;
        eom := Find(rxBuffer, EOM, 0);
      }
      CutFramesStops(rxBuffer);
      assert done + [] == done;
    }

    /** Cuts the notification at the front, closed or not, if another one starts behind it. */
    method CutBrokenNotification(fd: int) returns (cut: bool)
      requires EventsKept()
      modifies this
      ensures var broken := CutBroken(old(rxBuffer));
        && (cut <==> broken.Some?)
        && State() == (if broken.None? then old(State())
                       else Cut(cfg, old(State()).(rx := old(rxBuffer)[|broken.value.text|..], timerActive := false),
                                fd, broken.value))
        && rxBuffer == (if broken.None? then old(rxBuffer) else old(rxBuffer)[|broken.value.text|..])
        && (cut ==> !rxPartialTimerActive)
      ensures EventsKept() && emitted == old(emitted)
    {
      hide KeptApart, Cut, StartTagAt, StartTag, NotificationEnd, CutBroken;
      var start := FindNotificationStartTag(rxBuffer, 0);
      if start.None? {
        assert CutBroken(rxBuffer).None? by { NoStartNothingBroken(rxBuffer); }
        return false;
      }
      CutBrokenUnfolds(rxBuffer, start.value);
      var end := NotificationEndAfterStart(rxBuffer, start.value);
      if end.Some? {
        var next := FindNotificationStartTag(rxBuffer, end.value);
        if next.None? {
          return false;
        }
        var recovered := Erase(end.value);
        CutFrame(cfg, State(), fd, Recovered(recovered));
        ProcessRecovered(fd, recovered);
      } else {
        var next := FindNotificationStartTag(rxBuffer, start.value + 1);
        if next.None? {
          return false;
        }
        var abandoned := Erase(next.value);
        CutFrame(cfg, State(), fd, Abandoned(abandoned));
        ProcessIncomplete(fd, Abandoned(abandoned));
      }
      return true;
    }

    /** The parser's loop has cut `done` since `start` and has the rest still before it. */
    ghost predicate Behind(start: Stream, fd: int, done: seq<Piece>)
      reads this
    {
      && State() == CutAll(cfg, start, fd, done).(rx := rxBuffer, timerActive := rxPartialTimerActive)
      && Parse(start.rx).0 == done + Parse(rxBuffer).0
      && Parse(start.rx).1 == Parse(rxBuffer).1
      && (rxBuffer != [] ==> rxPartialTimerActive == (start.timerActive && done == []))
    }

    /** One pass of the parser's loop. */
    method Pass(fd: int, ghost start: Stream, ghost done: seq<Piece>) returns (progressed: bool, ghost now: seq<Piece>)
      requires EventsKept() && rxBuffer != [] && Behind(start, fd, done)
      modifies this
      ensures EventsKept() && emitted == old(emitted)
      ensures Behind(start, fd, now)
      ensures |rxBuffer| <= |old(rxBuffer)|
      ensures if progressed then |rxBuffer| < |old(rxBuffer)| else Parse(rxBuffer) == ([], rxBuffer)
    {
      hide KeptApart, Cut, CutAll, CutFrames, CutBroken, OrphanLength, Parse;
      now := done;
      ghost var pass := State();
      ParseUnfolds(rxBuffer);
      var orphan := CutOrphan(fd);
      if orphan {
        ghost var piece := Orphan(pass.rx[..OrphanLength(pass.rx)]);
        CutAllPush(cfg, start, fd, done, piece, pass.(rx := rxBuffer, timerActive := false));
        now := done + [piece];
        assert done + ([piece] + Parse(rxBuffer).0) == now + Parse(rxBuffer).0;
        return true, now;
      }
      progressed := CutEomFrames(fd);
      ghost var frames := CutFrames(pass.rx).0;
      CutAllConcat(cfg, start, fd, done, frames, pass);
      now := done + frames;
      if rxBuffer == [] {
        ParseUnfolds([]);
        assert now + [] == now;
        rxPartialTimerActive := false;
        return false, now;
      }
      ghost var left := State();
      var broken := CutBrokenNotification(fd);
      if broken {
        ghost var piece := CutBroken(left.rx).value;
        CutAllPush(cfg, start, fd, now, piece, left.(rx := rxBuffer, timerActive := false));
        assert done + (frames + [piece] + Parse(rxBuffer).0) == now + [piece] + Parse(rxBuffer).0;
        return true, now + [piece];
      }
      assert done + (frames + Parse(rxBuffer).0) == now + Parse(rxBuffer).0;
      assert !progressed ==> now == done;
    }

    /** `process_rx_buffer_locked`: pass after pass, until a pass cuts nothing. */
    method ProcessRxBuffer(fd: int, now: int)
      requires EventsKept()
      modifies this
      ensures State() == Process(cfg, old(State()), fd, now) && EventsKept() && emitted == old(emitted)
    {
      hide KeptApart, Cut, CutAll, Parse;
      ghost var start := State();
      ghost var done: seq<Piece> := [];
      CutAllNone(cfg, start, fd);
      assert done + Parse(rxBuffer).0 == Parse(rxBuffer).0;
      var progressed := true;
      while progressed
        invariant EventsKept() && emitted == old(emitted)
        invariant Behind(start, fd, done)
        invariant !progressed ==> Parse(rxBuffer) == ([], rxBuffer)
        decreases |rxBuffer|, progressed
      {
        if rxBuffer == [] {
          ParseUnfolds([]);
          rxPartialTimerActive := false;
          break;
        }
        progressed, done := Pass(fd, start, done);
      }
      assert done + [] == done;
      if rxBuffer == [] {
        rxPartialTimerActive := false;
      } else if !rxPartialTimerActive {
        rxPartialTimerActive := true;
        rxPartialStartedAt := now;
      }
      CutAllFrame(cfg, start, fd, done);
    }

    // ----- Critical sections of the reactor -----

    method FinalizeIncomplete(fd: int)
      requires EventsKept()
      modifies this
      ensures State() == Finalize(cfg, old(State()), fd) && EventsKept() && emitted == old(emitted)
    {
      hide KeptApart, Cut;
      if rxBuffer == [] {
        rxPartialTimerActive := false;
        return;
      }
      assert rxBuffer[..|rxBuffer|] == rxBuffer && rxBuffer[|rxBuffer|..] == [];
      var partial := Erase(|rxBuffer|);
      ProcessIncomplete(fd, Guarded(partial));
    }

    method PartialSizeLimitReached() returns (reached: bool)
      ensures reached == SizeLimitReached(cfg, State())
    {
      if cfg.maxKb <= 0 || rxBuffer == [] {
        return false;
      }
      return |rxBuffer| >= cfg.maxKb * 1024;
    }

    method PartialTimeoutReached(now: int) returns (reached: bool)
      ensures reached == TimeoutReached(cfg, State(), now)
    {
      if cfg.timeoutSeconds <= 0 || !rxPartialTimerActive || rxBuffer == [] {
        return false;
      }
      return now - rxPartialStartedAt >= cfg.timeoutSeconds * NANOSECONDS;
    }

    method AfterRead(fd: int, bytes: Bytes, now: int)
      requires Valid()
      modifies this
      ensures Valid() && State() == Receive(cfg, old(State()), fd, bytes, now) && emitted == old(emitted)
    {
      hide KeptApart, Inv, Process, Finalize;
      StepKeepsInv(cfg, State(), OnRead(fd, bytes, now));
      if bytes != [] {
        rxBuffer := rxBuffer + bytes;
      }
      assert old(rxBuffer) + [] == old(rxBuffer) && old(log.received) + [] == old(log.received);
      log := log.(received := log.received + bytes);
      ProcessRxBuffer(fd, now);
      var tooLarge := PartialSizeLimitReached();
      if tooLarge {
        FinalizeIncomplete(fd);
      }
    }

    /** The section at the top of the guard loop; a wait of 0 means that the loop is over. */
    method AtLoopTop(fd: int, t0: int, t1: int, t2: int) returns (waitMs: int)
      requires Valid()
      modifies this
      ensures Valid() && State() == LoopTop(cfg, old(State()), fd, t0, t1, t2) && emitted == old(emitted)
      ensures KeepsWaiting(cfg, State()) ==> t2 < Deadline(cfg, State()) && waitMs == WaitMs(cfg, State(), t2)
      ensures !KeepsWaiting(cfg, State()) ==> waitMs == 0
    {
      hide KeptApart, Inv, Process, Cut;
      StepKeepsInv(cfg, State(), OnLoopTop(fd, t0, t1, t2));
      waitMs := 0;
      ProcessRxBuffer(fd, t0);
      FinalizeFrame(cfg, State(), fd);
      var tooLarge := PartialSizeLimitReached();
      if tooLarge {
        FinalizeIncomplete(fd);
      } else {
        var tooLate := PartialTimeoutReached(t1);
        if tooLate {
          FinalizeIncomplete(fd);
        }
      }
      if rxBuffer != [] && cfg.timeoutSeconds > 0 {
        var deadline := rxPartialStartedAt + cfg.timeoutSeconds * NANOSECONDS;
        if t2 >= deadline {
          FinalizeFrame(cfg, State(), fd);
          FinalizeIncomplete(fd);
        } else {
          var remaining := (deadline - t2) / 1_000_000;
          waitMs := if remaining > 1 then remaining else 1;
          waitMs := if waitMs < 1000 then waitMs else 1000;
        }
      }
    }

    method AfterSilence(fd: int, now: int)
      requires Valid()
      modifies this
      ensures Valid() && State() == PollSilent(cfg, old(State()), fd, now) && emitted == old(emitted)
    {
      hide KeptApart, Inv, Finalize;
      StepKeepsInv(cfg, State(), OnSilence(fd, now));
      var tooLate := PartialTimeoutReached(now);
      if tooLate {
        FinalizeIncomplete(fd);
      }
    }

    /** Hands the events collected under the mutex to the bus. */
    method FlushEvents()
      requires EventsKept()
      modifies this`emitted, this`eventsToEmit
      ensures EventsKept() && State() == old(State())
      ensures eventsToEmit == [] && emitted == old(emitted) + old(eventsToEmit)
    {
      Flushed(log.events, emitted, eventsToEmit);
      emitted := emitted + eventsToEmit;
      eventsToEmit := [];
    }

    // ----- Critical sections of other threads -----

    method TakeOldest() returns (xml: Bytes)
      requires queue != []
      modifies this`queue, this`log
      ensures State() == Take(old(State())) && xml == old(queue)[0] && log.events == old(log.events)
    {
      xml := queue[0];
      queue := queue[1..];
      log := log.(taken := log.taken + [xml]);
    }

    /** `next_notification` once the wait for data is over: it fails without touching anything when there is
        no subscription or the timeout is negative, and returns the oldest entry otherwise.  Entries are
        never empty, so the empty string says that there was none. */
    method NextNotification(subscribed: bool, timeoutMs: int) returns (ok: bool, xml: Bytes)
      requires Valid()
      modifies this
      ensures Valid() && eventsToEmit == old(eventsToEmit)
      ensures ok <==> subscribed && timeoutMs >= 0
      ensures State() == if ok then Pop(cfg, old(State())) else old(State())
      ensures xml == if ok && old(queue) != [] then old(queue)[0] else []
      ensures ok ==> (xml == [] <==> old(queue) == [])
      ensures if ok && old(queueFullState) && !queueFullState then
                && |emitted| == |old(emitted)| + 1 && emitted[..|old(emitted)|] == old(emitted)
                && var event := emitted[|old(emitted)|];
                   && event.kind == QueueRecovered && event.fd == -1 && event.droppedDelta == event.partialBytes == 0
                   && event.queueSize == |queue| && event.queueMaxSize == cfg.queueMax
                   && event.highWatermark == queueHighWatermark && event.enqueued == enqueuedCount
                   && event.dropped == droppedQueueFullCount && event.incomplete == incompleteCount
              else emitted == old(emitted)
    {
      hide Inv, KeptApart, Take;
      xml := [];
      if !subscribed || timeoutMs < 0 {
        return false, xml;
      }
      ok := true;
      if queue == [] {
        return;
      }
      PopKeepsInv(cfg, State());
      QueuedIsNotEmpty(cfg, State());
      xml := TakeOldest();
      if queueFullState && (cfg.queueMax < 0 || |queue| < cfg.queueMax) {
        queueFullState := false;
        var event := HealthEvent(QueueRecovered, -1, |queue|, cfg.queueMax, queueHighWatermark, enqueuedCount,
                                 droppedQueueFullCount, 0, incompleteCount, 0);
        EmittedDirectly(log.events, emitted, eventsToEmit, event);
        log := log.With(event);
        emitted := emitted + [event];
      }
    }

    /** `peek_notifications`: a prefix of the queue, which stays as it is. */
    method PeekNotifications(maxItems: int) returns (ok: bool, snapshot: seq<Bytes>)
      ensures ok <==> maxItems >= -1
      ensures ok ==> snapshot == queue[..if 0 <= maxItems < |queue| then maxItems else |queue|]
      ensures !ok ==> snapshot == []
    {
      snapshot := [];
      if maxItems < -1 {
        return false, snapshot;
      }
      var limit := |queue|;
      if maxItems >= 0 && maxItems < limit {
        limit := maxItems;
      }
      var i := 0;
      while i < limit
        invariant 0 <= i <= limit <= |queue|
        invariant snapshot == queue[..i]
      {
        snapshot := snapshot + [queue[i]];
        i := i + 1;
      }
      ok := true;
    }

    method MarkNotificationDead()
      requires Valid()
      modifies this
      ensures Valid() && State() == SessionDead(old(State())) && eventsToEmit == old(eventsToEmit)
    {
      hide KeptApart, Inv;
      StepKeepsInv(cfg, State(), OnDeath);
      ClearRxBuffer();
      log := log.(taken := log.taken + queue);
      queue := [];
    }

    /** What a new subscription does before it registers with a reactor. */
    method ResetForSubscription()
      requires Valid()
      modifies this
      ensures Valid() && State() == DropBuffer(old(State())) && eventsToEmit == old(eventsToEmit)
    {
      hide KeptApart, Inv;
      StepKeepsInv(cfg, State(), OnSubscribe);
      ClearRxBuffer();
    }

    method ClearRxBuffer()
      requires EventsKept()
      modifies this
      ensures State() == DropBuffer(old(State())) && EventsKept()
      ensures eventsToEmit == old(eventsToEmit) && emitted == old(emitted)
    {
      hide KeptApart;
      if rxBuffer != [] {
        log := log.(cuts := log.cuts + [Cleared(rxBuffer)]);
      }
      rxBuffer := [];
      rxPartialTimerActive := false;
    }

    /** Other threads enter the mutex in some order. */
    method OthersRun(sections: seq<Section>)
      requires Valid() && ByOthers(sections)
      modifies this
      ensures Valid() && State() == Steps(cfg, old(State()), sections) && eventsToEmit == old(eventsToEmit)
    {
      hide KeptApart, Inv, Steps;
      NoSteps(cfg, State());
      ghost var start := State();
      assert sections[..0] == [];
      var i := 0;
      while i < |sections|
        invariant 0 <= i <= |sections|
        invariant Valid() && eventsToEmit == old(eventsToEmit)
        invariant State() == Steps(cfg, start, sections[..i])
      {
        StepsPush(cfg, start, sections[..i], sections[i]);
        assert sections[..i + 1] == sections[..i] + [sections[i]];
        match sections[i] {
          case OnPop =>
            var ok, xml := NextNotification(true, 0);
          case OnDeath =>
            MarkNotificationDead();
          case OnSubscribe =>
            ResetForSubscription();
        }
        i := i + 1;
      }
      assert sections[..i] == sections;
    }

    // ----- The callback -----

    /** What the end of a wait leads to; it fails if the poll, or the read or the checks in front of it, throw. */
    method AfterPoll(fd: int, poll: PollResult) returns (ok: bool)
      requires Valid() && eventsToEmit == []
      modifies this
      ensures Valid() && eventsToEmit == []
      ensures ok <==> NextSection(fd, poll).Some?
      ensures State() == if ok then Step(cfg, old(State()), NextSection(fd, poll).value) else old(State())
    {
      hide Inv, KeptApart, Receive, PollSilent;
      match poll {
        case PollFailed =>
          return false;
        case Silent(now) =>
          AfterSilence(fd, now);
        case Ready(ReadFailed) =>
          return false;
        case Ready(Read(bytes, now)) =>
          AfterRead(fd, bytes, now);
      }
      FlushEvents();
      return true;
    }

    /** One round of the guard loop. */
    method PlayRound(fd: int, round: Round) returns (outcome: Outcome, waits: seq<Wait>, ghost sections: seq<Section>)
      requires Valid() && ByOthers(round.before) && ByOthers(round.during) && eventsToEmit == []
      modifies this
      ensures Valid() && eventsToEmit == []
      ensures Callback(outcome, sections, waits) == Play(cfg, old(State()), fd, round)
      ensures State() == Steps(cfg, old(State()), sections)
    {
      hide Inv, KeptApart, Play, Steps, Step, LoopTop, WaitMs, NextSection;
      ghost var start := State();
      waits, sections := [], TopSections(fd, round);
      PlayUnfolds(cfg, start, fd, round);
      TopIsLoopTop(cfg, start, fd, round);
      OthersRun(round.before);
      var waitMs := AtLoopTop(fd, round.t0, round.t1, round.t2);
      if waitMs == 0 {
        FlushEvents();
        return Returned, waits, sections;
      }
      waits := [Wait(waitMs, round.t2, rxPartialStartedAt + cfg.timeoutSeconds * NANOSECONDS)];
      StepsConcat(cfg, start, sections, round.during);
      OthersRun(round.during);
      sections := sections + round.during;
      FlushEvents();
      var ok := AfterPoll(fd, round.poll);
      if !ok {
        assert sections + [] == sections;
        return Threw, waits, sections;
      }
      ghost var next := NextSection(fd, round.poll).value;
      StepsPush(cfg, start, sections, next);
      sections := sections + [next];
      outcome := StillWaiting;
    }

    /** The guard loop, while the outside plays `rounds`. */
    method PlayRounds(fd: int, rounds: seq<Round>)
      returns (outcome: Outcome, waits: seq<Wait>, ghost sections: seq<Section>)
      requires Valid() && RoundsOk(rounds) && eventsToEmit == []
      modifies this
      ensures Valid() && eventsToEmit == []
      ensures Callback(outcome, sections, waits) == Loop(cfg, old(State()), fd, rounds)
      ensures State() == Steps(cfg, old(State()), sections)
    {
      hide Inv, KeptApart, Steps, Play, Loop, Callback.After;
      ghost var start := State();
      NoSteps(cfg, start);
      waits, sections := [], [];
      AfterNothing(Loop(cfg, start, fd, rounds));
      assert rounds[0..] == rounds;
      outcome := StillWaiting;
      var i := 0;
      while i < |rounds|
        invariant 0 <= i <= |rounds| && outcome.StillWaiting?
        invariant Valid() && eventsToEmit == []
        invariant State() == Steps(cfg, start, sections)
        invariant Loop(cfg, start, fd, rounds) == Loop(cfg, State(), fd, rounds[i..]).After(sections, waits)
      {
        LoopUnfolds(cfg, State(), fd, rounds[i..]);
        assert rounds[i..][1..] == rounds[i + 1..];
        var w; ghost var played;
        outcome, w, played := PlayRound(fd, rounds[i]);
        StepsConcat(cfg, start, sections, played);
        AfterAfter(Loop(cfg, State(), fd, rounds[i + 1..]), played, w, sections, waits);
        AfterParts(Callback(outcome, played, w), sections, waits);
        waits, sections := waits + w, sections + played;
        if !outcome.StillWaiting? {
          return;
        }
        i := i + 1;
      }
      assert rounds[i..] == [];
      LoopUnfolds(cfg, State(), fd, rounds[i..]);
      AfterNothing(Callback(StillWaiting, sections, waits));
    }

    /** `on_notification_ready`: the first read, then the guard loop, while the outside plays `rounds`.
        On every way out, exceptions included, every event generated has reached the bus exactly once, and
        those the callback raised have reached it in order. */
    method OnNotificationReady(fd: int, first: ReadResult, rounds: seq<Round>)
      returns (outcome: Outcome, waits: seq<Wait>, ghost sections: seq<Section>)
      requires Valid() && RoundsOk(rounds) && eventsToEmit == []
      modifies this
      ensures Valid() && eventsToEmit == [] && multiset(emitted) == multiset(log.events)
      ensures ByCallback(emitted) == ByCallback(log.events)
      ensures Callback(outcome, sections, waits) == OnReady(cfg, old(State()), fd, first, rounds)
      ensures State() == Steps(cfg, old(State()), sections)
      ensures outcome.Returned? ==> Settled(cfg, State())
      ensures |waits| <= |rounds|
      ensures BytesRead(sections) == (if first.Read? then first.bytes else []) + BytesPolled(rounds[..|waits|])
      ensures outcome.Threw? <==>
        first.ReadFailed? || (waits != [] && WaitFailed(rounds[|waits| - 1].poll))
      ensures CalledOut(Callback(outcome, sections, waits), first, rounds)
    {
      hide Inv, Steps, Receive, Settled, Loop, ByCallback, CalledOut, WaitFailed, BytesRead, BytesPolled, RoundsOk;
      ghost var start := State();
      CallbackReads(cfg, start, fd, first, rounds);
      CalledOutSays(OnReady(cfg, start, fd, first, rounds), first, rounds);
      CallbackSettles(cfg, start, fd, first, rounds);
      NoSteps(cfg, start);
      if first.ReadFailed? {
        return Threw, [], [];
      }
      ghost var read := OnRead(fd, first.bytes, first.now);
      StepsPush(cfg, start, [], read);
      assert [] + [read] == [read];
      AfterRead(fd, first.bytes, first.now);
      FlushEvents();
      outcome, waits, sections := PlayRounds(fd, rounds);
      StepsConcat(cfg, start, [read], sections);
      assert [] + waits == waits;
      sections := [read] + sections;
    }
  }

  lemma FrameIsDiagnosed(cfg: Config, s: Stream, fd: int, frame: Bytes)
    ensures DiagnosesIn(Cut(cfg, s, fd, Frame(frame)).log.events) == DiagnosesIn(s.log.events)
              + if TrimCopy(frame) != [] && cfg.parses(TrimCopy(frame)) then [] else [(Malformed, |frame|)]
  {
    hide Offer, Diagnose, TrimCopy, EOM, DiagnosesIn;
    var c := s.(log := s.log.(cuts := s.log.cuts + [Frame(frame)]));
    var d := Diagnose(cfg, c, fd, Malformed, |frame|);
    EomLength();
    DiagnoseReports(cfg, c, fd, Malformed, |frame|);
    OfferSettles(cfg, c, fd, frame + EOM, 0);
    OfferSettles(cfg, d, fd, frame + EOM, |frame|);
  }

  lemma PopKeepsInv(cfg: Config, s: Stream)
    requires cfg.Valid() && Inv(cfg, s)
    ensures Inv(cfg, Pop(cfg, s))
  {
    hide Inv, Pop;
    StepKeepsInv(cfg, s, OnPop);
  }

  lemma QueuedIsNotEmpty(cfg: Config, s: Stream)
    requires Inv(cfg, s) && s.queue != []
    ensures s.queue[0] != []
  {
    hide *;
    assert s.queue[0] in s.log.taken + s.queue;
    var piece := EntryMark(cfg, s, s.queue[0]);
  }

  lemma EmittedDirectly(all: seq<HealthEvent>, a: seq<HealthEvent>, b: seq<HealthEvent>, event: HealthEvent)
    requires KeptApart(all, a, b) && event.kind.QueueRecovered?
    ensures KeptApart(all + [event], a + [event], b)
  {
    hide ByCallback;
    ByCallbackPush(all, event);
    ByCallbackPush(a, event);
  }

  lemma Collected(all: seq<HealthEvent>, a: seq<HealthEvent>, b: seq<HealthEvent>, event: HealthEvent)
    requires KeptApart(all, a, b) && !event.kind.QueueRecovered?
    ensures KeptApart(all + [event], a, b + [event])
  {
    hide ByCallback;
    ByCallbackPush(all, event);
    ByCallbackPush(b, event);
    assert ByCallback(a) + b + [event] == ByCallback(a) + (b + [event]);
  }

  lemma ByCallbackPush(events: seq<HealthEvent>, event: HealthEvent)
    ensures ByCallback(events + [event])
            == if event.kind.QueueRecovered? then ByCallback(events) else ByCallback(events) + [event]
  {
    assert (events + [event])[..|events|] == events;
    assert ByCallback(events) + [] == ByCallback(events);
  }

  /** A flush hands the collected events over behind those that went before. */
  lemma Flushed(all: seq<HealthEvent>, a: seq<HealthEvent>, b: seq<HealthEvent>)
    requires KeptApart(all, a, b)
    ensures KeptApart(all, a + b, [])
  {
    ByCallbackConcat(a, b);
    assert ByCallback(a) + b + [] == ByCallback(a) + b;
  }

  lemma {:induction false} ByCallbackConcat(a: seq<HealthEvent>, b: seq<HealthEvent>)
    ensures ByCallback(a + b) == ByCallback(a) + ByCallback(b)
  {
    hide ByCallback;
    if b == [] {
      assert a + b == a;
      ByCallbackNothing();
    } else {
      var init, last := b[..|b| - 1], b[|b| - 1];
      ByCallbackConcat(a, init);
      assert b == init + [last];
      ConcatPush(a, init, last);
    }
  }

  lemma ConcatPush(a: seq<HealthEvent>, init: seq<HealthEvent>, last: HealthEvent)
    requires ByCallback(a + init) == ByCallback(a) + ByCallback(init)
    ensures ByCallback(a + (init + [last])) == ByCallback(a) + ByCallback(init + [last])
  {
    hide ByCallback;
    ByCallbackPush(a + init, last);
    ByCallbackPush(init, last);
    assert a + (init + [last]) == a + init + [last];
    assert ByCallback(a) + ByCallback(init) + [last] == ByCallback(a) + (ByCallback(init) + [last]);
  }

  lemma ByCallbackNothing()
    ensures ByCallback([]) == []
  {
  }

  // ----- Facts the loops use -----

  lemma CutAllNone(cfg: Config, s: Stream, fd: int)
    ensures CutAll(cfg, s, fd, []) == s
  {
  }

  lemma RefuseCommutes(cfg: Config, s: Stream, fd: int, entry: Bytes, bytes: nat, rx: Bytes, timerActive: bool)
    ensures Refuse(cfg, s.(rx := rx, timerActive := timerActive), fd, entry, bytes)
            == Refuse(cfg, s, fd, entry, bytes).(rx := rx, timerActive := timerActive)
  {
  }

  lemma OfferCommutes(cfg: Config, s: Stream, fd: int, entry: Bytes, bytes: nat, rx: Bytes, timerActive: bool)
    ensures Offer(cfg, s.(rx := rx, timerActive := timerActive), fd, entry, bytes)
            == Offer(cfg, s, fd, entry, bytes).(rx := rx, timerActive := timerActive)
  {
    hide Refuse;
    RefuseCommutes(cfg, s, fd, entry, bytes, rx, timerActive);
  }

  lemma DiagnoseCommutes(cfg: Config, s: Stream, fd: int, kind: EventKind, bytes: nat, rx: Bytes, timerActive: bool)
    ensures Diagnose(cfg, s.(rx := rx, timerActive := timerActive), fd, kind, bytes)
            == Diagnose(cfg, s, fd, kind, bytes).(rx := rx, timerActive := timerActive)
  {
  }

  /** Cutting does not look at the buffer, so it can be done before or after the buffer changed. */
  lemma CutCommutes(cfg: Config, s: Stream, fd: int, piece: Piece, rx: Bytes, timerActive: bool)
    ensures Cut(cfg, s.(rx := rx, timerActive := timerActive), fd, piece)
            == Cut(cfg, s, fd, piece).(rx := rx, timerActive := timerActive)
  {
    hide KeptApart, Offer, Diagnose, TrimCopy, EOM;
    var c := s.(log := s.log.(cuts := s.log.cuts + [piece]));
    var kind, n := KindOf(piece), |piece.text|;
    var entry := if piece.Frame? then piece.text + EOM else piece.text;
    DiagnoseCommutes(cfg, c, fd, kind, n, rx, timerActive);
    OfferCommutes(cfg, c, fd, entry, 0, rx, timerActive);
    OfferCommutes(cfg, Diagnose(cfg, c, fd, kind, n), fd, entry, n, rx, timerActive);
  }

  lemma CutAllPush(cfg: Config, s: Stream, fd: int, done: seq<Piece>, piece: Piece, now: Stream)
    requires now == CutAll(cfg, s, fd, done).(rx := now.rx, timerActive := now.timerActive)
    ensures Cut(cfg, now, fd, piece)
            == CutAll(cfg, s, fd, done + [piece]).(rx := now.rx, timerActive := now.timerActive)
  {
    hide Cut;
    assert (done + [piece])[..|done|] == done;
    CutCommutes(cfg, CutAll(cfg, s, fd, done), fd, piece, now.rx, now.timerActive);
  }

  lemma NoStartNothingBroken(buf: Bytes)
    requires StartTag(buf, 0).None?
    ensures CutBroken(buf).None?
  {
  }

  lemma {:induction false} CutAllCommutes(
      cfg: Config, s: Stream, fd: int, pieces: seq<Piece>, rx: Bytes, timerActive: bool)
    ensures CutAll(cfg, s.(rx := rx, timerActive := timerActive), fd, pieces)
            == CutAll(cfg, s, fd, pieces).(rx := rx, timerActive := timerActive)
  {
    hide Cut;
    if pieces != [] {
      var n := |pieces| - 1;
      CutAllCommutes(cfg, s, fd, pieces[..n], rx, timerActive);
      CutCommutes(cfg, CutAll(cfg, s, fd, pieces[..n]), fd, pieces[n], rx, timerActive);
    }
  }

  lemma {:induction false} CutAllJoins(cfg: Config, s: Stream, fd: int, a: seq<Piece>, b: seq<Piece>)
    ensures CutAll(cfg, CutAll(cfg, s, fd, a), fd, b) == CutAll(cfg, s, fd, a + b)
  {
    hide Cut;
    if b == [] {
      assert a + b == a;
    } else {
      var n := |b| - 1;
      CutAllJoins(cfg, s, fd, a, b[..n]);
      assert (a + b)[..|a + b| - 1] == a + b[..n];
    }
  }

  lemma CutAllConcat(cfg: Config, s: Stream, fd: int, done: seq<Piece>, more: seq<Piece>, now: Stream)
    requires now == CutAll(cfg, s, fd, done).(rx := now.rx, timerActive := now.timerActive)
    ensures CutAll(cfg, now, fd, more)
            == CutAll(cfg, s, fd, done + more).(rx := now.rx, timerActive := now.timerActive)
  {
    hide CutAll;
    CutAllCommutes(cfg, CutAll(cfg, s, fd, done), fd, more, now.rx, now.timerActive);
    CutAllJoins(cfg, s, fd, done, more);
  }
}
