/** The state a client keeps under its queue mutex, and every critical section on it as a function.

    A `Stream` carries, beside the client's own fields, a log of what happened so far.  The log
    decides nothing: no operation reads it. */
module NotificationStream {
  import opened ByteStrings
  import opened NotificationParser

  /** Constructor arguments; `parses` stands for the XML parser's verdict on a trimmed payload. */
  datatype Config = Config(queueMax: int, maxKb: int, timeoutSeconds: int, dropThreshold: int,
                           parses: Bytes -> bool)
  {
    /** What the constructor insists on. */
    predicate Valid() {
      && queueMax >= -1
      && (maxKb == -1 || maxKb > 0)
      && (timeoutSeconds == -1 || timeoutSeconds > 0)
      && (maxKb > 0 || timeoutSeconds > 0)
      && dropThreshold > 0
    }

    predicate IsValidNotification(frame: Bytes) {
      var payload := TrimCopy(frame);
      payload != [] && parses(payload)
    }
  }

  datatype EventKind = QueueFull | DropsSummary | QueueRecovered | Malformed | Incomplete

  datatype HealthEvent = HealthEvent(
    kind: EventKind, fd: int,
    queueSize: nat, queueMaxSize: int, highWatermark: nat,
    enqueued: nat, dropped: nat, droppedDelta: int, incomplete: nat, partialBytes: nat)

  /** The fate of an entry offered to the queue. */
  datatype Verdict = Accepted(entry: Bytes) | Refused(entry: Bytes)

  /** How far the rest of the log had come when an event was generated. */
  datatype Mark = Mark(cuts: nat, verdicts: nat, taken: nat)

  datatype Log = Log(
    received: Bytes,         // every byte read, in order
    cuts: seq<Piece>,        // every piece that left the receive buffer, in order
    verdicts: seq<Verdict>,  // every entry offered to the queue, in order
    sizes: seq<nat>,         // the queue length after each acceptance
    taken: seq<Bytes>,       // every entry that left the queue, in order
    events: seq<HealthEvent>,  // every health event, in order of generation
    marks: seq<Mark>)          // and when
  {
    function With(event: HealthEvent): Log {
      this.(events := events + [event], marks := marks + [Mark(|cuts|, |verdicts|, |taken|)])
    }
  }

  datatype Stream = Stream(
    rx: Bytes, timerActive: bool, startedAt: int,
    queue: seq<Bytes>,
    enqueued: nat, dropped: nat, reported: nat, incomplete: nat, watermark: nat, full: bool,
    log: Log)

  const INITIAL := Stream([], false, 0, [], 0, 0, 0, 0, 0, false, Log([], [], [], [], [], [], []))

  // ----- Health events and the bounded queue -----

  function MakeEvent(cfg: Config, s: Stream, kind: EventKind, fd: int, delta: int, bytes: nat): HealthEvent {
    HealthEvent(kind, fd, |s.queue|, cfg.queueMax, s.watermark, s.enqueued, s.dropped, delta, s.incomplete, bytes)
  }

  function Raise(cfg: Config, s: Stream, kind: EventKind, fd: int, delta: int, bytes: nat): Stream {
    s.(log := s.log.With(MakeEvent(cfg, s, kind, fd, delta, bytes)))
  }

  predicate AtMax(cfg: Config, s: Stream) {
    cfg.queueMax >= 0 && |s.queue| >= cfg.queueMax
  }

  /** `enqueue_or_drop_locked`. */
  function Offer(cfg: Config, s: Stream, fd: int, entry: Bytes, bytes: nat): Stream {
    if entry == [] then s
    else if AtMax(cfg, s) then Refuse(cfg, s, fd, entry, bytes)
    else Accept(s, entry)
  }

  function Accept(s: Stream, entry: Bytes): Stream {
    s.(queue := s.queue + [entry],
       enqueued := s.enqueued + 1,
       watermark := if |s.queue| + 1 > s.watermark then |s.queue| + 1 else s.watermark,
       log := s.log.(verdicts := s.log.verdicts + [Accepted(entry)], sizes := s.log.sizes + [|s.queue| + 1]))
  }

  function Refuse(cfg: Config, s: Stream, fd: int, entry: Bytes, bytes: nat): Stream {
    var d := s.(dropped := s.dropped + 1, log := s.log.(verdicts := s.log.verdicts + [Refused(entry)]));
    var delta := d.dropped - d.reported;
    if !s.full || delta >= cfg.dropThreshold then
      Raise(cfg, d.(full := true, reported := d.dropped), if s.full then DropsSummary else QueueFull, fd, delta, bytes)
    else d
  }

  function Diagnose(cfg: Config, s: Stream, fd: int, kind: EventKind, bytes: nat): Stream {
    Raise(cfg, if kind.Incomplete? then s.(incomplete := s.incomplete + 1) else s, kind, fd, 0, bytes)
  }

  /** What happens to a piece once it is cut. */
  function Cut(cfg: Config, s: Stream, fd: int, piece: Piece): Stream {
    var c := s.(log := s.log.(cuts := s.log.cuts + [piece]));
    var n := |piece.text|;
    match piece
    case Orphan(_) => Diagnose(cfg, c, fd, Malformed, n)
    case Frame(text) =>
      if TrimCopy(text) == [] then Diagnose(cfg, c, fd, Malformed, n)
      else if cfg.IsValidNotification(text) then Offer(cfg, c, fd, text + EOM, 0)
      else Offer(cfg, Diagnose(cfg, c, fd, Malformed, n), fd, text + EOM, n)
    case Recovered(text) => Offer(cfg, Diagnose(cfg, c, fd, Malformed, n), fd, text, n)
    case Abandoned(text) => Offer(cfg, Diagnose(cfg, c, fd, Incomplete, n), fd, text, n)
    case Guarded(text) => Offer(cfg, Diagnose(cfg, c, fd, Incomplete, n), fd, text, n)
    case Cleared(_) => c
  }

  function CutAll(cfg: Config, s: Stream, fd: int, pieces: seq<Piece>): Stream {
    if pieces == [] then s
    else Cut(cfg, CutAll(cfg, s, fd, pieces[..|pieces| - 1]), fd, pieces[|pieces| - 1])
  }

  // ----- Critical sections -----

  /** `process_rx_buffer_locked`. */
  ghost function Process(cfg: Config, s: Stream, fd: int, now: int): Stream {
    var (pieces, rest) := Parse(s.rx);
    var c := CutAll(cfg, s, fd, pieces).(rx := rest);
    if rest == [] then c.(timerActive := false)
    else if pieces != [] || !s.timerActive then c.(timerActive := true, startedAt := now)
    else c
  }

  const NANOSECONDS: int := 1_000_000_000

  /** The moment the partial in the buffer has been waited for long enough. */
  function Deadline(cfg: Config, s: Stream): int {
    s.startedAt + cfg.timeoutSeconds * NANOSECONDS
  }

  predicate SizeLimitReached(cfg: Config, s: Stream) {
    cfg.maxKb > 0 && s.rx != [] && |s.rx| >= cfg.maxKb * 1024
  }

  predicate TimeoutReached(cfg: Config, s: Stream, now: int) {
    cfg.timeoutSeconds > 0 && s.timerActive && s.rx != [] && now - s.startedAt >= cfg.timeoutSeconds * NANOSECONDS
  }

  /** `finalize_incomplete_locked`. */
  function Finalize(cfg: Config, s: Stream, fd: int): Stream {
    if s.rx == [] then s.(timerActive := false)
    else Cut(cfg, s.(rx := [], timerActive := false), fd, Guarded(s.rx))
  }

  /** The section that follows a read. */
  ghost function Receive(cfg: Config, s: Stream, fd: int, bytes: Bytes, now: int): Stream {
    var r := Process(cfg, s.(rx := s.rx + bytes, log := s.log.(received := s.log.received + bytes)), fd, now);
    if SizeLimitReached(cfg, r) then Finalize(cfg, r, fd) else r
  }

  /** The section at the top of the guard loop; it reads the clock up to three times. */
  ghost function LoopTop(cfg: Config, s: Stream, fd: int, t0: int, t1: int, t2: int): Stream {
    var p := Process(cfg, s, fd, t0);
    var g := if SizeLimitReached(cfg, p) || TimeoutReached(cfg, p, t1) then Finalize(cfg, p, fd) else p;
    if g.rx != [] && cfg.timeoutSeconds > 0 && t2 >= Deadline(cfg, g) then Finalize(cfg, g, fd) else g
  }

  /** Whether the guard loop goes on after its top section. */
  predicate KeepsWaiting(cfg: Config, s: Stream) {
    s.rx != [] && cfg.timeoutSeconds > 0
  }

  /** Milliseconds to wait for more bytes when the clock shows `now`. */
  function WaitMs(cfg: Config, s: Stream, now: int): (ms: int)
    requires now < Deadline(cfg, s)
    ensures 1 <= ms <= 1000
    ensures ms == 1 || now + ms * 1_000_000 <= Deadline(cfg, s)
    ensures ms == 1000 || Deadline(cfg, s) < now + (ms + 1) * 1_000_000
  {
    var remaining := (Deadline(cfg, s) - now) / 1_000_000;
    var atLeastOne := if remaining > 1 then remaining else 1;
    if atLeastOne < 1000 then atLeastOne else 1000
  }

  /** The section after a poll without data. */
  function PollSilent(cfg: Config, s: Stream, fd: int, now: int): Stream {
    if TimeoutReached(cfg, s, now) then Finalize(cfg, s, fd) else s
  }

  /** The oldest entry leaves the queue. */
  function Take(s: Stream): Stream
    requires s.queue != []
  {
    s.(queue := s.queue[1..], log := s.log.(taken := s.log.taken + [s.queue[0]]))
  }

  /** `next_notification` once it holds the mutex and stopped waiting. */
  function Pop(cfg: Config, s: Stream): Stream {
    if s.queue == [] then s
    else
      var p := Take(s);
      if s.full && !AtMax(cfg, p) then Raise(cfg, p.(full := false), QueueRecovered, -1, 0, 0) else p
  }

  function DropBuffer(s: Stream): Stream {
    s.(rx := [], timerActive := false,
       log := if s.rx == [] then s.log else s.log.(cuts := s.log.cuts + [Cleared(s.rx)]))
  }

  /** `mark_notification_dead`: the queue goes, the full-state stays. */
  function SessionDead(s: Stream): Stream {
    DropBuffer(s).(queue := [], log := DropBuffer(s).log.(taken := s.log.taken + s.queue))
  }

  // ----- Runs -----

  /** One critical section of some thread: reactor, consumer, or whoever subscribes and unsubscribes. */
  datatype Section =
    | OnRead(fd: int, bytes: Bytes, now: int)
    | OnLoopTop(fd: int, t0: int, t1: int, t2: int)
    | OnSilence(fd: int, now: int)
    | OnPop
    | OnDeath
    | OnSubscribe

  ghost function Step(cfg: Config, s: Stream, section: Section): Stream {
    match section
    case OnRead(fd, bytes, now) => Receive(cfg, s, fd, bytes, now)
    case OnLoopTop(fd, t0, t1, t2) => LoopTop(cfg, s, fd, t0, t1, t2)
    case OnSilence(fd, now) => PollSilent(cfg, s, fd, now)
    case OnPop => Pop(cfg, s)
    case OnDeath => SessionDead(s)
    case OnSubscribe => DropBuffer(s)
  }

  /** Any interleaving of critical sections, from `s`. */
  ghost function Steps(cfg: Config, s: Stream, sections: seq<Section>): Stream {
    if sections == [] then s
    else Step(cfg, Steps(cfg, s, sections[..|sections| - 1]), sections[|sections| - 1])
  }

  ghost function Run(cfg: Config, sections: seq<Section>): Stream {
    Steps(cfg, INITIAL, sections)
  }
}
