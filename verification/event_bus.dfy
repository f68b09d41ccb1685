/** The process-wide bus of health events: a bounded queue that drops its oldest event and counts the drops. */
module EventBus {
  /** A health event as far as the bus is concerned: what it carries, and the drop count the bus stamps on it. */
  datatype BusEvent<T> = BusEvent(valid: bool, payload: T, healthEventsDropped: int)

  datatype Bus<T> = Bus(queue: seq<BusEvent<T>>, dropped: nat)

  /** `emit`, under the mutex. */
  function Emit<T>(max: nat, bus: Bus<T>, event: BusEvent<T>): Bus<T>
    requires max > 0
  {
    if |bus.queue| >= max then
      Bus(bus.queue[1..] + [event.(healthEventsDropped := bus.dropped + 1)], bus.dropped + 1)
    else Bus(bus.queue + [event], bus.dropped)
  }

  /** `next_event` once the wait is over; `noEvent` is the payload of a timeout event. */
  function Next<T>(bus: Bus<T>, noEvent: T): (Bus<T>, BusEvent<T>) {
    if bus.queue == [] then (bus, BusEvent(false, noEvent, bus.dropped))
    else (bus.(queue := bus.queue[1..]), bus.queue[0].(healthEventsDropped := bus.dropped))
  }

  // ----- Runs -----

  datatype Op<T> = DoEmit(event: BusEvent<T>) | DoNext | DoClear

  /** A bus with the history since it was last cleared. */
  datatype Past<T> = Past(bus: Bus<T>, emitted: seq<T>, popped: seq<BusEvent<T>>)

  function Do<T>(max: nat, past: Past<T>, op: Op<T>, noEvent: T): Past<T>
    requires max > 0
  {
    match op
    case DoEmit(event) => Past(Emit(max, past.bus, event), past.emitted + [event.payload], past.popped)
    case DoNext =>
      var (bus, event) := Next(past.bus, noEvent);
      Past(bus, past.emitted, if past.bus.queue == [] then past.popped else past.popped + [event])
    case DoClear => Past(Bus([], 0), [], [])
  }

  function Run<T>(max: nat, ops: seq<Op<T>>, noEvent: T): Past<T>
    requires max > 0
  {
    if ops == [] then Past(Bus([], 0), [], [])
    else Do(max, Run(max, ops[..|ops| - 1], noEvent), ops[|ops| - 1], noEvent)
  }

  function Payloads<T>(events: seq<BusEvent<T>>): seq<T> {
    seq(|events|, i requires 0 <= i < |events| => events[i].payload)
  }

  /** The pending events are the last ones emitted, and nothing is unaccounted for. */
  ghost predicate PendingIsSuffix<T>(max: nat, past: Past<T>) {
    && |past.bus.queue| <= max
    && past.bus.dropped + |past.popped| + |past.bus.queue| == |past.emitted|
    && Payloads(past.bus.queue) == past.emitted[past.bus.dropped + |past.popped|..]
  }

  /** The event popped after `k` others was emitted as number `k` + (the drop count it carries). */
  predicate Placed<T(==)>(emitted: seq<T>, dropped: nat, k: nat, event: BusEvent<T>) {
    var lost := event.healthEventsDropped;
    0 <= lost <= dropped && k + lost < |emitted| && emitted[k + lost] == event.payload
  }

  /** Every event popped can be placed, and drop counts never fall. */
  ghost predicate PoppedArePlaced<T>(past: Past<T>) {
    && (forall k :: 0 <= k < |past.popped| ==> Placed(past.emitted, past.bus.dropped, k, past.popped[k]))
    && (forall j, k :: 0 <= j < k < |past.popped| ==>
          past.popped[j].healthEventsDropped <= past.popped[k].healthEventsDropped)
  }

  ghost predicate Indexed<T>(max: nat, past: Past<T>) {
    PendingIsSuffix(max, past) && PoppedArePlaced(past)
  }

  lemma EmitKeepsPending<T>(max: nat, past: Past<T>, event: BusEvent<T>, noEvent: T)
    requires max > 0 && PendingIsSuffix(max, past)
    ensures PendingIsSuffix(max, Do(max, past, DoEmit(event), noEvent))
  {
    hide Payloads;
    EmitShifts(max, past.bus, event);
    var from := past.bus.dropped + |past.popped|;
    assert (past.emitted + [event.payload])[from..] == past.emitted[from..] + [event.payload];
    if |past.bus.queue| >= max {
      assert past.emitted[from..][1..] == past.emitted[from + 1..];
      assert (past.emitted + [event.payload])[from + 1..] == past.emitted[from + 1..] + [event.payload];
    }
  }

  lemma NextKeepsPending<T>(max: nat, past: Past<T>, noEvent: T)
    requires max > 0 && PendingIsSuffix(max, past)
    ensures PendingIsSuffix(max, Do(max, past, DoNext, noEvent))
  {
    if past.bus.queue != [] {
      var from := past.bus.dropped + |past.popped|;
      assert Payloads(past.bus.queue[1..]) == Payloads(past.bus.queue)[1..];
      assert past.emitted[from..][1..] == past.emitted[from + 1..];
    }
  }

  /** The oldest pending event is the first one neither popped nor dropped. */
  lemma OldestPending<T>(max: nat, past: Past<T>)
    requires PendingIsSuffix(max, past) && past.bus.queue != []
    ensures var from := past.bus.dropped + |past.popped|;
      from < |past.emitted| && past.emitted[from] == past.bus.queue[0].payload
  {
    assert Payloads(past.bus.queue)[0] == past.bus.queue[0].payload;
  }

  lemma PlacedStays<T>(emitted: seq<T>, more: seq<T>, dropped: nat, dropped': nat, k: nat, event: BusEvent<T>)
    requires Placed(emitted, dropped, k, event) && dropped <= dropped'
    ensures Placed(emitted + more, dropped', k, event)
  {
  }

  lemma EmitKeepsPlaced<T>(max: nat, past: Past<T>, event: BusEvent<T>, noEvent: T)
    requires max > 0 && PoppedArePlaced(past)
    ensures PoppedArePlaced(Do(max, past, DoEmit(event), noEvent))
  {
    hide Placed;
    var next := Do(max, past, DoEmit(event), noEvent);
    forall k | 0 <= k < |past.popped| ensures Placed(next.emitted, next.bus.dropped, k, next.popped[k]) {
      PlacedStays(past.emitted, [event.payload], past.bus.dropped, next.bus.dropped, k, past.popped[k]);
    }
  }

  lemma NextKeepsPlaced<T>(max: nat, past: Past<T>, noEvent: T)
    requires max > 0 && PendingIsSuffix(max, past) && PoppedArePlaced(past)
    ensures PoppedArePlaced(Do(max, past, DoNext, noEvent))
  {
    hide PendingIsSuffix, Placed;
    if past.bus.queue != [] {
      OldestPending(max, past);
      var next, n := Do(max, past, DoNext, noEvent), |past.popped|;
      JustPlaced(past.emitted, past.bus.dropped, n, next.popped[n]);
      forall k | 0 <= k < n ensures Placed(next.emitted, next.bus.dropped, k, next.popped[k]) {
        assert next.popped[k] == past.popped[k];
      }
      forall k | 0 <= k < n ensures past.popped[k].healthEventsDropped <= past.bus.dropped {
        PlacedBound(past.emitted, past.bus.dropped, k, past.popped[k]);
      }
    }
  }

  lemma JustPlaced<T>(emitted: seq<T>, dropped: nat, k: nat, event: BusEvent<T>)
    requires event.healthEventsDropped == dropped
    requires dropped + k < |emitted| && emitted[dropped + k] == event.payload
    ensures Placed(emitted, dropped, k, event)
  {
  }

  lemma PlacedBound<T>(emitted: seq<T>, dropped: nat, k: nat, event: BusEvent<T>)
    requires Placed(emitted, dropped, k, event)
    ensures event.healthEventsDropped <= dropped
  {
  }

  lemma DoKeepsIndexed<T>(max: nat, past: Past<T>, op: Op<T>, noEvent: T)
    requires max > 0 && Indexed(max, past)
    ensures Indexed(max, Do(max, past, op, noEvent))
  {
    hide PendingIsSuffix, PoppedArePlaced;
    match op
    case DoEmit(event) =>
      EmitKeepsPending(max, past, event, noEvent);
      EmitKeepsPlaced(max, past, event, noEvent);
    case DoNext =>
      NextKeepsPending(max, past, noEvent);
      NextKeepsPlaced(max, past, noEvent);
    case DoClear => NothingPending<T>(max);
  }

  lemma NothingPending<T>(max: nat)
    ensures Indexed(max, Past<T>.Past(Bus([], 0), [], []))
  {
  }

  lemma EmitShifts<T>(max: nat, bus: Bus<T>, event: BusEvent<T>)
    requires max > 0
    ensures Payloads(Emit(max, bus, event).queue)
            == (if |bus.queue| >= max then Payloads(bus.queue)[1..] else Payloads(bus.queue)) + [event.payload]
  {
  }

  /** Event indexing, over whole runs. */
  lemma {:induction false} RunIsIndexed<T>(max: nat, ops: seq<Op<T>>, noEvent: T)
    requires max > 0
    ensures Indexed(max, Run(max, ops, noEvent))
  {
    hide Do, Indexed;
    NothingPending<T>(max);
    if ops != [] {
      RunIsIndexed(max, ops[..|ops| - 1], noEvent);
      DoKeepsIndexed(max, Run(max, ops[..|ops| - 1], noEvent), ops[|ops| - 1], noEvent);
    }
  }

  /** A consumer knows what it missed: between its k-th and its next event exactly as many emissions were
      lost as the drop counts of the two differ by. */
  lemma GapIsDropDifference<T>(max: nat, ops: seq<Op<T>>, noEvent: T, k: nat)
    requires max > 0 && k + 1 < |Run(max, ops, noEvent).popped|
    ensures var p := Run(max, ops, noEvent);
      var missed := p.popped[k + 1].healthEventsDropped - p.popped[k].healthEventsDropped;
      var i := k + p.popped[k].healthEventsDropped;
      && 0 <= missed && 0 <= i && i + 1 + missed < |p.emitted|
      && p.emitted[i] == p.popped[k].payload && p.emitted[i + 1 + missed] == p.popped[k + 1].payload
  {
    hide Run, PendingIsSuffix;
    RunIsIndexed(max, ops, noEvent);
    var p := Run(max, ops, noEvent);
    assert Placed(p.emitted, p.bus.dropped, k, p.popped[k]) && Placed(p.emitted, p.bus.dropped, k + 1, p.popped[k + 1]);
  }

  // ----- The class -----

  /** `max_queue_size_`. */
  const MAX_QUEUE_SIZE: nat := 10000

  class NotificationEventBus<T> {
    var queue: seq<BusEvent<T>>
    var droppedEvents: nat

    ghost function State(): Bus<T>
      reads this
    {
      Bus(queue, droppedEvents)
    }

    constructor ()
      ensures State() == Bus([], 0)
    {
      queue, droppedEvents := [], 0;
    }

    method EmitEvent(event: BusEvent<T>)
      modifies this
      ensures State() == Emit(MAX_QUEUE_SIZE, old(State()), event)
      ensures |old(queue)| < 10000 ==> queue == old(queue) + [event] && droppedEvents == old(droppedEvents)
      ensures |old(queue)| >= 10000 ==>
        && queue[..|queue| - 1] == old(queue)[1..] && droppedEvents == old(droppedEvents) + 1
        && queue[|queue| - 1] == event.(healthEventsDropped := old(droppedEvents) + 1)
    {
      var stamped := event;
      if |queue| >= MAX_QUEUE_SIZE {
        queue := queue[1..];
        droppedEvents := droppedEvents + 1;
        stamped := stamped.(healthEventsDropped := droppedEvents);
      }
      queue := queue + [stamped];
    }

    /** `next_event` at the end of its wait, which with a timeout of -1 only an event ends; timeouts
        below -1 are refused. */
    method NextEvent(timeoutMs: int, noEvent: T) returns (ok: bool, event: BusEvent<T>)
      requires timeoutMs == -1 ==> queue != []
      modifies this
      ensures ok <==> timeoutMs >= -1
      ensures ok ==> (State(), event) == Next(old(State()), noEvent)
      ensures !ok || old(queue) == [] ==> State() == old(State())
      ensures ok && old(queue) == [] ==>
        !event.valid && event.payload == noEvent && event.healthEventsDropped == old(droppedEvents)
      ensures ok && old(queue) != [] ==>
        && event.valid == old(queue)[0].valid && event.payload == old(queue)[0].payload
        && event.healthEventsDropped == old(droppedEvents)
        && queue == old(queue)[1..] && droppedEvents == old(droppedEvents)
    {
      event := BusEvent(false, noEvent, droppedEvents);
      ok := timeoutMs >= -1;
      if ok && queue != [] {
        event := queue[0].(healthEventsDropped := droppedEvents);
        queue := queue[1..];
      }
    }

    method Clear()
      modifies this
      ensures State() == Bus([], 0)
    {
      queue, droppedEvents := [], 0;
    }
  }
}
