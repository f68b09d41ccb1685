/** The thread pool as an interleaving of its workers and of the threads that enqueue: every queue has its
    own mutex, and the load counters are atomics read and changed outside it. */
module ThreadPool {
  import opened LeastLoaded

  type Task = nat

  /** `Popped`: between taking a task off the queue and decrementing `inflight`. */
  datatype WorkerAt = Waiting | Popped(task: Task) | Running(task: Task) | Exited

  /** `history` is what was enqueued on the worker and `done` what it has run, both in order. */
  datatype Worker = Worker(tasks: seq<Task>, inflight: int, at: WorkerAt, history: seq<Task>, done: seq<Task>)

  /** `Pushed`: holding the mutex of worker `best`, task queued, `inflight` not incremented yet. */
  datatype CallerAt =
    | Idle
    | Scanning(task: Task, counts: seq<nat>)
    | Chosen(task: Task, best: nat)
    | Pushed(task: Task, best: nat)

  datatype Pool = Pool(workers: seq<Worker>, callers: seq<CallerAt>, stop: bool)

  datatype Action =
    | Call(c: nat, task: Task)  // enters `enqueue`
    | Load(c: nat)              // reads the next `inflight`
    | Choose(c: nat)            // ends the scan
    | Push(c: nat)              // locks and queues
    | Count(c: nat)             // increments and unlocks
    | Pop(w: nat)               // wakes, locks, takes a task, unlocks
    | Uncount(w: nat)           // decrements
    | Finish(w: nat)            // has run the task
    | Exit(w: nat)              // wakes stopped on an empty queue
    | Stop                      // the destructor's flag

  predicate Locked(p: Pool, w: nat) {
    exists c :: 0 <= c < |p.callers| && p.callers[c].Pushed? && p.callers[c].best == w
  }

  predicate Enabled(p: Pool, a: Action) {
    match a
    case Call(c, _) => c < |p.callers| && p.callers[c].Idle?
    case Load(c) => c < |p.callers| && p.callers[c].Scanning? && |p.callers[c].counts| < |p.workers|
                    && p.workers[|p.callers[c].counts|].inflight >= 0
    case Choose(c) => c < |p.callers| && p.callers[c].Scanning? && |p.callers[c].counts| == |p.workers| > 0
    case Push(c) =>
      c < |p.callers| && p.callers[c].Chosen? && p.callers[c].best < |p.workers| && !Locked(p, p.callers[c].best)
    case Count(c) => c < |p.callers| && p.callers[c].Pushed? && p.callers[c].best < |p.workers|
    case Pop(w) => w < |p.workers| && p.workers[w].at.Waiting? && !Locked(p, w) && p.workers[w].tasks != []
    case Uncount(w) => w < |p.workers| && p.workers[w].at.Popped?
    case Finish(w) => w < |p.workers| && p.workers[w].at.Running?
    case Exit(w) => w < |p.workers| && p.workers[w].at.Waiting? && !Locked(p, w) && p.stop && p.workers[w].tasks == []
    case Stop => true
  }

  function SetCaller(p: Pool, c: nat, at: CallerAt): Pool
    requires c < |p.callers|
  {
    p.(callers := p.callers[c := at])
  }

  function SetWorker(p: Pool, w: nat, worker: Worker): Pool
    requires w < |p.workers|
  {
    p.(workers := p.workers[w := worker])
  }

  function Act(p: Pool, a: Action): Pool
    requires Enabled(p, a)
  {
    match a
    case Call(c, task) => SetCaller(p, c, Scanning(task, []))
    case Load(c) =>
      var at := p.callers[c];
      SetCaller(p, c, at.(counts := at.counts + [p.workers[|at.counts|].inflight]))
    case Choose(c) => SetCaller(p, c, Chosen(p.callers[c].task, Least(p.callers[c].counts)))
    case Push(c) =>
      var at := p.callers[c];
      var w := p.workers[at.best];
      SetCaller(SetWorker(p, at.best, w.(tasks := w.tasks + [at.task], history := w.history + [at.task])),
                c, Pushed(at.task, at.best))
    case Count(c) =>
      var at := p.callers[c];
      var w := p.workers[at.best];
      SetCaller(SetWorker(p, at.best, w.(inflight := w.inflight + 1)), c, Idle)
    case Pop(i) =>
      var w := p.workers[i];
      SetWorker(p, i, w.(tasks := w.tasks[1..], at := Popped(w.tasks[0])))
    case Uncount(i) =>
      var w := p.workers[i];
      SetWorker(p, i, w.(inflight := w.inflight - 1, at := Running(w.at.task)))
    case Finish(i) =>
      var w := p.workers[i];
      SetWorker(p, i, w.(at := Waiting, done := w.done + [w.at.task]))
    case Exit(i) => SetWorker(p, i, p.workers[i].(at := Exited))
    case Stop => p.(stop := true)
  }

  // ----- The invariant -----

  function Current(w: Worker): seq<Task> {
    if w.at.Popped? || w.at.Running? then [w.at.task] else []
  }

  /** A worker whose mutex is free: `inflight` counts its queue, and the task in hand until it is uncounted. */
  predicate WorkerOk(w: Worker, locked: bool) {
    && w.inflight == |w.tasks| + (if w.at.Popped? then 1 else 0) - (if locked then 1 else 0)
    && (locked ==> w.tasks != [])
    && w.history == w.done + Current(w) + w.tasks
  }

  ghost predicate Inv(p: Pool) {
    && p.workers != []
    && (forall w :: 0 <= w < |p.workers| ==> WorkerOk(p.workers[w], Locked(p, w)))
    && (forall c :: 0 <= c < |p.callers| && p.callers[c].Scanning? ==> |p.callers[c].counts| <= |p.workers|)
    && (forall c :: 0 <= c < |p.callers| && (p.callers[c].Chosen? || p.callers[c].Pushed?) ==>
          p.callers[c].best < |p.workers|)
    && (forall c, d :: 0 <= c < d < |p.callers| && p.callers[c].Pushed? && p.callers[d].Pushed? ==>
          p.callers[c].best != p.callers[d].best)
  }

  /** Moving one caller changes the lock it takes or gives up, and no other. */
  lemma LockMoves(p: Pool, q: Pool, c: nat, w: nat)
    requires c < |p.callers| == |q.callers| && q.callers == p.callers[c := q.callers[c]]
    ensures Locked(q, w) <==>
      (q.callers[c].Pushed? && q.callers[c].best == w)
      || exists d :: 0 <= d < |p.callers| && d != c && p.callers[d].Pushed? && p.callers[d].best == w
    ensures Locked(p, w) <==>
      (p.callers[c].Pushed? && p.callers[c].best == w)
      || exists d :: 0 <= d < |p.callers| && d != c && p.callers[d].Pushed? && p.callers[d].best == w
  {
    if Locked(q, w) {
      var d :| 0 <= d < |q.callers| && q.callers[d].Pushed? && q.callers[d].best == w;
      assert d != c ==> p.callers[d] == q.callers[d];
    }
    if d :| 0 <= d < |p.callers| && d != c && p.callers[d].Pushed? && p.callers[d].best == w {
      assert q.callers[d] == p.callers[d];
    }
  }

  lemma CallerStepKeepsInv(p: Pool, a: Action)
    requires Inv(p) && Enabled(p, a)
    requires a.Call? || a.Load? || a.Choose? || a.Push? || a.Count?
    ensures Inv(Act(p, a))
  {
    hide WorkerOk, Locked, Least;
    var q := Act(p, a);
    forall w | 0 <= w < |p.workers| ensures WorkerOk(q.workers[w], Locked(q, w)) {
      LockMoves(p, q, a.c, w);
      assert WorkerOk(p.workers[w], Locked(p, w));
      CallerStepKeepsWorker(p, a, w);
    }
    if a.Push? {
      forall d | 0 <= d < |p.callers| && d != a.c && p.callers[d].Pushed?
        ensures p.callers[d].best != p.callers[a.c].best
      {
        LockTaken(p, d);
      }
    }
  }

  lemma LockTaken(p: Pool, c: nat)
    requires c < |p.callers| && p.callers[c].Pushed?
    ensures Locked(p, p.callers[c].best)
  {
  }

  lemma CallerStepKeepsWorker(p: Pool, a: Action, w: nat)
    requires Inv(p) && Enabled(p, a) && w < |p.workers|
    requires a.Call? || a.Load? || a.Choose? || a.Push? || a.Count?
    ensures WorkerOk(Act(p, a).workers[w], Locked(Act(p, a), w))
  {
    hide Locked, Least;
    var q := Act(p, a);
    LockMoves(p, q, a.c, w);
    assert WorkerOk(p.workers[w], Locked(p, w));
    if a.Push? && w == p.callers[a.c].best {
      var x := p.workers[w];
      assert x.done + Current(x) + (x.tasks + [p.callers[a.c].task]) == x.history + [p.callers[a.c].task];
    }
  }

  /** What a worker does to itself keeps its own books, whether or not its mutex is taken. */
  lemma WorkerStepKeepsWorker(p: Pool, a: Action, locked: bool)
    requires Enabled(p, a) && (a.Pop? || a.Uncount? || a.Finish? || a.Exit?)
    requires WorkerOk(p.workers[a.w], locked) && (a.Pop? ==> !locked)
    ensures WorkerOk(Act(p, a).workers[a.w], locked)
  {
    hide Locked;
    var x := p.workers[a.w];
    if a.Pop? {
      assert x.tasks == [x.tasks[0]] + x.tasks[1..];
    }
  }

  lemma WorkerStepKeepsInv(p: Pool, a: Action)
    requires Inv(p) && Enabled(p, a)
    requires a.Pop? || a.Uncount? || a.Finish? || a.Exit?
    ensures Inv(Act(p, a))
  {
    hide Locked, WorkerOk, Current;
    var q := Act(p, a);
    SameCallersSameLocks(p, q);
    WorkerStepKeepsWorker(p, a, Locked(p, a.w));
    forall w | 0 <= w < |p.workers| ensures WorkerOk(q.workers[w], Locked(q, w)) {
      assert WorkerOk(p.workers[w], Locked(p, w));
    }
  }

  lemma SameCallersSameLocks(p: Pool, q: Pool)
    requires p.callers == q.callers
    ensures forall w :: Locked(p, w) <==> Locked(q, w)
  {
  }

  lemma ActKeepsInv(p: Pool, a: Action)
    requires Inv(p) && Enabled(p, a)
    ensures Inv(Act(p, a))
  {
    hide WorkerOk, Locked;
    match a
    case Pop(_) => WorkerStepKeepsInv(p, a);
    case Uncount(_) => WorkerStepKeepsInv(p, a);
    case Finish(_) => WorkerStepKeepsInv(p, a);
    case Exit(_) => WorkerStepKeepsInv(p, a);
    case Stop => SameCallersSameLocks(p, Act(p, a));
    case _ => CallerStepKeepsInv(p, a);
  }

  // ----- Runs -----

  function Fresh(workers: nat, callers: nat): Pool {
    Pool(seq(workers, _ => Worker([], 0, Waiting, [], [])), seq(callers, _ => Idle), false)
  }

  ghost predicate IsRun(pools: seq<Pool>, actions: seq<Action>) {
    && |pools| == |actions| + 1
    && (exists workers: nat, callers: nat :: workers > 0 && pools[0] == Fresh(workers, callers))
    && forall i :: 0 <= i < |actions| ==> Enabled(pools[i], actions[i]) && pools[i + 1] == Act(pools[i], actions[i])
  }

  lemma {:induction false} RunKeepsInv(pools: seq<Pool>, actions: seq<Action>, i: nat)
    requires IsRun(pools, actions) && i < |pools|
    ensures Inv(pools[i])
  {
    hide Act, Enabled;
    if i > 0 {
      RunKeepsInv(pools, actions, i - 1);
      assert pools[i - 1 + 1] == Act(pools[i - 1], actions[i - 1]);
      ActKeepsInv(pools[i - 1], actions[i - 1]);
    }
  }

  /** Outside the mutex `inflight` is the queue length, plus one while the worker is between taking a task
      and uncounting it; inside it, it lags by the one task just queued.  It never goes below zero, and an
      `Uncount` always finds it positive. */
  lemma InflightCountsTheQueue(pools: seq<Pool>, actions: seq<Action>, i: nat, w: nat)
    requires IsRun(pools, actions) && i < |pools| && w < |pools[i].workers|
    ensures var x := pools[i].workers[w];
      && (!Locked(pools[i], w) ==> x.inflight == |x.tasks| + if x.at.Popped? then 1 else 0)
      && x.inflight >= 0
      && (Enabled(pools[i], Uncount(w)) ==> x.inflight >= 1)
  {
    hide Locked, IsRun;
    RunKeepsInv(pools, actions, i);
    assert WorkerOk(pools[i].workers[w], Locked(pools[i], w));
  }

  /** Every worker runs what was enqueued on it, once and in order: what it has run, what it has in hand
      and what waits make up its history. */
  lemma TasksRunInOrder(pools: seq<Pool>, actions: seq<Action>, i: nat, w: nat)
    requires IsRun(pools, actions) && i < |pools| && w < |pools[i].workers|
    ensures var x := pools[i].workers[w]; x.history == x.done + Current(x) + x.tasks
  {
    hide Locked, IsRun;
    RunKeepsInv(pools, actions, i);
    assert WorkerOk(pools[i].workers[w], Locked(pools[i], w));
  }

  /** A worker that exits has run everything ever enqueued on it. */
  lemma ExitLeavesNothing(pools: seq<Pool>, actions: seq<Action>, i: nat, w: nat)
    requires IsRun(pools, actions) && i < |actions| && actions[i] == Exit(w)
    ensures w < |pools[i + 1].workers| && pools[i + 1].workers[w].at.Exited?
    ensures pools[i + 1].workers[w].done == pools[i + 1].workers[w].history
  {
    hide Locked;
    assert Enabled(pools[i], actions[i]) && pools[i + 1] == Act(pools[i], actions[i]);
    TasksRunInOrder(pools, actions, i + 1, w);
  }

  // ----- What an enqueuing thread does -----

  /** At the moments `times`, one after the other from `from` on and before `i`, the load counters of the workers
      0, 1, 2, ... were `counts`. */
  ghost predicate ReadAt(pools: seq<Pool>, from: nat, i: nat, times: seq<nat>, counts: seq<nat>)
    requires i < |pools|
  {
    && |times| == |counts|
    && (forall k :: 0 <= k < |times| ==> from <= times[k] < i)
    && (forall j, k :: 0 <= j < k < |times| ==> times[j] < times[k])
    && forall k :: 0 <= k < |times| ==>
         k < |pools[times[k]].workers| && pools[times[k]].workers[k].inflight == counts[k]
  }

  ghost predicate ReadInTurn(pools: seq<Pool>, from: nat, i: nat, counts: seq<nat>)
    requires i < |pools|
  {
    exists times :: ReadAt(pools, from, i, times, counts)
  }

  lemma ReadInTurnStays(pools: seq<Pool>, from: nat, i: nat, i': nat, counts: seq<nat>)
    requires i <= i' < |pools| && ReadInTurn(pools, from, i, counts)
    ensures ReadInTurn(pools, from, i', counts)
  {
    var times :| ReadAt(pools, from, i, times, counts);
    assert ReadAt(pools, from, i', times, counts);
  }

  lemma ReadOneMore(pools: seq<Pool>, from: nat, i: nat, counts: seq<nat>, count: nat)
    requires from <= i && i + 1 < |pools| && ReadInTurn(pools, from, i, counts)
    requires |counts| < |pools[i].workers| && pools[i].workers[|counts|].inflight == count
    ensures ReadInTurn(pools, from, i + 1, counts + [count])
  {
    var times :| ReadAt(pools, from, i, times, counts);
    assert ReadAt(pools, from, i + 1, times + [i], counts + [count]);
  }

  /** A worker that a caller has chosen was the first of the least loaded by the counts of a complete scan. */
  ghost predicate ChosenByScan(pools: seq<Pool>, from: nat, i: nat, best: nat)
    requires i < |pools|
  {
    exists counts: seq<nat> ::
      && ReadInTurn(pools, from, i, counts) && |counts| == |pools[i].workers| && best < |counts|
      && (forall j :: 0 <= j < |counts| ==> counts[best] <= counts[j])
      && (forall j :: 0 <= j < best ==> counts[best] < counts[j])
  }

  /** The moment at which a thread was last inside `enqueue` with its task and had not read anything. */
  function CalledAt(actions: seq<Action>, c: nat): (r: nat)
    ensures r <= |actions|
  {
    if actions == [] then 0
    else
      var last := actions[|actions| - 1];
      if last.Call? && last.c == c then |actions| else CalledAt(actions[..|actions| - 1], c)
  }

  /** The task it entered with. */
  function LastCalled(actions: seq<Action>, c: nat): seq<Task> {
    var n := CalledAt(actions, c);
    if n > 0 && actions[n - 1].Call? then [actions[n - 1].task] else []
  }

  /** Where a thread stands in a run: with the task it came with, with counts it has read since, and with a worker
      that was the first of the least loaded by such counts. */
  ghost predicate CallerOk(pools: seq<Pool>, actions: seq<Action>, i: nat, c: nat)
    requires i < |pools| && i <= |actions| && c < |pools[i].callers|
  {
    var from := CalledAt(actions[..i], c);
    match pools[i].callers[c]
    case Idle => true
    case Scanning(task, counts) => LastCalled(actions[..i], c) == [task] && ReadInTurn(pools, from, i, counts)
    case Chosen(task, best) => LastCalled(actions[..i], c) == [task] && ChosenByScan(pools, from, i, best)
    case Pushed(task, best) => LastCalled(actions[..i], c) == [task] && ChosenByScan(pools, from, i, best)
  }

  lemma ChosenStays(pools: seq<Pool>, from: nat, i: nat, i': nat, best: nat)
    requires i <= i' < |pools| && |pools[i].workers| == |pools[i'].workers| && ChosenByScan(pools, from, i, best)
    ensures ChosenByScan(pools, from, i', best)
  {
    hide ReadInTurn;
    var counts: seq<nat> :|
      && ReadInTurn(pools, from, i, counts) && |counts| == |pools[i].workers| && best < |counts|
      && (forall j :: 0 <= j < |counts| ==> counts[best] <= counts[j])
      && (forall j :: 0 <= j < best ==> counts[best] < counts[j]);
    ReadInTurnStays(pools, from, i, i', counts);
  }

  lemma ChosenNow(pools: seq<Pool>, from: nat, i: nat, counts: seq<nat>)
    requires i < |pools| && counts != [] && ReadInTurn(pools, from, i, counts) && |counts| == |pools[i].workers|
    ensures ChosenByScan(pools, from, i, Least(counts))
  {
    hide ReadInTurn, Least, IsLeast;
    var best := Least(counts);
    assert best < |counts|;
  }

  lemma SameSizes(p: Pool, a: Action)
    requires Enabled(p, a)
    ensures |Act(p, a).workers| == |p.workers| && |Act(p, a).callers| == |p.callers|
  {
    hide Least, Locked;
  }

  /** A step leaves a thread where it is unless it is its own. */
  lemma OthersStay(p: Pool, a: Action, c: nat)
    requires Enabled(p, a) && c < |p.callers|
    requires (a.Call? || a.Load? || a.Choose? || a.Push? || a.Count?) ==> a.c != c
    ensures Act(p, a).callers[c] == p.callers[c]
  {
    hide Least, Locked;
  }

  lemma LastCalledPush(actions: seq<Action>, i: nat, c: nat)
    requires i < |actions|
    ensures var called := actions[i].Call? && actions[i].c == c;
      && CalledAt(actions[..i + 1], c) == (if called then i + 1 else CalledAt(actions[..i], c))
      && LastCalled(actions[..i + 1], c) == (if called then [actions[i].task] else LastCalled(actions[..i], c))
  {
    assert actions[..i + 1][..i] == actions[..i];
  }

  /** Every choice of `enqueue`, in every run: the thread brings the task it was called with to the first of the
      workers whose load counters were least when it read them. */
  lemma {:induction false} ChoosesLeastLoaded(pools: seq<Pool>, actions: seq<Action>, i: nat, c: nat)
    requires IsRun(pools, actions) && i < |pools| && c < |pools[i].callers|
    ensures CallerOk(pools, actions, i, c)
  {
    hide Act, Enabled, ReadInTurn, ChosenByScan, LastCalled, CalledAt;
    if i > 0 {
      var p, a := pools[i - 1], actions[i - 1];
      assert Enabled(p, a) && pools[i - 1 + 1] == Act(p, a);
      SameSizes(p, a);
      LastCalledPush(actions, i - 1, c);
      ChoosesLeastLoaded(pools, actions, i - 1, c);
      CallerSteps(pools, actions, i - 1, c);
    }
  }

  lemma CallerSteps(pools: seq<Pool>, actions: seq<Action>, i: nat, c: nat)
    requires i + 1 < |pools| && i < |actions| && c < |pools[i].callers|
    requires Enabled(pools[i], actions[i]) && pools[i + 1] == Act(pools[i], actions[i])
    requires |pools[i + 1].callers| == |pools[i].callers| && |pools[i + 1].workers| == |pools[i].workers|
    requires CallerOk(pools, actions, i, c)
    requires var called := actions[i].Call? && actions[i].c == c;
      && CalledAt(actions[..i + 1], c) == (if called then i + 1 else CalledAt(actions[..i], c))
      && LastCalled(actions[..i + 1], c) == (if called then [actions[i].task] else LastCalled(actions[..i], c))
    ensures CallerOk(pools, actions, i + 1, c)
  {
    hide ReadInTurn, ChosenByScan, LastCalled, CalledAt, Least, Locked;
    var p, a, at := pools[i], actions[i], pools[i].callers[c];
    var from := CalledAt(actions[..i], c);
    if (a.Call? || a.Load? || a.Choose? || a.Push? || a.Count?) && a.c == c {
      match a
      case Call(_, task) => NothingRead(pools, i + 1, i + 1);
      case Load(_) => ReadOneMore(pools, from, i, at.counts, p.workers[|at.counts|].inflight);
      case Choose(_) =>
        ChosenNow(pools, from, i, at.counts);
        ChosenStays(pools, from, i, i + 1, Least(at.counts));
      case Push(_) => ChosenStays(pools, from, i, i + 1, at.best);
      case Count(_) =>
    } else {
      OthersStay(p, a, c);
      match at
      case Idle =>
      case Scanning(_, counts) => ReadInTurnStays(pools, from, i, i + 1, counts);
      case Chosen(_, best) => ChosenStays(pools, from, i, i + 1, best);
      case Pushed(_, best) => ChosenStays(pools, from, i, i + 1, best);
    }
  }

  lemma NothingRead(pools: seq<Pool>, from: nat, i: nat)
    requires i < |pools|
    ensures ReadInTurn(pools, from, i, [])
  {
    assert ReadAt(pools, from, i, [], []);
  }

  /** And it is that task that the chosen worker gets, behind everything it had, and no other worker gets anything. */
  lemma TaskGoesToChosen(pools: seq<Pool>, actions: seq<Action>, i: nat, c: nat)
    requires IsRun(pools, actions) && i < |actions| && actions[i] == Push(c)
    ensures c < |pools[i].callers| && pools[i].callers[c].Chosen?
    ensures var best := pools[i].callers[c].best;
      && best < |pools[i].workers| == |pools[i + 1].workers| && ChosenByScan(pools, CalledAt(actions[..i], c), i, best)
      && LastCalled(actions[..i], c) != []
      && pools[i + 1].workers[best].tasks == pools[i].workers[best].tasks + LastCalled(actions[..i], c)
      && pools[i + 1].workers[best].history == pools[i].workers[best].history + LastCalled(actions[..i], c)
      && forall w :: 0 <= w < |pools[i].workers| && w != best ==> pools[i + 1].workers[w] == pools[i].workers[w]
  {
    hide ReadInTurn, ChosenByScan, LastCalled, Locked;
    assert Enabled(pools[i], actions[i]) && pools[i + 1] == Act(pools[i], actions[i]);
    ChoosesLeastLoaded(pools, actions, i, c);
  }

  /** The destructor's flag is set by `Stop` alone, and no worker exits before. */
  lemma {:induction false} StopsExactlyWhenTold(pools: seq<Pool>, actions: seq<Action>, i: nat)
    requires IsRun(pools, actions) && i < |pools|
    ensures pools[i].stop <==> Stop in actions[..i]
    ensures forall w :: 0 <= w < |pools[i].workers| && pools[i].workers[w].at.Exited? ==> Stop in actions[..i]
  {
    hide Least, Locked;
    if i > 0 {
      StopsExactlyWhenTold(pools, actions, i - 1);
      assert Enabled(pools[i - 1], actions[i - 1]) && pools[i - 1 + 1] == Act(pools[i - 1], actions[i - 1]);
      assert actions[..i] == actions[..i - 1] + [actions[i - 1]];
    }
  }

  // ----- Nobody is stuck -----

  /** In every run a thread inside `enqueue` can go on, or waits for a mutex whose holder can go on; and a new task can
      always be brought by a thread that is not inside. */
  lemma CallersGoOn(pools: seq<Pool>, actions: seq<Action>, i: nat, c: nat, task: Task)
    requires IsRun(pools, actions) && i < |pools| && c < |pools[i].callers|
    ensures var p := pools[i];
      match p.callers[c]
      case Idle => Enabled(p, Call(c, task))
      case Scanning(_, counts) => if |counts| < |p.workers| then Enabled(p, Load(c)) else Enabled(p, Choose(c))
      case Chosen(_, best) =>
        Enabled(p, Push(c))
        || exists d :: 0 <= d < |p.callers| && p.callers[d].Pushed? && p.callers[d].best == best && Enabled(p, Count(d))
      case Pushed(_, _) => Enabled(p, Count(c))
  {
    hide IsRun, WorkerOk;
    var p := pools[i];
    RunKeepsInv(pools, actions, i);
    if p.callers[c].Scanning? && |p.callers[c].counts| < |p.workers| {
      InflightCountsTheQueue(pools, actions, i, |p.callers[c].counts|);
    }
  }

  /** A worker with a task in hand can go on; one that waits can take a task as soon as it has one, or leave once told
      to stop and nothing is left, unless a thread holds its mutex. */
  lemma WorkersGoOn(pools: seq<Pool>, actions: seq<Action>, i: nat, w: nat)
    requires IsRun(pools, actions) && i < |pools| && w < |pools[i].workers|
    ensures var p := pools[i];
      match p.workers[w].at
      case Popped(_) => Enabled(p, Uncount(w))
      case Running(_) => Enabled(p, Finish(w))
      case Waiting =>
        (exists d :: 0 <= d < |p.callers| && p.callers[d].Pushed? && p.callers[d].best == w)
        || ((p.workers[w].tasks != [] ==> Enabled(p, Pop(w)))
            && (p.workers[w].tasks == [] && Stop in actions[..i] ==> Enabled(p, Exit(w))))
      case Exited => Stop in actions[..i]
  {
    hide IsRun, WorkerOk;
    StopsExactlyWhenTold(pools, actions, i);
  }

  // ----- The scan of `enqueue` -----

  const SIZE_MAX: nat := 0xffff_ffff_ffff_ffff

  /** The scan over the counts it happened to read: the first of the least. */
  method PickWorker(counts: seq<nat>) returns (best: nat)
    requires counts != [] && forall i :: 0 <= i < |counts| ==> counts[i] <= 0xffff_ffff_ffff_ffff
    ensures best == Least(counts)
    ensures best < |counts| && forall j :: 0 <= j < |counts| ==> counts[best] <= counts[j]
    ensures forall j :: 0 <= j < best ==> counts[best] < counts[j]
  {
    best := 0;
    var bestCount := SIZE_MAX;
    var i := 0;
    while i < |counts|
      invariant 0 <= i <= |counts| && best < |counts| && best <= i
      invariant forall j :: 0 <= j < i ==> bestCount <= counts[j]
      invariant if bestCount < SIZE_MAX then best < i && counts[best] == bestCount else best == 0
      invariant forall j :: 0 <= j < best ==> bestCount < counts[j]
    {
      var count := counts[i];
      if count < bestCount {
        bestCount := count;
        best := i;
      }
      i := i + 1;
    }
    LeastIsUnique(counts, best);
  }
}
