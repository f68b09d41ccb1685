/** Assignment of notification sockets to reactors: always to the least loaded one, and all over again
    when the number of reactors changes. */
module ReactorManager {
  import opened Wrappers
  import opened LeastLoaded

  type Client = nat

  /** The manager's tables. */
  datatype Table = Table(counts: seq<nat>, fdToReactor: map<int, nat>, fdToClient: map<int, Client>)

  function Assign(t: Table, fd: int, client: Client): Table
    requires t.counts != []
  {
    var best := Least(t.counts);
    Table(t.counts[best := t.counts[best] + 1], t.fdToReactor[fd := best], t.fdToClient[fd := client])
  }

  /** `add`: a first reactor is made if there is none; `accepted` says whether the reactor took the socket. */
  function Add(t: Table, fd: int, client: Client, accepted: bool): Table {
    var r := if t.counts == [] then t.(counts := [0]) else t;
    if accepted then Assign(r, fd, client) else r
  }

  /** `remove`. */
  function Remove(t: Table, fd: int): Table {
    if fd !in t.fdToReactor then t
    else
      var i := t.fdToReactor[fd];
      Table(if i < |t.counts| && t.counts[i] > 0 then t.counts[i := t.counts[i] - 1] else t.counts,
            t.fdToReactor - {fd}, t.fdToClient - {fd})
  }

  /** The second half of `set_reactor_count`: place the collected sockets one by one, skipping clients
      that expired meanwhile, until a reactor refuses one. */
  function Place(t: Table, all: seq<(int, Client)>, alive: set<int>, refused: set<int>): (r: (Table, bool))
    requires t.counts != []
    decreases |all|
  {
    if all == [] then (t, true)
    else if all[0].0 !in alive then Place(t, all[1..], alive, refused)
    else if all[0].0 in refused then (t, false)
    else Place(Assign(t, all[0].0, all[0].1), all[1..], alive, refused)
  }

  function Zeros(n: nat): seq<nat> {
    seq(n, _ => 0)
  }

  // ----- Consistency -----

  ghost function FdsOn(t: Table, i: nat): set<int> {
    set fd | fd in t.fdToReactor && t.fdToReactor[fd] == i
  }

  /** Both maps know the same sockets, and every count is the number of sockets on its reactor. */
  ghost predicate Consistent(t: Table) {
    && t.fdToReactor.Keys == t.fdToClient.Keys
    && (forall fd :: fd in t.fdToReactor ==> t.fdToReactor[fd] < |t.counts|)
    && (forall i :: 0 <= i < |t.counts| ==> t.counts[i] == |FdsOn(t, i)|)
  }

  lemma AssignFdsOn(t: Table, fd: int, client: Client, i: nat)
    requires t.counts != []
    ensures var best := Least(t.counts);
      FdsOn(Assign(t, fd, client), i) == if i == best then FdsOn(t, i) + {fd} else FdsOn(t, i) - {fd}
  {
    hide Least;
  }

  /** Assigning keeps the tables consistent exactly when the socket is not registered yet: a second
      registration leaves the old reactor, or the new one, counted once too often. */
  lemma AssignKeepsConsistentExactlyWhenFresh(t: Table, fd: int, client: Client)
    requires t.counts != [] && Consistent(t)
    ensures Consistent(Assign(t, fd, client)) <==> fd !in t.fdToReactor
  {
    hide FdsOn;
    var best := Least(t.counts);
    var a := Assign(t, fd, client);
    forall i | 0 <= i < |t.counts|
      ensures |FdsOn(a, i)| == |FdsOn(t, i)| + (if i == best then 1 else 0)
                               - (if fd in t.fdToReactor && i == t.fdToReactor[fd] then 1 else 0)
    {
      AssignFdsOn(t, fd, client, i);
      OnOwnReactor(t, fd, i);
    }
    if fd in t.fdToReactor {
      assert |FdsOn(a, t.fdToReactor[fd])| != a.counts[t.fdToReactor[fd]];
    }
  }

  lemma OnOwnReactor(t: Table, fd: int, i: nat)
    ensures fd in FdsOn(t, i) <==> fd in t.fdToReactor && t.fdToReactor[fd] == i
  {
  }

  lemma AddKeepsConsistentExactlyWhenFresh(t: Table, fd: int, client: Client, accepted: bool)
    requires Consistent(t)
    ensures Consistent(Add(t, fd, client, accepted)) <==> !accepted || fd !in t.fdToReactor
  {
    hide Assign;
    var r := if t.counts == [] then t.(counts := [0]) else t;
    assert forall fd :: fd in t.fdToReactor ==> t.counts != [];
    assert t.counts == [] ==> FdsOn(r, 0) == {};
    assert forall i :: 0 <= i < |t.counts| ==> FdsOn(r, i) == FdsOn(t, i);
    AssignKeepsConsistentExactlyWhenFresh(r, fd, client);
  }

  lemma RemoveKeepsConsistent(t: Table, fd: int)
    requires Consistent(t)
    ensures Consistent(Remove(t, fd)) && Remove(t, fd).fdToReactor.Keys == t.fdToReactor.Keys - {fd}
  {
    var r := Remove(t, fd);
    forall i: nat | i < |t.counts|
      ensures FdsOn(r, i) == FdsOn(t, i) - {fd}
      ensures (fd in FdsOn(t, i) <==> fd in t.fdToReactor && t.fdToReactor[fd] == i)
    {
    }
  }

  // ----- Balance -----

  predicate Balanced(counts: seq<nat>) {
    forall i, j :: 0 <= i < |counts| && 0 <= j < |counts| ==> counts[i] <= counts[j] + 1
  }

  function Sum(counts: seq<nat>): nat {
    if counts == [] then 0 else Sum(counts[..|counts| - 1]) + counts[|counts| - 1]
  }

  lemma {:induction false} SumOneMore(counts: seq<nat>, k: nat)
    requires k < |counts|
    ensures Sum(counts[k := counts[k] + 1]) == Sum(counts) + 1
  {
    var n := |counts| - 1;
    var more := counts[k := counts[k] + 1];
    if k < n {
      SumOneMore(counts[..n], k);
      assert more[..n] == counts[..n][k := counts[k] + 1];
    } else {
      assert more[..n] == counts[..n];
    }
  }

  lemma {:induction false} SumBetween(counts: seq<nat>, lo: nat)
    requires forall i :: 0 <= i < |counts| ==> lo <= counts[i] <= lo + 1
    ensures |counts| * lo <= Sum(counts) <= |counts| * lo + |counts|
    ensures (exists i :: 0 <= i < |counts| && counts[i] == lo) ==> Sum(counts) < |counts| * lo + |counts|
  {
    if counts != [] {
      var n := |counts| - 1;
      SumBetween(counts[..n], lo);
      assert |counts| * lo == n * lo + lo;
      if i :| 0 <= i < |counts| && counts[i] == lo && i < n {
        assert counts[..n][i] == lo;
      }
    }
  }

  lemma QuotientIs(m: nat, n: nat, q: nat)
    requires n > 0 && n * q <= m < n * q + n
    ensures m / n == q && m % n == m - n * q
  {
    var d := m / n;
    assert m == n * d + m % n;
    if d < q {
      TimesMonotone(n, d + 1, q);
    } else if d > q {
      TimesMonotone(n, q + 1, d);
    }
  }

  lemma TimesMonotone(n: nat, a: int, b: int)
    requires a <= b
    ensures n * a <= n * b
  {
  }

  /** Balanced counts are the floor or the ceiling of the average, and the ceiling only if it is not exact. */
  lemma BalancedIsFloorOrCeiling(counts: seq<nat>, i: nat)
    requires Balanced(counts) && i < |counts|
    ensures var m, n := Sum(counts), |counts|;
      counts[i] == m / n || (counts[i] == m / n + 1 && m % n != 0)
  {
    var best := Least(counts);
    SumBetween(counts, counts[best]);
    QuotientIs(Sum(counts), |counts|, counts[best]);
    if Sum(counts) == |counts| * counts[best] {
      AllLeast(counts, counts[best], i);
    }
  }

  lemma {:induction false} AllLeast(counts: seq<nat>, lo: nat, i: nat)
    requires forall j :: 0 <= j < |counts| ==> lo <= counts[j] <= lo + 1
    requires Sum(counts) == |counts| * lo && i < |counts|
    ensures counts[i] == lo
  {
    var n := |counts| - 1;
    SumBetween(counts[..n], lo);
    assert |counts| * lo == n * lo + lo;
    if i < n {
      AllLeast(counts[..n], lo, i);
    }
  }

  /** What the greedy placement keeps: consistency, balance, and as many counted as registered. */
  ghost predicate Placed(t: Table) {
    t.counts != [] && Consistent(t) && Balanced(t.counts) && Sum(t.counts) == |t.fdToReactor|
  }

  predicate Distinct(all: seq<(int, Client)>) {
    forall i, j :: 0 <= i < j < |all| ==> all[i].0 != all[j].0
  }

  ghost function Survivors(all: seq<(int, Client)>, alive: set<int>): set<int> {
    set i | 0 <= i < |all| && all[i].0 in alive :: all[i].0
  }

  lemma OneMoreKey(m: map<int, nat>, fd: int, i: nat)
    requires fd !in m
    ensures |m[fd := i]| == |m| + 1
  {
    assert m[fd := i].Keys == m.Keys + {fd};
  }

  lemma OneMoreOnLeastKeepsBalanced(counts: seq<nat>)
    requires counts != [] && Balanced(counts)
    ensures Balanced(counts[Least(counts) := counts[Least(counts)] + 1])
  {
    hide Least;
  }

  lemma AssignKeepsPlaced(t: Table, fd: int, client: Client)
    requires Placed(t) && fd !in t.fdToReactor
    ensures Placed(Assign(t, fd, client))
  {
    hide Consistent, Sum, Least, IsLeast, Balanced, FdsOn;
    OneMoreOnLeastKeepsBalanced(t.counts);
    AssignKeepsConsistentExactlyWhenFresh(t, fd, client);
    SumOneMore(t.counts, Least(t.counts));
    OneMoreKey(t.fdToReactor, fd, Least(t.counts));
  }

  lemma {:induction false} PlaceKeepsPlaced(t: Table, all: seq<(int, Client)>, alive: set<int>, refused: set<int>)
    requires Placed(t) && Distinct(all)
    requires forall i :: 0 <= i < |all| ==> all[i].0 !in t.fdToReactor
    ensures var (r, ok) := Place(t, all, alive, refused);
      && Placed(r) && |r.counts| == |t.counts|
      && (ok ==> r.fdToReactor.Keys == t.fdToReactor.Keys + Survivors(all, alive))
    decreases |all|
  {
    hide Placed;
    assert t.counts != [] by { PlacedHasReactors(t); }
    if all == [] {
      assert Survivors(all, alive) == {};
    } else {
      var fd := all[0].0;
      assert Survivors(all, alive) == (if fd in alive then {fd} else {}) + Survivors(all[1..], alive) by {
        SurvivorsCons(all, alive);
      }
      if fd !in alive {
        PlaceKeepsPlaced(t, all[1..], alive, refused);
      } else if fd !in refused {
        AssignKeepsPlaced(t, fd, all[0].1);
        PlaceKeepsPlaced(Assign(t, fd, all[0].1), all[1..], alive, refused);
      }
    }
  }

  lemma PlacedHasReactors(t: Table)
    requires Placed(t)
    ensures t.counts != []
  {
  }

  lemma SurvivorsCons(all: seq<(int, Client)>, alive: set<int>)
    requires all != []
    ensures Survivors(all, alive) == (if all[0].0 in alive then {all[0].0} else {}) + Survivors(all[1..], alive)
  {
    forall fd | fd in Survivors(all, alive)
      ensures fd in (if all[0].0 in alive then {all[0].0} else {}) + Survivors(all[1..], alive)
    {
      var i :| 0 <= i < |all| && all[i].0 in alive && all[i].0 == fd;
      assert i > 0 ==> all[1..][i - 1] == all[i];
    }
    forall fd | fd in Survivors(all[1..], alive) ensures fd in Survivors(all, alive) {
      var i :| 0 <= i < |all[1..]| && all[1..][i].0 in alive && all[1..][i].0 == fd;
      assert all[i + 1].0 == fd;
    }
  }

  lemma {:induction false} SumOfZeros(n: nat)
    ensures Sum(Zeros(n)) == 0
  {
    if n > 0 {
      assert Zeros(n)[..n - 1] == Zeros(n - 1);
      SumOfZeros(n - 1);
    }
  }

  lemma NothingPlaced(n: nat)
    requires n > 0
    ensures Placed(Table(Zeros(n), map[], map[]))
  {
    var t := Table(Zeros(n), map[], map[]);
    SumOfZeros(n);
    assert forall i :: 0 <= i < n ==> FdsOn(t, i) == {};
  }

  /** Rebuild balance: with m sockets placed on n reactors every reactor holds floor(m/n) or ceil(m/n) of
      them, and after a rebuild that no reactor refused the sockets registered are exactly those whose
      client is still alive. */
  lemma RebuildBalances(n: nat, all: seq<(int, Client)>, alive: set<int>, refused: set<int>, i: nat)
    requires 0 < n && i < n && Distinct(all)
    ensures var (t, ok) := Place(Table(Zeros(n), map[], map[]), all, alive, refused);
      var m := |t.fdToReactor|;
      && Consistent(t) && |t.counts| == n && m == Sum(t.counts)
      && (|FdsOn(t, i)| == m / n || (|FdsOn(t, i)| == m / n + 1 && m % n != 0))
      && (ok ==> t.fdToReactor.Keys == Survivors(all, alive))
  {
    hide Sum, FdsOn, Place;
    var empty := Table(Zeros(n), map[], map[]);
    NothingPlaced(n);
    PlaceKeepsPlaced(empty, all, alive, refused);
    var t := Place(empty, all, alive, refused).0;
    BalancedIsFloorOrCeiling(t.counts, i);
  }

  // ----- Clients -----

  /** Every socket in `m` has the client it has in `clients`. */
  ghost predicate ClientsFrom(m: map<int, Client>, clients: map<int, Client>) {
    forall fd :: fd in m ==> fd in clients && m[fd] == clients[fd]
  }

  ghost predicate PairsFrom(all: seq<(int, Client)>, clients: map<int, Client>) {
    forall i :: 0 <= i < |all| ==> all[i].0 in clients && all[i].1 == clients[all[i].0]
  }

  lemma {:induction false} PlaceKeepsClients(t: Table, all: seq<(int, Client)>, alive: set<int>, refused: set<int>,
                                             clients: map<int, Client>)
    requires t.counts != [] && ClientsFrom(t.fdToClient, clients) && PairsFrom(all, clients)
    ensures ClientsFrom(Place(t, all, alive, refused).0.fdToClient, clients)
    decreases |all|
  {
    hide Least;
    if all != [] {
      if all[0].0 !in alive {
        PlaceKeepsClients(t, all[1..], alive, refused, clients);
      } else if all[0].0 !in refused {
        PlaceKeepsClients(Assign(t, all[0].0, all[0].1), all[1..], alive, refused, clients);
      }
    }
  }

  /** A placement that fails has placed what comes before the first living client whose socket is refused. */
  lemma {:induction false} PlaceStops(t: Table, all: seq<(int, Client)>, alive: set<int>, refused: set<int>)
    returns (k: nat)
    requires t.counts != [] && !Place(t, all, alive, refused).1
    ensures k < |all| && all[k].0 in alive && all[k].0 in refused
    ensures forall i :: 0 <= i < k && all[i].0 in alive ==> all[i].0 !in refused
    ensures Place(t, all[..k], alive, refused) == (Place(t, all, alive, refused).0, true)
    decreases |all|
  {
    hide Assign;
    if all[0].0 !in alive {
      var j := PlaceStops(t, all[1..], alive, refused);
      k := j + 1;
      assert all[..k][0] == all[0] && all[..k][1..] == all[1..][..j];
    } else if all[0].0 in refused {
      k := 0;
    } else {
      AssignHasReactors(t, all[0].0, all[0].1);
      var j := PlaceStops(Assign(t, all[0].0, all[0].1), all[1..], alive, refused);
      k := j + 1;
      assert all[..k][0] == all[0] && all[..k][1..] == all[1..][..j];
    }
  }

  lemma {:induction false} PlaceSucceeds(t: Table, all: seq<(int, Client)>, alive: set<int>, refused: set<int>)
    requires t.counts != [] && Place(t, all, alive, refused).1
    ensures forall i :: 0 <= i < |all| && all[i].0 in alive ==> all[i].0 !in refused
    decreases |all|
  {
    hide Assign;
    if all != [] {
      if all[0].0 in alive {
        AssignHasReactors(t, all[0].0, all[0].1);
        PlaceSucceeds(Assign(t, all[0].0, all[0].1), all[1..], alive, refused);
      } else {
        PlaceSucceeds(t, all[1..], alive, refused);
      }
      forall i | 0 <= i < |all| && all[i].0 in alive ensures all[i].0 !in refused {
        assert i > 0 ==> all[i] == all[1..][i - 1];
      }
    }
  }

  // ----- The class -----

  /** The sockets of a rebuild, in the order the map is walked, whose client has not expired. */
  function Collected(clients: map<int, Client>, order: seq<int>, alive: set<int>): seq<(int, Client)>
    requires forall i :: 0 <= i < |order| ==> order[i] in clients
  {
    if order == [] then []
    else
      var fd := order[|order| - 1];
      Collected(clients, order[..|order| - 1], alive) + if fd in alive then [(fd, clients[fd])] else []
  }

  /** `order` walks the map: every key once. */
  ghost predicate Walks(order: seq<int>, clients: map<int, Client>) {
    && (forall i :: 0 <= i < |order| ==> order[i] in clients)
    && (forall fd :: fd in clients ==> fd in order)
    && (forall i, j :: 0 <= i < j < |order| ==> order[i] != order[j])
  }

  lemma {:induction false} CollectedOnce(clients: map<int, Client>, order: seq<int>, alive: set<int>)
    requires forall i :: 0 <= i < |order| ==> order[i] in clients
    requires forall i, j :: 0 <= i < j < |order| ==> order[i] != order[j]
    ensures Distinct(Collected(clients, order, alive))
    ensures forall k :: 0 <= k < |Collected(clients, order, alive)| ==>
              Collected(clients, order, alive)[k].0 in order && Collected(clients, order, alive)[k].0 in alive
    ensures forall fd :: fd in order && fd in alive ==> exists k :: 0 <= k < |Collected(clients, order, alive)|
                                                         && Collected(clients, order, alive)[k].0 == fd
  {
    if order != [] {
      var n := |order| - 1;
      var init := Collected(clients, order[..n], alive);
      var all := Collected(clients, order, alive);
      CollectedOnce(clients, order[..n], alive);
      assert forall k :: 0 <= k < |init| ==> all[k] == init[k];
      forall fd | fd in order && fd in alive ensures exists k :: 0 <= k < |all| && all[k].0 == fd {
        if fd == order[n] {
          assert all[|init|].0 == fd;
        } else {
          assert fd in order[..n];
          var k :| 0 <= k < |init| && init[k].0 == fd;
          assert all[k].0 == fd;
        }
      }
    }
  }

  lemma {:induction false} CollectedPairs(clients: map<int, Client>, order: seq<int>, alive: set<int>)
    requires forall i :: 0 <= i < |order| ==> order[i] in clients
    ensures PairsFrom(Collected(clients, order, alive), clients)
  {
    if order != [] {
      CollectedPairs(clients, order[..|order| - 1], alive);
    }
  }

  /** What was collected before the pair `k` is what is collected from the sockets before its own. */
  lemma {:induction false} CollectedInFront(clients: map<int, Client>, order: seq<int>, alive: set<int>, k: nat)
    returns (j: nat)
    requires forall i :: 0 <= i < |order| ==> order[i] in clients
    requires k < |Collected(clients, order, alive)|
    ensures j < |order| && order[j] in alive && order[j] == Collected(clients, order, alive)[k].0
    ensures Collected(clients, order[..j], alive) == Collected(clients, order, alive)[..k]
  {
    var n := |order| - 1;
    var init := Collected(clients, order[..n], alive);
    if k < |init| {
      j := CollectedInFront(clients, order[..n], alive, k);
      assert order[..n][..j] == order[..j];
      assert init[..k] == Collected(clients, order, alive)[..k];
    } else {
      j := n;
      assert init == Collected(clients, order, alive)[..k];
    }
  }

  /** The sockets among the first `k` that are walked whose clients live both times. */
  ghost function Living(order: seq<int>, k: nat, alive: set<int>, stillAlive: set<int>): set<int>
    requires k <= |order|
  {
    set i | 0 <= i < k && order[i] in alive && order[i] in stillAlive :: order[i]
  }

  lemma SurvivorsLive(clients: map<int, Client>, order: seq<int>, k: nat, alive: set<int>, stillAlive: set<int>)
    requires Walks(order, clients) && k <= |order|
    ensures Survivors(Collected(clients, order[..k], alive), stillAlive) == Living(order, k, alive, stillAlive)
    ensures Distinct(Collected(clients, order[..k], alive))
  {
    hide Collected;
    var front := order[..k];
    CollectedOnce(clients, front, alive);
    var all := Collected(clients, front, alive);
    forall fd | fd in Living(order, k, alive, stillAlive) ensures fd in Survivors(all, stillAlive) {
      var i :| 0 <= i < k && order[i] in alive && order[i] in stillAlive && order[i] == fd;
      assert front[i] == fd;
      var j :| 0 <= j < |all| && all[j].0 == fd;
    }
    forall fd | fd in Survivors(all, stillAlive) ensures fd in Living(order, k, alive, stillAlive) {
      var j :| 0 <= j < |all| && all[j].0 in stillAlive && all[j].0 == fd;
      assert fd in front;
    }
  }

  /** Which sockets are registered when a rebuild ends early: those walked before the first refused one. */
  lemma RebuildStops(n: nat, clients: map<int, Client>, order: seq<int>, alive: set<int>, stillAlive: set<int>,
                     refused: set<int>) returns (k: nat)
    requires n > 0 && Walks(order, clients)
    requires !Place(Table(Zeros(n), map[], map[]), Collected(clients, order, alive), stillAlive, refused).1
    ensures k < |order| && order[k] in alive && order[k] in stillAlive && order[k] in refused
    ensures forall fd :: fd in Living(order, k, alive, stillAlive) ==> fd !in refused
    ensures var t := Place(Table(Zeros(n), map[], map[]), Collected(clients, order, alive), stillAlive, refused).0;
      t.fdToReactor.Keys == Living(order, k, alive, stillAlive)
  {
    hide Place, Collected, Placed;
    var empty, all := Table(Zeros(n), map[], map[]), Collected(clients, order, alive);
    var j := PlaceStops(empty, all, stillAlive, refused);
    k := CollectedInFront(clients, order, alive, j);
    SurvivorsLive(clients, order, k, alive, stillAlive);
    NothingPlaced(n);
    PlaceKeepsPlaced(empty, all[..j], stillAlive, refused);
    PlaceSucceeds(empty, all[..j], stillAlive, refused);
  }

  lemma CollectedSurvivors(clients: map<int, Client>, order: seq<int>, alive: set<int>, stillAlive: set<int>)
    requires Walks(order, clients)
    ensures Distinct(Collected(clients, order, alive))
    ensures Survivors(Collected(clients, order, alive), stillAlive) == clients.Keys * alive * stillAlive
  {
    hide Collected;
    CollectedOnce(clients, order, alive);
    var all := Collected(clients, order, alive);
    forall fd | fd in clients.Keys * alive * stillAlive ensures fd in Survivors(all, stillAlive) {
      var k :| 0 <= k < |all| && all[k].0 == fd;
    }
  }

  datatype RebuildOutcome = BadCount | Rebuilt | Refused

  class NotificationReactorManager {
    var deviceCounts: seq<nat>
    var fdToReactor: map<int, nat>
    var fdToClient: map<int, Client>

    ghost function State(): Table
      reads this
    {
      Table(deviceCounts, fdToReactor, fdToClient)
    }

    constructor ()
      ensures State() == Table([], map[], map[]) && Consistent(State())
    {
      deviceCounts, fdToReactor, fdToClient := [], map[], map[];
    }

    /** `std::min_element` over the device counts. */
    method LeastLoaded() returns (best: nat)
      requires deviceCounts != []
      ensures best == Least(deviceCounts)
    {
      best := 0;
      var i := 1;
      while i < |deviceCounts|
        invariant 1 <= i <= |deviceCounts| && best < i
        invariant forall j :: 0 <= j < i ==> deviceCounts[best] <= deviceCounts[j]
        invariant forall j :: 0 <= j < best ==> deviceCounts[best] < deviceCounts[j]
      {
        if deviceCounts[i] < deviceCounts[best] {
          best := i;
        }
        i := i + 1;
      }
      assert IsLeast(deviceCounts, best);
    }

    method Register(fd: int, client: Client)
      requires deviceCounts != []
      modifies this
      ensures State() == Assign(old(State()), fd, client)
      ensures fdToClient == old(fdToClient)[fd := client]
    {
      var best := LeastLoaded();
      fdToReactor := fdToReactor[fd := best];
      fdToClient := fdToClient[fd := client];
      deviceCounts := deviceCounts[best := deviceCounts[best] + 1];
    }

    /** `add` for a live client; `accepted` is the answer of the chosen reactor. */
    method AddFd(fd: int, client: Client, accepted: bool)
      requires Consistent(State())
      modifies this
      ensures State() == Add(old(State()), fd, client, accepted)
      ensures Consistent(State()) <==> !accepted || fd !in old(fdToReactor)
      ensures accepted ==> fdToClient == old(fdToClient)[fd := client]
      ensures accepted ==>
        var counts := if old(deviceCounts) == [] then [0] else old(deviceCounts);
        && fd in fdToReactor && fdToReactor == old(fdToReactor)[fd := fdToReactor[fd]]
        && fdToReactor[fd] < |counts|
        && (forall j :: 0 <= j < |counts| ==> counts[fdToReactor[fd]] <= counts[j])
        && (forall j :: 0 <= j < fdToReactor[fd] ==> counts[fdToReactor[fd]] < counts[j])
      ensures !accepted ==>
        && fdToClient == old(fdToClient) && fdToReactor == old(fdToReactor)
        && deviceCounts == if old(deviceCounts) == [] then [0] else old(deviceCounts)
    {
      AddKeepsConsistentExactlyWhenFresh(State(), fd, client, accepted);
      if deviceCounts == [] {
        deviceCounts := [0];
      }
      if accepted {
        Register(fd, client);
      }
    }

    method RemoveFd(fd: int)
      requires Consistent(State())
      modifies this
      ensures State() == Remove(old(State()), fd) && Consistent(State())
      ensures fdToReactor == old(fdToReactor) - {fd} && fdToClient == old(fdToClient) - {fd}
    {
      RemoveKeepsConsistent(State(), fd);
      if fd !in fdToReactor {
        return;
      }
      var i := fdToReactor[fd];
      fdToReactor := fdToReactor - {fd};
      fdToClient := fdToClient - {fd};
      if i < |deviceCounts| && deviceCounts[i] > 0 {
        deviceCounts := deviceCounts[i := deviceCounts[i] - 1];
      }
    }

    method Collect(order: seq<int>, alive: set<int>) returns (all: seq<(int, Client)>)
      requires Walks(order, fdToClient)
      ensures all == Collected(fdToClient, order, alive)
    {
      all := [];
      var i := 0;
      assert order[..0] == [];
      while i < |order|
        invariant 0 <= i <= |order|
        invariant all == Collected(fdToClient, order[..i], alive)
      {
        assert order[..i + 1][..i] == order[..i];
        if order[i] in alive {
          all := all + [(order[i], fdToClient[order[i]])];
        }
        i := i + 1;
      }
      assert order[..i] == order;
    }

    method PlaceAll(all: seq<(int, Client)>, alive: set<int>, refused: set<int>) returns (ok: bool)
      requires deviceCounts != []
      modifies this
      ensures (State(), ok) == Place(old(State()), all, alive, refused)
    {
      hide Assign;
      var i := 0;
      while i < |all|
        invariant 0 <= i <= |all| && deviceCounts != []
        invariant Place(old(State()), all, alive, refused) == Place(State(), all[i..], alive, refused)
      {
        assert all[i..][1..] == all[i + 1..];
        if all[i].0 in alive {
          if all[i].0 in refused {
            return false;
          }
          AssignHasReactors(State(), all[i].0, all[i].1);
          Register(all[i].0, all[i].1);
        }
        i := i + 1;
      }
      return true;
    }

    /** `set_reactor_count`: `order` is the order in which the socket map is walked, `alive` and `stillAlive`
        say which clients have not expired when they are collected and when they are placed, and `refused`
        which sockets the new reactors throw on. */
    method SetReactorCount(newCount: nat, order: seq<int>, alive: set<int>, stillAlive: set<int>, refused: set<int>)
      returns (outcome: RebuildOutcome)
      requires Walks(order, fdToClient)
      modifies this
      ensures outcome.BadCount? <==> newCount == 0
      ensures outcome.BadCount? ==> State() == old(State())
      ensures newCount > 0 ==>
        && (State(), outcome.Rebuilt?) == Place(Table(Zeros(newCount), map[], map[]),
                                                Collected(old(fdToClient), order, alive), stillAlive, refused)
        && Consistent(State()) && |deviceCounts| == newCount && Balanced(deviceCounts)
      ensures newCount > 0 ==> forall fd :: fd in fdToClient ==>
        fd in old(fdToClient) && fdToClient[fd] == old(fdToClient)[fd]
      ensures outcome.Rebuilt? ==> fdToReactor.Keys == old(fdToClient.Keys) * alive * stillAlive
      ensures outcome.Refused? ==> exists k ::
        && 0 <= k < |order| && order[k] in alive && order[k] in stillAlive && order[k] in refused
        && (forall fd :: fd in Living(order, k, alive, stillAlive) ==> fd !in refused)
        && fdToReactor.Keys == Living(order, k, alive, stillAlive)
    {
      hide Consistent, FdsOn, Place, Collected, Sum, Walks, Survivors, Distinct, Living;
      if newCount == 0 {
        return BadCount;
      }
      var all := Collect(order, alive);
      CollectedSurvivors(fdToClient, order, alive, stillAlive);
      RebuildKeepsClients(newCount, fdToClient, order, alive, stillAlive, refused);
      ghost var clients := fdToClient;
      fdToReactor, fdToClient := map[], map[];
      deviceCounts := Zeros(newCount);
      NothingPlaced(newCount);
      PlaceKeepsPlaced(State(), all, stillAlive, refused);
      var ok := PlaceAll(all, stillAlive, refused);
      if !ok {
        ghost var k := RebuildStops(newCount, clients, order, alive, stillAlive, refused);
        return Refused;
      }
      return Rebuilt;
    }
  }

  lemma RebuildKeepsClients(n: nat, clients: map<int, Client>, order: seq<int>, alive: set<int>, stillAlive: set<int>,
                            refused: set<int>)
    requires n > 0 && Walks(order, clients)
    ensures ClientsFrom(
              Place(Table(Zeros(n), map[], map[]), Collected(clients, order, alive), stillAlive, refused).0.fdToClient,
              clients)
  {
    hide Place, Collected;
    CollectedPairs(clients, order, alive);
    PlaceKeepsClients(Table(Zeros(n), map[], map[]), Collected(clients, order, alive), stillAlive, refused, clients);
  }

  lemma AssignHasReactors(t: Table, fd: int, client: Client)
    requires t.counts != []
    ensures Assign(t, fd, client).counts != []
  {
  }

  // ----- Runs -----

  datatype Op =
    | DoAdd(fd: int, client: Client, accepted: bool)
    | DoRemove(fd: int)
    | DoRebuild(newCount: nat, order: seq<int>, alive: set<int>, stillAlive: set<int>, refused: set<int>)

  /** What the callers of the manager owe it: sockets added are new, and the map is walked as it is. */
  ghost predicate Allowed(t: Table, op: Op) {
    match op
    case DoAdd(fd, client, accepted) => fd !in t.fdToReactor
    case DoRemove(fd) => true
    case DoRebuild(newCount, order, alive, stillAlive, refused) => Walks(order, t.fdToClient)
  }

  ghost function Do(t: Table, op: Op): Table
    requires Allowed(t, op)
  {
    match op
    case DoAdd(fd, client, accepted) => Add(t, fd, client, accepted)
    case DoRemove(fd) => Remove(t, fd)
    case DoRebuild(newCount, order, alive, stillAlive, refused) =>
      if newCount == 0 then t
      else Place(Table(Zeros(newCount), map[], map[]), Collected(t.fdToClient, order, alive), stillAlive, refused).0
  }

  /** `tables` is a run of the manager from its empty state under `ops`. */
  ghost predicate IsRun(tables: seq<Table>, ops: seq<Op>) {
    && |tables| == |ops| + 1 && tables[0] == Table([], map[], map[])
    && forall i :: 0 <= i < |ops| ==> Allowed(tables[i], ops[i]) && tables[i + 1] == Do(tables[i], ops[i])
  }

  /** In every run both maps know the same sockets and every device count is the number of sockets mapped
      to that reactor. */
  lemma {:induction false} RunsStayConsistent(tables: seq<Table>, ops: seq<Op>, i: nat)
    requires IsRun(tables, ops) && i < |tables|
    ensures Consistent(tables[i])
  {
    hide Consistent, Place, Add, Remove, Collected;
    if i == 0 {
      assert Consistent(Table([], map[], map[])) by { EmptyIsConsistent(); }
    } else {
      RunsStayConsistent(tables, ops, i - 1);
      var t, op := tables[i - 1], ops[i - 1];
      assert tables[i - 1 + 1] == Do(t, op);
      match op
      case DoAdd(fd, client, accepted) => AddKeepsConsistentExactlyWhenFresh(t, fd, client, accepted);
      case DoRemove(fd) => RemoveKeepsConsistent(t, fd);
      case DoRebuild(newCount, order, alive, stillAlive, refused) =>
        if newCount > 0 {
          CollectedSurvivors(t.fdToClient, order, alive, stillAlive);
          RebuildBalances(newCount, Collected(t.fdToClient, order, alive), stillAlive, refused, 0);
        }
    }
  }

  lemma EmptyIsConsistent()
    ensures Consistent(Table([], map[], map[]))
  {
  }

  /** The client with which a socket was last added. */
  function LastAdded(ops: seq<Op>, fd: int): Option<Client> {
    if ops == [] then None
    else
      var last := ops[|ops| - 1];
      if last.DoAdd? && last.accepted && last.fd == fd then Some(last.client) else LastAdded(ops[..|ops| - 1], fd)
  }

  /** In every run a registered socket has the client with which it was last added, rebuilds or not. */
  lemma {:induction false} RunsKeepClients(tables: seq<Table>, ops: seq<Op>, i: nat, fd: int)
    requires IsRun(tables, ops) && i < |tables| && fd in tables[i].fdToClient
    ensures LastAdded(ops[..i], fd) == Some(tables[i].fdToClient[fd])
  {
    hide Place, Collected, Least;
    if i > 0 {
      var t, op := tables[i - 1], ops[i - 1];
      assert tables[i - 1 + 1] == Do(t, op);
      assert ops[..i][..i - 1] == ops[..i - 1];
      if op.DoRebuild? && op.newCount > 0 {
        RebuildKeepsClients(op.newCount, t.fdToClient, op.order, op.alive, op.stillAlive, op.refused);
      }
      if fd in t.fdToClient {
        RunsKeepClients(tables, ops, i - 1, fd);
      }
    }
  }
}
