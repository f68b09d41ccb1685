/** Picking the least loaded of several queues, as the reactor manager and the thread pool do. */
module LeastLoaded {

  /** The first of the least counts. */
  predicate IsLeast(counts: seq<nat>, best: nat) {
    && best < |counts|
    && (forall j :: 0 <= j < |counts| ==> counts[best] <= counts[j])
    && (forall j :: 0 <= j < best ==> counts[best] < counts[j])
  }

  function Least(counts: seq<nat>): (best: nat)
    requires counts != []
    ensures IsLeast(counts, best)
    ensures best < |counts| && forall j :: 0 <= j < |counts| ==> counts[best] <= counts[j]
    ensures forall j :: 0 <= j < best ==> counts[best] < counts[j]
  {
    if |counts| == 1 then 0
    else
      var rest := Least(counts[..|counts| - 1]);
      if counts[|counts| - 1] < counts[rest] then |counts| - 1 else rest
  }

  lemma LeastIsUnique(counts: seq<nat>, best: nat)
    requires counts != [] && IsLeast(counts, best)
    ensures best == Least(counts)
  {
  }
}
