/** Demand paging on bare page sets.

    A run from position `t` of a trace is the sequence of resident sets before references
    t, t+1, ..., and after the last one.  The only freedom a run has is the choice of victim
    on a miss in a full memory, which is the only freedom the simulator's replacement
    algorithms have. */
module Belady {
  /** The first position at or after `t` where page `p` is referenced; `|trace|` if there is none. */
  function NextUse(trace: seq<nat>, t: nat, p: nat): (k: nat)
    requires t <= |trace|
    ensures t <= k <= |trace|
    ensures k < |trace| ==> trace[k] == p
    ensures forall i :: t <= i < k ==> trace[i] != p
    decreases |trace| - t
  {
    if t == |trace| || trace[t] == p then t else NextUse(trace, t + 1, p)
  }

  /** One reference to page `p`, with any victim. */
  ghost predicate Step(m: nat, R: set<nat>, p: nat, R': set<nat>) {
    if p in R then R' == R
    else if |R| < m then R' == R + {p}
    else exists v :: v in R && R' == R - {v} + {p}
  }

  ghost predicate Legal(m: nat, trace: seq<nat>, t: nat, run: seq<set<nat>>)
    requires t <= |trace|
  {
    && |run| == |trace| - t + 1
    && forall i :: 0 <= i < |trace| - t ==> Step(m, run[i], trace[t + i], run[i + 1])
  }

  /** `v` is a resident page that no resident page outlives: its next use is latest. */
  ghost predicate IsFarthest(trace: seq<nat>, t: nat, R: set<nat>, v: nat)
    requires t <= |trace|
  {
    v in R && forall q :: q in R ==> NextUse(trace, t, q) <= NextUse(trace, t, v)
  }

  ghost predicate FarthestStep(m: nat, trace: seq<nat>, t: nat, R: set<nat>, R': set<nat>)
    requires t < |trace|
  {
    if trace[t] in R then R' == R
    else if |R| < m then R' == R + {trace[t]}
    else exists v :: IsFarthest(trace, t, R, v) && R' == R - {v} + {trace[t]}
  }

  ghost predicate FarthestRun(m: nat, trace: seq<nat>, t: nat, run: seq<set<nat>>)
    requires t <= |trace|
  {
    && |run| == |trace| - t + 1
    && forall i :: 0 <= i < |trace| - t ==> FarthestStep(m, trace, t + i, run[i], run[i + 1])
  }

  function Misses(trace: seq<nat>, t: nat, run: seq<set<nat>>): nat
    requires t <= |trace| && |run| == |trace| - t + 1
    decreases |trace| - t
  {
    if t == |trace| then 0
    else (if trace[t] in run[0] then 0 else 1) + Misses(trace, t + 1, run[1..])
  }
}
