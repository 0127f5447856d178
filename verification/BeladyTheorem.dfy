/** The optimality of evicting the page used farthest in the future, among all runs of demand paging. */
module BeladyTheorem {
  import opened Belady

  lemma LegalTail(m: nat, trace: seq<nat>, t: nat, run: seq<set<nat>>)
    requires t < |trace| && Legal(m, trace, t, run)
    ensures Legal(m, trace, t + 1, run[1..]) && Step(m, run[0], trace[t], run[1])
  {
    assert Step(m, run[0], trace[t + 0], run[0 + 1]);
    forall i | 0 <= i < |trace| - (t + 1)
      ensures Step(m, run[1..][i], trace[t + 1 + i], run[1..][i + 1])
    {
      assert Step(m, run[i + 1], trace[t + (i + 1)], run[i + 1 + 1]);
    }
  }

  lemma LegalCons(m: nat, trace: seq<nat>, t: nat, R: set<nat>, run: seq<set<nat>>)
    requires t < |trace| && Legal(m, trace, t + 1, run) && Step(m, R, trace[t], run[0])
    ensures Legal(m, trace, t, [R] + run)
    ensures Misses(trace, t, [R] + run) == (if trace[t] in R then 0 else 1) + Misses(trace, t + 1, run)
  {
    var all := [R] + run;
    assert all[1..] == run;
    forall i | 0 <= i < |trace| - t
      ensures Step(m, all[i], trace[t + i], all[i + 1])
    {
      if i > 0 {
        assert Step(m, run[i - 1], trace[t + 1 + (i - 1)], run[i - 1 + 1]);
      }
    }
  }

  /** A full set stays full. */
  lemma StepKeepsSize(m: nat, R: set<nat>, p: nat, R': set<nat>)
    requires Step(m, R, p, R') && |R| == m
    ensures |R'| == m
  {
    if p !in R {
      var v :| v in R && R' == R - {v} + {p};
      assert |R - {v}| == m - 1;
    }
  }

  lemma StepKeepsBound(m: nat, R: set<nat>, p: nat, R': set<nat>)
    requires Step(m, R, p, R') && |R| <= m
    ensures |R'| <= m
  {
    if p !in R && |R| == m { StepKeepsSize(m, R, p, R'); }
  }

  lemma SwapOne(R: set<nat>, v: nat, u: nat)
    requires v in R && u !in R
    ensures |R - {v} + {u}| == |R|
  {
    assert |R - {v}| == |R| - 1;
  }

  /** On a miss in a full memory, evicting the resident page `v` is a legal step. */
  lemma EvictStep(m: nat, R: set<nat>, p: nat, v: nat, R': set<nat>)
    requires |R| == m && p !in R && v in R && R' == R - {v} + {p}
    ensures Step(m, R, p, R')
  {
  }

  /** Exchanging `v` for `w` before or after a victim `x` makes way for `p`. */
  lemma SetLaws(R: set<nat>, v: nat, w: nat, x: nat, p: nat)
    requires v in R && x in R && w !in R && p !in R
    ensures p != w ==> R - {v} + {w} - {w} + {p} == R - {v} + {p}
    ensures x != v && p != w ==> R - {x} + {p} - {v} + {w} == R - {v} + {w} - {x} + {p}
    ensures x != v && p == w ==> R - {x} + {p} - {v} + {x} == R - {v} + {w}
  {
  }

  /** Two full memories that differ in one page (`v` against `w`) cost at most one miss apart. */
  lemma {:induction false} OneApart(m: nat, trace: seq<nat>, t: nat, run: seq<set<nat>>, v: nat, w: nat)
    returns (other: seq<set<nat>>)
    requires t <= |trace| && Legal(m, trace, t, run)
    requires |run[0]| == m && v in run[0] && w !in run[0]
    ensures Legal(m, trace, t, other) && other[0] == run[0] - {v} + {w}
    ensures Misses(trace, t, other) <= Misses(trace, t, run) + 1
    decreases |trace| - t, 1
  {
    var R := run[0];
    var Q := R - {v} + {w};
    SwapOne(R, v, w);
    if t == |trace| { return [Q]; }
    LegalTail(m, trace, t, run);
    var p, R', rest := trace[t], run[1], run[1..];
    StepKeepsSize(m, R, p, R');
    if p == v {
      EvictStep(m, Q, p, w, R');
    } else if p in R {
      rest := OneApart(m, trace, t + 1, rest, v, w);
    } else {
      rest := OneApartMiss(m, trace, t, run, v, w);
    }
    LegalCons(m, trace, t, Q, rest);
    other := [Q] + rest;
  }

  /** The case of `OneApart` where the run that holds `v` misses on a page other than `v`. */
  lemma {:induction false} OneApartMiss(m: nat, trace: seq<nat>, t: nat, run: seq<set<nat>>, v: nat, w: nat)
    returns (rest: seq<set<nat>>)
    requires t < |trace| && Legal(m, trace, t, run) && trace[t] !in run[0]
    requires |run[0]| == m && v in run[0] && w !in run[0]
    ensures Legal(m, trace, t + 1, rest) && Step(m, run[0] - {v} + {w}, trace[t], rest[0])
    ensures Misses(trace, t + 1, rest) <= Misses(trace, t + 1, run[1..]) + 1
    decreases |trace| - t, 0
  {
    var R, p, R' := run[0], trace[t], run[1];
    var Q := R - {v} + {w};
    SwapOne(R, v, w);
    LegalTail(m, trace, t, run);
    StepKeepsSize(m, R, p, R');
    var x :| x in R && R' == R - {x} + {p};
    SetLaws(R, v, w, x, p);
    if x == v {
      rest := run[1..];
      if p != w { EvictStep(m, Q, p, w, R'); }
    } else if p == w {
      rest := OneApart(m, trace, t + 1, run[1..], v, x);
    } else {
      rest := OneApart(m, trace, t + 1, run[1..], v, w);
      EvictStep(m, Q, p, x, rest[0]);
    }
  }

  /** The exchange step: holding `u`, which is used no later than `v`, in place of `v` costs no more. */
  lemma {:induction false} Exchange(m: nat, trace: seq<nat>, t: nat, run: seq<set<nat>>, v: nat, u: nat)
    returns (other: seq<set<nat>>)
    requires t <= |trace| && Legal(m, trace, t, run)
    requires |run[0]| == m && v in run[0] && u !in run[0]
    requires NextUse(trace, t, u) <= NextUse(trace, t, v)
    ensures Legal(m, trace, t, other) && other[0] == run[0] - {v} + {u}
    ensures Misses(trace, t, other) <= Misses(trace, t, run)
    decreases |trace| - t
  {
    var R := run[0];
    var Q := R - {v} + {u};
    SwapOne(R, v, u);
    if t == |trace| { return [Q]; }
    LegalTail(m, trace, t, run);
    var p, R', rest := trace[t], run[1], run[1..];
    StepKeepsSize(m, R, p, R');
    assert p != v;
    if p in R {
      rest := Exchange(m, trace, t + 1, rest, v, u);
    } else {
      var x :| x in R && R' == R - {x} + {p};
      SetLaws(R, v, u, x, p);
      if x == v {
        if p == u { assert Q == R'; } else { EvictStep(m, Q, p, u, R'); }
      } else if p == u {
        rest := OneApart(m, trace, t + 1, rest, v, x);
        assert R' - {v} + {x} == Q;
      } else {
        rest := Exchange(m, trace, t + 1, rest, v, u);
        EvictStep(m, Q, p, x, R' - {v} + {u});
      }
    }
    LegalCons(m, trace, t, Q, rest);
    other := [Q] + rest;
  }

  /** On a miss in a full memory, a victim `v` used no sooner than the victim `u` the run took is no worse. */
  lemma BetterVictim(m: nat, trace: seq<nat>, t: nat, run: seq<set<nat>>, v: nat, u: nat)
    returns (rest: seq<set<nat>>)
    requires t < |trace| && Legal(m, trace, t, run) && |run[0]| == m && trace[t] !in run[0]
    requires u in run[0] && v in run[0] && run[1] == run[0] - {u} + {trace[t]}
    requires NextUse(trace, t, u) <= NextUse(trace, t, v)
    ensures Legal(m, trace, t + 1, rest) && rest[0] == run[0] - {v} + {trace[t]}
    ensures Misses(trace, t + 1, rest) <= Misses(trace, t + 1, run[1..])
  {
    var R, p := run[0], trace[t];
    LegalTail(m, trace, t, run);
    StepKeepsSize(m, R, p, run[1]);
    if u == v {
      rest := run[1..];
    } else {
      rest := Exchange(m, trace, t + 1, run[1..], v, u);
      assert R - {u} + {p} - {v} + {u} == R - {v} + {p};
    }
  }

  lemma FarthestTail(m: nat, trace: seq<nat>, t: nat, run: seq<set<nat>>)
    requires t < |trace| && FarthestRun(m, trace, t, run)
    ensures FarthestRun(m, trace, t + 1, run[1..]) && FarthestStep(m, trace, t, run[0], run[1])
  {
    assert FarthestStep(m, trace, t + 0, run[0], run[0 + 1]);
    forall i | 0 <= i < |trace| - (t + 1)
      ensures FarthestStep(m, trace, t + 1 + i, run[1..][i], run[1..][i + 1])
    {
      assert FarthestStep(m, trace, t + (i + 1), run[i + 1], run[i + 1 + 1]);
    }
  }

  /** Belady's theorem: a run that always evicts a page used farthest in the future has no more
      misses than any other run from the same resident set. */
  lemma {:induction false} FarthestIsOptimal(m: nat, trace: seq<nat>, t: nat, opt: seq<set<nat>>, run: seq<set<nat>>)
    requires t <= |trace| && FarthestRun(m, trace, t, opt) && Legal(m, trace, t, run)
    requires opt[0] == run[0] && |run[0]| <= m
    ensures Misses(trace, t, opt) <= Misses(trace, t, run)
    decreases |trace| - t
  {
    if t < |trace| {
      var R, p, rest := run[0], trace[t], run[1..];
      LegalTail(m, trace, t, run);
      FarthestTail(m, trace, t, opt);
      if p !in R && |R| == m {
        var v :| IsFarthest(trace, t, R, v) && opt[1] == R - {v} + {p};
        var u :| u in R && run[1] == R - {u} + {p};
        rest := BetterVictim(m, trace, t, run, v, u);
      }
      StepKeepsBound(m, R, p, rest[0]);
      FarthestIsOptimal(m, trace, t + 1, opt[1..], rest);
    }
  }

  // ---------------------------------------------------------------- traces cut short

  /** On a prefix of the trace a next use beyond it counts as none. */
  lemma {:induction false} NextUseInPrefix(trace: seq<nat>, n: nat, t: nat, p: nat)
    requires t <= n <= |trace|
    ensures NextUse(trace[..n], t, p) == if NextUse(trace, t, p) < n then NextUse(trace, t, p) else n
    decreases n - t
  {
    if t < n && trace[t] != p { NextUseInPrefix(trace, n, t + 1, p); }
  }

  /** A page used farthest in the future of the whole trace is so in the future of a prefix. */
  lemma FarthestInPrefix(m: nat, trace: seq<nat>, n: nat, t: nat, R: set<nat>, R': set<nat>)
    requires t < n <= |trace| && FarthestStep(m, trace, t, R, R')
    ensures FarthestStep(m, trace[..n], t, R, R')
  {
    if trace[t] !in R && |R| >= m {
      var v :| IsFarthest(trace, t, R, v) && R' == R - {v} + {trace[t]};
      NextUseInPrefix(trace, n, t, v);
      forall q | q in R
        ensures NextUse(trace[..n], t, q) <= NextUse(trace[..n], t, v)
      {
        NextUseInPrefix(trace, n, t, q);
      }
      assert IsFarthest(trace[..n], t, R, v);
    }
  }
}
