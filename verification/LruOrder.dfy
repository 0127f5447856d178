/** `lru` against its definition: memory holds the most recently used pages, so a larger memory holds
    everything a smaller one does and never misses more often. */
module LruOrder {
  import opened Machine
  import opened Runs
  import opened OptOptimal
  import Accounting

  function Min(a: nat, b: nat): nat { if a < b then a else b }

  /** The pages named on the first `n` lines, from least to most recently used. */
  function Recency(trace: seq<Ref>, n: nat): seq<nat>
    requires n <= |trace|
  {
    if n == 0 then []
    else Without(Recency(trace, n - 1), PageOf(trace[n - 1].vaddr)) + [PageOf(trace[n - 1].vaddr)]
  }

  function Last(xs: seq<nat>, k: nat): seq<nat> { xs[|xs| - Min(k, |xs|)..] }

  /** The last of the first `n` lines that names page `p`, counted from 1; 0 if there is none. */
  function LastUse(trace: seq<Ref>, n: nat, p: nat): nat
    requires n <= |trace|
  {
    if n == 0 then 0 else if PageOf(trace[n - 1].vaddr) == p then n else LastUse(trace, n - 1, p)
  }

  // ---------------------------------------------------------------- sequences without an element

  lemma {:induction false} WithoutConcat(a: seq<nat>, b: seq<nat>, x: nat)
    ensures Without(a + b, x) == Without(a, x) + Without(b, x)
  {
    if a == [] { assert a + b == b; } else {
      assert (a + b)[1..] == a[1..] + b;
      WithoutConcat(a[1..], b, x);
    }
  }

  lemma {:induction false} WithoutLength(xs: seq<nat>, x: nat)
    requires Distinct(xs) && x in xs
    ensures |Without(xs, x)| == |xs| - 1
  {
    TailOf(xs);
    if xs[0] == x { WithoutAbsent(xs[1..], x); } else { WithoutLength(xs[1..], x); }
  }

  // ---------------------------------------------------------------- what Recency means

  lemma {:induction false} RecencyOrder(trace: seq<Ref>, n: nat)
    requires n <= |trace|
    ensures Distinct(Recency(trace, n))
    ensures forall p: nat :: p in Recency(trace, n) <==> LastUse(trace, n, p) > 0
    ensures Increasing(trace, n, Recency(trace, n))
  {
    if n > 0 {
      var p, before := PageOf(trace[n - 1].vaddr), Recency(trace, n - 1);
      RecencyOrder(trace, n - 1);
      WithoutIs(before, p);
      WithoutKeepsOrder(trace, n - 1, before, p);
      OrderAfterUse(trace, n, Without(before, p));
    }
  }

  /** The pages are in order of last use. */
  ghost predicate Increasing(trace: seq<Ref>, n: nat, xs: seq<nat>)
    requires n <= |trace|
  {
    forall i, j :: 0 <= i < j < |xs| ==> LastUse(trace, n, xs[i]) < LastUse(trace, n, xs[j])
  }

  lemma OrderAfterUse(trace: seq<Ref>, n: nat, xs: seq<nat>)
    requires 0 < n <= |trace| && Increasing(trace, n - 1, xs) && PageOf(trace[n - 1].vaddr) !in xs
    ensures Increasing(trace, n, xs + [PageOf(trace[n - 1].vaddr)])
  {
    LastUseBound(trace, n - 1);
    assert forall i :: 0 <= i < |xs| ==> xs[i] in xs;
  }

  lemma {:induction false} LastUseBound(trace: seq<Ref>, n: nat)
    requires n <= |trace|
    ensures forall p: nat :: LastUse(trace, n, p) <= n
  {
    if n > 0 { LastUseBound(trace, n - 1); }
  }

  lemma {:induction false} WithoutKeepsOrder(trace: seq<Ref>, n: nat, xs: seq<nat>, x: nat)
    requires n <= |trace|
    requires Increasing(trace, n, xs)
    ensures Increasing(trace, n, Without(xs, x))
  {
    if xs != [] {
      WithoutKeepsOrder(trace, n, xs[1..], x);
      var r := Without(xs[1..], x);
      forall j | 0 <= j < |r|
        ensures LastUse(trace, n, xs[0]) < LastUse(trace, n, r[j])
      {
        WithoutSub(xs[1..], x);
        assert r[j] in xs[1..];
      }
    }
  }

  lemma {:induction false} WithoutSub(xs: seq<nat>, x: nat)
    ensures forall y :: y in Without(xs, x) ==> y in xs
  {
    if xs != [] { WithoutSub(xs[1..], x); }
  }

  // ---------------------------------------------------------------- the stack of frames as pages

  predicate InFrames(frames: seq<Option<nat>>, stack: seq<nat>) {
    forall i :: 0 <= i < |stack| ==> stack[i] < |frames| && frames[stack[i]].Some?
  }

  function StackPages(frames: seq<Option<nat>>, stack: seq<nat>): (r: seq<nat>)
    requires InFrames(frames, stack)
    ensures |r| == |stack| && forall i :: 0 <= i < |r| ==> r[i] == frames[stack[i]].value
  {
    seq(|stack|, i requires 0 <= i < |stack| => frames[stack[i]].value)
  }

  /** Taking frame `f` out of the stack takes its page out of the pages. */
  lemma {:induction false} StackPagesWithout(frames: seq<Option<nat>>, stack: seq<nat>, f: nat)
    requires InFrames(frames, stack) && f < |frames| && frames[f].Some?
    requires forall i :: 0 <= i < |stack| && stack[i] != f ==> frames[stack[i]].value != frames[f].value
    ensures InFrames(frames, Without(stack, f))
    ensures StackPages(frames, Without(stack, f)) == Without(StackPages(frames, stack), frames[f].value)
  {
    if stack == [] {
      assert StackPages(frames, stack) == [];
    } else {
      StackPagesWithout(frames, stack[1..], f);
      assert StackPages(frames, stack)[1..] == StackPages(frames, stack[1..]);
      var rest := Without(stack[1..], f);
      if stack[0] != f {
        assert StackPages(frames, [stack[0]] + rest) == [frames[stack[0]].value] + StackPages(frames, rest);
      }
    }
  }

  // ---------------------------------------------------------------- one access

  /** The stack holds the most recently used pages, as many as there are frames in use. */
  ghost predicate TopOfRecency(frames: seq<Option<nat>>, stack: seq<nat>, r: seq<nat>, m: nat) {
    InFrames(frames, stack) && StackPages(frames, stack) == Last(r, m)
  }

  lemma LastConcat(a: seq<nat>, b: seq<nat>, k: nat)
    requires |b| == Min(k, |a| + |b|)
    ensures Last(a + b, k) == b
  {
  }

  lemma LastSplit(r: seq<nat>, m: nat) returns (x: seq<nat>)
    ensures r == x + Last(r, m)
  {
    x := r[..|r| - Min(m, |r|)];
  }

  /** Moving one of the `m` most recent to the end keeps the others. */
  lemma LastAfterHit(r: seq<nat>, m: nat, p: nat)
    requires Distinct(r) && p in Last(r, m)
    ensures Last(Without(r, p) + [p], m) == Without(Last(r, m), p) + [p]
  {
    var s := Last(r, m);
    var x := LastSplit(r, m);
    assert forall i :: 0 <= i < |s| ==> s[i] == r[|x| + i];
    assert forall i :: 0 <= i < |x| ==> x[i] == r[i];
    WithoutConcat(x, s, p);
    WithoutLength(s, p);
    WithoutAbsent(x, p);
    assert Without(r, p) + [p] == x + (Without(s, p) + [p]);
    LastConcat(x, Without(s, p) + [p], m);
  }

  lemma LastAfterCold(r: seq<nat>, m: nat, p: nat)
    requires |Last(r, m)| < m && p !in Last(r, m)
    ensures Last(Without(r, p) + [p], m) == Last(r, m) + [p]
  {
    WithoutAbsent(r, p);
    LastConcat([], r + [p], m);
    assert [] + (r + [p]) == r + [p];
  }

  lemma LastAfterEvict(r: seq<nat>, m: nat, p: nat)
    requires |Last(r, m)| == m > 0 && p !in Last(r, m)
    ensures Last(Without(r, p) + [p], m) == Last(r, m)[1..] + [p]
  {
    var s := Last(r, m);
    var x := LastSplit(r, m);
    WithoutConcat(x, s, p);
    WithoutAbsent(s, p);
    HeadApart(Without(x, p), s, p);
    LastConcat(Without(x, p) + [s[0]], s[1..] + [p], m);
  }

  lemma HeadApart(x: seq<nat>, s: seq<nat>, p: nat)
    requires s != []
    ensures x + s + [p] == (x + [s[0]]) + (s[1..] + [p])
  {
  }

  lemma HitTop(frames: seq<Option<nat>>, stack: seq<nat>, r: seq<nat>, m: nat, i: nat)
    requires TopOfRecency(frames, stack, r, m) && Distinct(r) && i < |stack|
    requires forall j :: 0 <= j < |stack| && stack[j] != stack[i] ==> frames[stack[j]].value != frames[stack[i]].value
    ensures var (f, p) := (stack[i], frames[stack[i]].value);
            TopOfRecency(frames, Without(stack, f) + [f], Without(r, p) + [p], m)
  {
    var f, p := stack[i], frames[stack[i]].value;
    StackPagesWithout(frames, stack, f);
    assert StackPages(frames, stack)[i] == p;
    LastAfterHit(r, m, p);
  }

  lemma ColdTop(frames: seq<Option<nat>>, stack: seq<nat>, r: seq<nat>, m: nat, f: nat, p: nat)
    requires TopOfRecency(frames, stack, r, m) && |stack| < m
    requires f < |frames| && f !in stack && p !in StackPages(frames, stack)
    ensures TopOfRecency(frames[f := Some(p)], stack + [f], Without(r, p) + [p], m)
  {
    LastAfterCold(r, m, p);
    assert forall i :: 0 <= i < |stack| ==> stack[i] in stack;
    assert StackPages(frames[f := Some(p)], stack + [f]) == StackPages(frames, stack) + [p];
  }

  lemma EvictTop(frames: seq<Option<nat>>, stack: seq<nat>, r: seq<nat>, m: nat, p: nat)
    requires TopOfRecency(frames, stack, r, m) && |stack| == m > 0 && Distinct(stack)
    requires p !in StackPages(frames, stack)
    ensures TopOfRecency(frames[stack[0] := Some(p)], stack[1..] + [stack[0]], Without(r, p) + [p], m)
  {
    LastAfterEvict(r, m, p);
    var frames', stack' := frames[stack[0] := Some(p)], stack[1..] + [stack[0]];
    forall i | 0 <= i < m - 1
      ensures stack'[i] == stack[i + 1] && frames'[stack'[i]] == frames[stack[i + 1]]
    {
    }
    assert StackPages(frames', stack') == StackPages(frames, stack)[1..] + [p];
  }

  /** The stack is a list of exactly the frames in use. */
  ghost predicate StackOfUsed(frames: seq<Option<nat>>, stack: seq<nat>) {
    && Distinct(stack)
    && (forall f :: f in stack ==> 0 <= f < |frames| && frames[f].Some?)
    && (forall f :: 0 <= f < |frames| && frames[f].Some? ==> f in stack)
  }

  ghost function Elements(xs: seq<nat>): (r: set<nat>)
    ensures forall x :: x in r <==> x in xs
  {
    if xs == [] then {} else Elements(xs[1..]) + {xs[0]}
  }

  lemma {:induction false} DistinctCard(xs: seq<nat>)
    requires Distinct(xs)
    ensures |Elements(xs)| == |xs|
  {
    if xs != [] {
      TailOf(xs);
      DistinctCard(xs[1..]);
    }
  }

  lemma StackSize(pt: seq<Pte>, frames: seq<Option<nat>>, mem: seq<SimPage>, stack: seq<nat>)
    requires Agree(pt, frames, mem, -1) && StackOfUsed(frames, stack)
    ensures |stack| == FirstFree(frames)
  {
    DistinctCard(stack);
    UsedFrames(pt, frames, mem);
    var k := FirstFree(frames);
    var used := Accounting.Below(k);
    assert Elements(stack) == used;
  }

  /** How lru_evict picked its victim. */
  ghost predicate LruPicked(cfg: Config, s: State, e: Event) {
    e.EvictAt? ==> s.pol.stack != [] && e.f == s.pol.stack[0] && e.pol.stack == s.pol.stack[1..]
  }

  lemma LruEvictStep(cfg: Config, s: State, s': State, e: Event, r: seq<nat>)
    requires Did(cfg, s, s', e) && LruPicked(cfg, s, e) && e.EvictAt? && cfg.alg == Lru && cfg.memsize > 0
    requires Agree(s.pt, s.frames, s.mem, -1) && StackOfUsed(s.frames, s.pol.stack) && Distinct(r)
    requires TopOfRecency(s.frames, s.pol.stack, r, cfg.memsize)
    ensures var p := PageNow(cfg, s);
            TopOfRecency(s'.frames, s'.pol.stack, Without(r, p) + [p], cfg.memsize)
  {
    var p, stack := PageNow(cfg, s), s.pol.stack;
    StackSize(s.pt, s.frames, s.mem, stack);
    FramesApart(s.pt, s.frames, s.mem, stack, p);
    assert FirstFree(s.frames) == cfg.memsize;
    EvictTop(s.frames, stack, r, cfg.memsize, p);
  }

  lemma LruStep(cfg: Config, s: State, s': State, e: Event, r: seq<nat>)
    requires Did(cfg, s, s', e) && LruPicked(cfg, s, e) && cfg.alg == Lru && cfg.memsize > 0
    requires Agree(s.pt, s.frames, s.mem, -1) && StackOfUsed(s.frames, s.pol.stack) && Distinct(r)
    requires TopOfRecency(s.frames, s.pol.stack, r, cfg.memsize)
    ensures var p := PageNow(cfg, s);
            TopOfRecency(s'.frames, s'.pol.stack, Without(r, p) + [p], cfg.memsize)
  {
    var p, stack := PageNow(cfg, s), s.pol.stack;
    if e.EvictAt? {
      LruEvictStep(cfg, s, s', e, r);
    } else {
      FramesApart(s.pt, s.frames, s.mem, stack, p);
      match e
      case HitAt(f) =>
        var i :| 0 <= i < |stack| && stack[i] == f;
        HitTop(s.frames, stack, r, cfg.memsize, i);
      case ColdAt(f) =>
        StackSize(s.pt, s.frames, s.mem, stack);
        ColdTop(s.frames, stack, r, cfg.memsize, f, p);
    }
  }

  lemma FramesApart(pt: seq<Pte>, frames: seq<Option<nat>>, mem: seq<SimPage>, stack: seq<nat>, p: nat)
    requires Agree(pt, frames, mem, -1) && InFrames(frames, stack) && p < PAGES
    ensures !pt[p].valid ==> p !in StackPages(frames, stack)
    ensures forall i, j :: 0 <= i < |stack| && 0 <= j < |stack| && stack[i] != stack[j] ==>
              frames[stack[i]].value != frames[stack[j]].value
  {
    forall i | 0 <= i < |stack|
      ensures pt[frames[stack[i]].value].valid && pt[frames[stack[i]].value].frame == stack[i]
    {
    }
  }

  // ---------------------------------------------------------------- whole runs

  lemma LruChoiceAt(cfg: Config, run: seq<State>, i: nat) returns (s: State, s': State, e: Event)
    requires IsRun(cfg, run) && i + 1 < |run| && cfg.alg == Lru
    ensures s == run[i] && s' == run[i + 1] && s.cnt.refs == i < |cfg.trace|
    ensures Did(cfg, s, s', e) && LruPicked(cfg, s, e)
  {
    s, s', e := ChoiceAt(cfg, run, i);
  }

  lemma ReachableStack(cfg: Config, run: seq<State>, i: nat)
    requires IsRun(cfg, run) && i < |run| && cfg.alg == Lru
    ensures StackOfUsed(run[i].frames, run[i].pol.stack)
  {
    ReachableInv(cfg, run, i);
  }

  lemma LruStepAt(cfg: Config, run: seq<State>, n: nat, s: State, s': State, r: seq<nat>)
    requires IsRun(cfg, run) && n + 1 < |run| && cfg.alg == Lru && s == run[n] && s' == run[n + 1] && n < |cfg.trace|
    requires Distinct(r) && TopOfRecency(s.frames, s.pol.stack, r, cfg.memsize)
    ensures var p := PageOf(cfg.trace[n].vaddr);
            TopOfRecency(s'.frames, s'.pol.stack, Without(r, p) + [p], cfg.memsize)
  {
    var _, _, e := LruChoiceAt(cfg, run, n);
    ReachableAgree(cfg, run, n);
    ReachableStack(cfg, run, n);
    LruStep(cfg, s, s', e, r);
  }

  /** At every moment the list threaded through the coremap holds the most recently used pages, in order of use. */
  lemma {:induction false} StackIsRecency(cfg: Config, run: seq<State>, n: nat)
    requires IsRun(cfg, run) && n < |run| && cfg.alg == Lru
    ensures n <= |cfg.trace|
    ensures TopOfRecency(run[n].frames, run[n].pol.stack, Recency(cfg.trace, n), cfg.memsize)
  {
    ReachableAgree(cfg, run, n);
    if n > 0 {
      var s, s', r := run[n - 1], run[n], Recency(cfg.trace, n - 1);
      StackIsRecency(cfg, run, n - 1);
      RecencyOrder(cfg.trace, n - 1);
      LruStepAt(cfg, run, n - 1, s, s', r);
    }
  }

  /** After `n` lines `lru` holds exactly the memsize most recently used pages, or all pages if there are fewer. */
  lemma LruHoldsMostRecent(cfg: Config, run: seq<State>, n: nat)
    requires IsRun(cfg, run) && n < |run| && cfg.alg == Lru
    ensures n <= |cfg.trace|
    ensures forall p: nat :: p in Resident(run[n]) <==> p in Last(Recency(cfg.trace, n), cfg.memsize)
  {
    StackIsRecency(cfg, run, n);
    ReachableAgree(cfg, run, n);
    ReachableStack(cfg, run, n);
    forall p: nat
      ensures p in Resident(run[n]) <==> p in StackPages(run[n].frames, run[n].pol.stack)
    {
    }
  }

  /** The inclusion property: on one trace, a smaller memory under `lru` holds a subset of what a larger one
      holds, after every line, and the larger one never has more misses. */
  lemma {:induction false} LruInclusion(small: Config, smallRun: seq<State>, large: Config, largeRun: seq<State>,
                                        n: nat)
    requires small.alg == Lru && large.alg == Lru && small.trace == large.trace && small.memsize <= large.memsize
    requires IsRun(small, smallRun) && IsRun(large, largeRun) && n < |smallRun| && n < |largeRun|
    ensures Resident(smallRun[n]) <= Resident(largeRun[n])
    ensures largeRun[n].cnt.miss <= smallRun[n].cnt.miss
  {
    LruHoldsMostRecent(small, smallRun, n);
    LruHoldsMostRecent(large, largeRun, n);
    if n > 0 {
      LruInclusion(small, smallRun, large, largeRun, n - 1);
      MissAt(small, smallRun, n - 1);
      MissAt(large, largeRun, n - 1);
    }
  }

  lemma BottomIsVictim(cfg: Config, run: seq<State>, n: nat, q: nat)
    requires IsRun(cfg, run) && n + 1 < |run| && cfg.alg == Lru
    requires q in Resident(run[n]) && q !in Resident(run[n + 1])
    ensures var s := run[n];
            && s.pol.stack != [] && InFrames(s.frames, s.pol.stack) && s.frames[s.pol.stack[0]] == Some(q)
  {
    var s, s', e := LruChoiceAt(cfg, run, n);
    ResidentStep(cfg, s, s', e);
    ReachableStack(cfg, run, n);
    assert forall i :: 0 <= i < |s.pol.stack| ==> s.pol.stack[i] in s.pol.stack;
  }

  /** The page `lru` evicts was used longer ago than every other resident page. */
  lemma LruEvictsLeastRecent(cfg: Config, run: seq<State>, n: nat, q: nat, x: nat)
    requires IsRun(cfg, run) && n + 1 < |run| && cfg.alg == Lru
    requires q in Resident(run[n]) && q !in Resident(run[n + 1])
    requires x in Resident(run[n]) && x != q
    ensures n <= |cfg.trace| && LastUse(cfg.trace, n, q) < LastUse(cfg.trace, n, x)
  {
    BottomIsVictim(cfg, run, n, q);
    StackIsRecency(cfg, run, n);
    ReachableAgree(cfg, run, n);
    ReachableStack(cfg, run, n);
    RecencyOrder(cfg.trace, n);
    var r := Recency(cfg.trace, n);
    var pages := StackPages(run[n].frames, run[n].pol.stack);
    assert pages[0] == q;
    var j :| 0 <= j < |pages| && pages[j] == x;
    var k := |r| - Min(cfg.memsize, |r|);
    assert r[k] == q && r[k + j] == x;
  }
}
