/** Conservation over whole runs: of the counters, and of the slots of the swap file. */
module Accounting {
  import opened Machine
  import opened Accesses
  import opened Runs
  import opened FlatMemory

  // ---------------------------------------------------------------- counters

  lemma CountStep(cfg: Config, s: State, s': State, e: Event)
    requires Did(cfg, s, s', e) && Agree(s.pt, s.frames, s.mem, -1)
    requires s.cnt.miss == FirstFree(s.frames) + s.cnt.clean + s.cnt.dirty
    ensures s'.cnt.miss == FirstFree(s'.frames) + s'.cnt.clean + s'.cnt.dirty
    ensures s'.cnt.hit + s'.cnt.miss == s.cnt.hit + s.cnt.miss + 1
  {
    match e
    case HitAt(_) =>
    case ColdAt(_) => FirstFreeAfterTake(s.frames, PageNow(cfg, s));
    case EvictAt(f, q, _, _, _) =>
      assert FirstFree(s.frames) == cfg.memsize;
      assert Full(s');
  }

  /** Every reference is a hit or a miss, and every miss filled a free frame or evicted a page. */
  lemma {:induction false} CountersBalance(cfg: Config, run: seq<State>, n: nat)
    requires IsRun(cfg, run) && n < |run|
    ensures var s := run[n];
            && s.cnt.refs == n == s.cnt.hit + s.cnt.miss
            && s.cnt.miss == FirstFree(s.frames) + s.cnt.clean + s.cnt.dirty
  {
    ReachableAgree(cfg, run, n);
    if n == 0 {
      assert FirstFree(run[0].frames) == 0;
    } else {
      CountersBalance(cfg, run, n - 1);
      ReachableAgree(cfg, run, n - 1);
      var s, s', e := EventAt(cfg, run, n - 1);
      CountStep(cfg, s, s', e);
    }
  }

  /** Line `i` brings page `p` into memory. */
  ghost predicate LoadsPage(cfg: Config, run: seq<State>, i: nat, p: nat) {
    i < |run| && i < |cfg.trace| && PageOf(cfg.trace[i].vaddr) == p && p < |run[i].pt| && !run[i].pt[p].valid
  }

  ghost predicate WritesPage(cfg: Config, i: nat, p: nat) {
    i < |cfg.trace| && PageOf(cfg.trace[i].vaddr) == p && IsWrite(cfg.trace[i])
  }

  ghost predicate WrittenSinceLoad(cfg: Config, run: seq<State>, n: nat, p: nat) {
    exists j: nat :: j < n && WritesPage(cfg, j, p) && forall k: nat :: j < k < n ==> !LoadsPage(cfg, run, k, p)
  }

  lemma WrittenStep(cfg: Config, run: seq<State>, n: nat, p: nat)
    requires 0 < n < |run| && n <= |cfg.trace| && p < |run[n - 1].pt|
    ensures PageOf(cfg.trace[n - 1].vaddr) != p ==>
            (WrittenSinceLoad(cfg, run, n, p) <==> WrittenSinceLoad(cfg, run, n - 1, p))
    ensures PageOf(cfg.trace[n - 1].vaddr) == p ==>
            (WrittenSinceLoad(cfg, run, n, p) <==>
             IsWrite(cfg.trace[n - 1]) || (run[n - 1].pt[p].valid && WrittenSinceLoad(cfg, run, n - 1, p)))
  {
    var here := PageOf(cfg.trace[n - 1].vaddr) == p;
    var loads := LoadsPage(cfg, run, n - 1, p);
    if WrittenSinceLoad(cfg, run, n, p) {
      var j: nat :| j < n && WritesPage(cfg, j, p) && forall k: nat :: j < k < n ==> !LoadsPage(cfg, run, k, p);
      if j < n - 1 {
        assert !loads;
        assert WrittenSinceLoad(cfg, run, n - 1, p);
      }
    }
    if WrittenSinceLoad(cfg, run, n - 1, p) && !loads {
      var j: nat :| j < n - 1 && WritesPage(cfg, j, p) && forall k: nat :: j < k < n - 1 ==> !LoadsPage(cfg, run, k, p);
      assert forall k: nat :: j < k < n ==> !LoadsPage(cfg, run, k, p);
    }
    if here && IsWrite(cfg.trace[n - 1]) {
      assert WritesPage(cfg, n - 1, p);
    }
  }

  lemma DirtyAt(cfg: Config, run: seq<State>, n: nat, p: nat)
    requires IsRun(cfg, run) && 0 < n < |run| && p < PAGES && p < |run[n].pt| && run[n].pt[p].valid
    ensures p < |run[n - 1].pt| && n <= |cfg.trace|
    ensures var last := cfg.trace[n - 1];
            && (p != PageOf(last.vaddr) ==> run[n - 1].pt[p].valid && run[n].pt[p].dirty == run[n - 1].pt[p].dirty)
            && (p == PageOf(last.vaddr) ==>
                  run[n].pt[p].dirty == (IsWrite(last) || (run[n - 1].pt[p].valid && run[n - 1].pt[p].dirty)))
  {
    var s, s', e := EventAt(cfg, run, n - 1);
  }

  /** A resident page is dirty exactly when it was written to since it was last loaded. */
  lemma {:induction false} DirtyIffWrittenSinceLoad(cfg: Config, run: seq<State>, n: nat, p: nat)
    requires IsRun(cfg, run) && n < |run| && p < PAGES && p < |run[n].pt| && run[n].pt[p].valid
    ensures run[n].pt[p].dirty <==> WrittenSinceLoad(cfg, run, n, p)
  {
    if n > 0 {
      DirtyAt(cfg, run, n, p);
      WrittenStep(cfg, run, n, p);
      if run[n - 1].pt[p].valid { DirtyIffWrittenSinceLoad(cfg, run, n - 1, p); }
    }
  }

  /** An eviction counts as dirty when the evicted page was written to since it was last loaded, and as clean
      otherwise. */
  lemma EvictionsCountedByWrites(cfg: Config, run: seq<State>, n: nat, q: nat)
    requires IsRun(cfg, run) && n + 1 < |run| && q < PAGES
    requires q < |run[n].pt| && q < |run[n + 1].pt| && run[n].pt[q].valid && !run[n + 1].pt[q].valid
    ensures run[n + 1].cnt.dirty == run[n].cnt.dirty + if WrittenSinceLoad(cfg, run, n, q) then 1 else 0
    ensures run[n + 1].cnt.clean == run[n].cnt.clean + if WrittenSinceLoad(cfg, run, n, q) then 0 else 1
  {
    DirtyIffWrittenSinceLoad(cfg, run, n, q);
    var _, _, _ := EventAt(cfg, run, n);
  }

  // ---------------------------------------------------------------- swap slots

  lemma SlotStep(cfg: Config, s: State, s': State, e: Event, p: nat)
    requires Did(cfg, s, s', e) && p < PAGES && Slots(s.pt, s.swap, s.used)
    ensures HasSlot(s.pt[p]) ==> s'.pt[p].swapOff == s.pt[p].swapOff
    ensures HasSlot(s'.pt[p]) <==> HasSlot(s.pt[p]) || (s.pt[p].valid && !s'.pt[p].valid)
  {
  }

  lemma SlotAt(cfg: Config, run: seq<State>, n: nat, p: nat)
    requires IsRun(cfg, run) && 0 < n < |run| && p < PAGES
    ensures |run[n - 1].pt| == |run[n].pt| == PAGES
    ensures HasSlot(run[n - 1].pt[p]) ==> run[n].pt[p].swapOff == run[n - 1].pt[p].swapOff
    ensures HasSlot(run[n].pt[p]) <==>
            HasSlot(run[n - 1].pt[p]) || (run[n - 1].pt[p].valid && !run[n].pt[p].valid)
  {
    ReachableAgree(cfg, run, n - 1);
    ReachableAgree(cfg, run, n);
    var s, s', e := EventAt(cfg, run, n - 1);
    SlotStep(cfg, s, s', e, p);
  }

  /** Page `p` is evicted on line `i`. */
  ghost predicate EvictedOn(run: seq<State>, i: nat, p: nat) {
    i + 1 < |run| && p < |run[i].pt| && p < |run[i + 1].pt| && run[i].pt[p].valid && !run[i + 1].pt[p].valid
  }

  /** A page keeps the first slot it is given. */
  lemma {:induction false} SlotsNeverChange(cfg: Config, run: seq<State>, i: nat, n: nat, p: nat)
    requires IsRun(cfg, run) && i <= n < |run| && p < PAGES && p < |run[i].pt| && HasSlot(run[i].pt[p])
    ensures p < |run[n].pt| && run[n].pt[p].swapOff == run[i].pt[p].swapOff
    decreases n
  {
    if i < n {
      SlotsNeverChange(cfg, run, i, n - 1, p);
      SlotAt(cfg, run, n, p);
    }
  }

  /** The pages with a slot are the pages that were ever evicted. */
  lemma {:induction false} SlotIffEverEvicted(cfg: Config, run: seq<State>, n: nat, p: nat)
    requires IsRun(cfg, run) && n < |run| && p < PAGES && p < |run[n].pt|
    ensures HasSlot(run[n].pt[p]) <==> exists i: nat :: i < n && EvictedOn(run, i, p)
  {
    if n == 0 { assert !HasSlot(run[0].pt[p]); } else {
      SlotAt(cfg, run, n, p);
      SlotIffEverEvicted(cfg, run, n - 1, p);
      assert EvictedOn(run, n - 1, p) <==> run[n - 1].pt[p].valid && !run[n].pt[p].valid;
    }
  }

  /** The pages named on the first `n` lines. */
  ghost function Touched(trace: seq<Ref>, n: nat): set<nat>
    requires n <= |trace|
  {
    set i: nat | i < n :: PageOf(trace[i].vaddr)
  }

  lemma ResidentIsTouched(cfg: Config, run: seq<State>, n: nat, p: nat)
    requires IsRun(cfg, run) && n < |run| && n <= |cfg.trace| && p < PAGES && p < |run[n].pt| && run[n].pt[p].valid
    ensures p in Touched(cfg.trace, n)
  {
    PagedIsFlat(cfg, run, n, p);
    assert PageOf(cfg.trace[FirstRef(cfg.trace, n, p)].vaddr) == p;
  }

  lemma SwappedIsTouched(cfg: Config, run: seq<State>, n: nat, p: nat)
    requires IsRun(cfg, run) && n < |run| && n <= |cfg.trace| && p < PAGES && p < |run[n].pt| && HasSlot(run[n].pt[p])
    ensures p in Touched(cfg.trace, n)
  {
    SlotIffEverEvicted(cfg, run, n, p);
    var i: nat :| i < n && EvictedOn(run, i, p);
    ResidentIsTouched(cfg, run, i, p);
    var k: nat :| k < i && PageOf(cfg.trace[k].vaddr) == p;
    assert PageOf(cfg.trace[k].vaddr) in Touched(cfg.trace, n);
  }

  /** The slots below `n`. */
  ghost function Below(n: nat): (r: set<nat>)
    ensures |r| == n && forall i: nat :: i in r <==> i < n
  {
    if n == 0 then {} else Below(n - 1) + {n - 1}
  }

  lemma SubsetCard(a: set<nat>, b: set<nat>)
    requires a <= b
    ensures |a| <= |b|
    ensures |a| == |b| ==> a == b
  {
    assert b == a + (b - a);
    assert |b| == |a| + |b - a|;
    if |a| == |b| { assert b - a == {}; }
  }

  lemma NoFreeSlot(used: set<nat>, n: nat)
    requires forall i :: i in used ==> i < n
    ensures LeastFree(used, 0, n) == n <==> |used| == n
  {
    var all := Below(n);
    SubsetCard(used, all);
    if LeastFree(used, 0, n) == n {
      assert used == all;
    } else {
      assert LeastFree(used, 0, n) in all;
    }
  }

  /** The process exits on a line exactly when the line misses in a full memory, the victim was never
      evicted before, and every slot of the swap file is taken. */
  lemma ExitIffSwapExhausted(cfg: Config, s: State)
    requires Good(cfg) && Inv(cfg, s) && s.cnt.refs < |cfg.trace|
    ensures Step(cfg, s) == None <==>
            && !s.pt[PageNow(cfg, s)].valid && Full(s) && EvictReady(cfg, s)
            && s.frames[Evict(cfg, s).0].Some? && s.frames[Evict(cfg, s).0].value < PAGES
            && !HasSlot(s.pt[s.frames[Evict(cfg, s).0].value])
            && |s.used| == cfg.swapsize
  {
    var p, w := PageNow(cfg, s), WriteNow(cfg, s);
    NoFreeSlot(s.used, cfg.swapsize);
    if s.pt[p].valid {
      Hit(cfg, s, p, w);
    } else {
      Miss(cfg, s, p, w);
      if Full(s) { AllocateFull(cfg, s, p); } else { AllocateCold(cfg, s, p); }
    }
  }

  /** A swap file with a slot for every page named so far never stops the run. */
  lemma EnoughSwapNeverExits(cfg: Config, run: seq<State>)
    requires IsRun(cfg, run) && |run| - 1 < |cfg.trace|
    requires |Touched(cfg.trace, |run| - 1)| <= cfg.swapsize
    ensures var s := run[|run| - 1];
            Inv(cfg, s) && s.cnt.refs == |run| - 1 && Step(cfg, s).Some?
  {
    var n := |run| - 1;
    var s := run[n];
    ReachableInv(cfg, run, n);
    if Step(cfg, s) == None {
      ExitIffSwapExhausted(cfg, s);
      var q := s.frames[Evict(cfg, s).0].value;
      ExitNeedsMore(cfg, run, q);
    }
  }

  lemma ExitNeedsMore(cfg: Config, run: seq<State>, q: nat)
    requires IsRun(cfg, run) && |run| - 1 < |cfg.trace| && q < PAGES
    requires var s := run[|run| - 1]; q < |s.pt| && s.pt[q].valid && !HasSlot(s.pt[q]) && |s.used| == cfg.swapsize
    ensures |Touched(cfg.trace, |run| - 1)| > cfg.swapsize
  {
    var n := |run| - 1;
    var s := run[n];
    ReachableAgree(cfg, run, n);
    SlotCount(cfg, run, n);
    ResidentIsTouched(cfg, run, n, q);
    forall p | p in Swapped(s.pt)
      ensures p in Touched(cfg.trace, n)
    {
      SwappedIsTouched(cfg, run, n, p);
    }
    SubsetCard(Swapped(s.pt) + {q}, Touched(cfg.trace, n));
  }

  /** As many slots are marked used as pages were ever evicted. */
  lemma SlotCount(cfg: Config, run: seq<State>, n: nat)
    requires IsRun(cfg, run) && n < |run|
    ensures |run[n].used| == |Swapped(run[n].pt)|
    ensures |run[n].pt| == PAGES
    ensures forall p: nat :: p in Swapped(run[n].pt) <==> p < PAGES && exists i: nat :: i < n && EvictedOn(run, i, p)
  {
    ReachableInv(cfg, run, n);
    forall p: nat
      ensures p in Swapped(run[n].pt) <==> p < PAGES && exists i: nat :: i < n && EvictedOn(run, i, p)
    {
      if p < PAGES { SlotIffEverEvicted(cfg, run, n, p); }
    }
  }
}
