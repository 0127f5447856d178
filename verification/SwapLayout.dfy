/** Where pages lie in the swap file, in bytes: slots of 16 bytes are handed out in the order of first evictions. */
module SwapLayout {
  import opened Machine
  import opened Runs
  import opened Accounting

  /** The slots handed out so far are the first ones of the file. */
  ghost predicate Packed(used: set<nat>) { forall i: nat :: i in used <==> i < |used| }

  lemma LeastOfPacked(used: set<nat>, n: nat)
    requires Packed(used)
    ensures LeastFree(used, 0, n) == if |used| <= n then |used| else n
  {
    var least := LeastFree(used, 0, n);
    assert least < |used| ==> least in used;
    assert |used| !in used;
  }

  lemma PackedStep(cfg: Config, s: State, s': State, e: Event)
    requires Did(cfg, s, s', e) && Slots(s.pt, s.swap, s.used) && Packed(s.used)
    ensures Packed(s'.used)
  {
    if e.EvictAt? {
      if HasSlot(s.pt[e.q]) {
        assert s'.used == s.used;
      } else {
        LeastOfPacked(s.used, cfg.swapsize);
        assert |s'.used| == |s.used| + 1;
      }
    }
  }

  lemma PackedAt(cfg: Config, run: seq<State>, n: nat)
    requires IsRun(cfg, run) && n + 1 < |run| && Packed(run[n].used)
    ensures Packed(run[n + 1].used)
  {
    ReachableAgree(cfg, run, n);
    var s, s', e := EventAt(cfg, run, n);
    PackedStep(cfg, s, s', e);
  }

  lemma {:induction false} ReachablePacked(cfg: Config, run: seq<State>, n: nat)
    requires IsRun(cfg, run) && n < |run|
    ensures Packed(run[n].used)
  {
    if n > 0 {
      ReachablePacked(cfg, run, n - 1);
      PackedAt(cfg, run, n - 1);
    }
  }

  ghost predicate EverEvicted(run: seq<State>, n: nat, p: nat) {
    exists i: nat :: i < n && EvictedOn(run, i, p)
  }

  /** The pages evicted on the first `n` lines. */
  ghost function EvictedBefore(run: seq<State>, n: nat): set<nat> {
    set p: nat | p < PAGES && EverEvicted(run, n, p)
  }

  lemma EvictedHaveSlots(cfg: Config, run: seq<State>, n: nat)
    requires IsRun(cfg, run) && n < |run|
    ensures |run[n].used| == |EvictedBefore(run, n)|
  {
    SlotCount(cfg, run, n);
    assert Swapped(run[n].pt) == EvictedBefore(run, n);
  }

  /** The entry of the page evicted on one line: off memory, on swap, in its old slot or in a new one behind those
      that are taken.  The eviction leaves its frame number and its dirty bit. */
  lemma EvictedEntry(cfg: Config, s: State, s': State, e: Event, q: nat)
    requires Did(cfg, s, s', e) && q < PAGES && s.pt[q].valid && !s'.pt[q].valid
    requires Slots(s.pt, s.swap, s.used) && Packed(s.used)
    ensures s'.pt[q].onswap && s'.pt[q].frame == s.pt[q].frame && s'.pt[q].dirty == s.pt[q].dirty
    ensures s'.pt[q].swapOff == if s.pt[q].swapOff != -1 then s.pt[q].swapOff else 16 * |s.used|
  {
    LeastOfPacked(s.used, cfg.swapsize);
    assert e.q == q;
  }

  /** A page evicted for the first time goes to byte 16 * k, where k other pages were evicted before it.  A page
      evicted again goes back to where it was.  Its frame number and dirty bit stay in the entry. */
  lemma EvictedGoesTo(cfg: Config, run: seq<State>, n: nat, q: nat)
    requires IsRun(cfg, run) && q < PAGES && EvictedOn(run, n, q)
    ensures var was, now := run[n].pt[q], run[n + 1].pt[q];
            && now.onswap && now.frame == was.frame && now.dirty == was.dirty
            && now.swapOff == if q in EvictedBefore(run, n) then was.swapOff else 16 * |EvictedBefore(run, n)|
  {
    var s, s', e := EventAt(cfg, run, n);
    ReachableAgree(cfg, run, n);
    ReachablePacked(cfg, run, n);
    EvictedEntry(cfg, s, s', e, q);
    EvictedHaveSlots(cfg, run, n);
    SlotIffEverEvicted(cfg, run, n, q);
  }

  /** At every moment: a page that was never evicted has offset -1; any other has 16 bytes of the file for itself. */
  lemma BytesApart(cfg: Config, run: seq<State>, n: nat, p: nat, q: nat)
    requires IsRun(cfg, run) && n < |run| && p < PAGES && q < PAGES && p != q
    ensures |run[n].pt| == PAGES
    ensures var a, b := run[n].pt[p].swapOff, run[n].pt[q].swapOff;
            && (if p in EvictedBefore(run, n) then 0 <= a && a + 16 <= 16 * cfg.swapsize else a == -1)
            && (a != -1 && b != -1 ==> a + 16 <= b || b + 16 <= a)
  {
    ReachableAgree(cfg, run, n);
    SlotIffEverEvicted(cfg, run, n, p);
    assert HasSlot(run[n].pt[p]) <==> p in EvictedBefore(run, n);
  }
}
