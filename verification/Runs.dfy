/** Whole runs of the simulator: every access keeps the invariant that ties the page table, the
    coremap, physical memory, the swap file and the policy's own structure together. */
module Runs {
  import opened Machine
  import opened Accesses

  /** Between allocate_frame and the end of find_physpage: frame `f` belongs to page `p`, whose entry is not valid
      yet. */
  ghost predicate Between(cfg: Config, s: State, p: nat, f: nat) {
    && Shape(cfg, s) && p < PAGES && f < cfg.memsize && s.frames[f] == Some(p) && !s.pt[p].valid
    && Agree(s.pt, s.frames, s.mem, f)
  }

  ghost predicate BetweenPolicy(cfg: Config, s: State, f: nat)
    requires Shape(cfg, s)
  {
    match cfg.alg
    case Rand => true
    case Lru =>
      && Distinct(s.pol.stack) && f !in s.pol.stack
      && (forall g :: g in s.pol.stack ==> 0 <= g < cfg.memsize && s.frames[g].Some?)
      && (forall g :: 0 <= g < cfg.memsize && g != f && s.frames[g].Some? ==> g in s.pol.stack)
    case Fifo => s.pol.front < cfg.memsize && (!Full(s) ==> s.pol.front == 0)
    case Clock => s.pol.hand == f < cfg.memsize && (!Full(s) ==> f + 1 == FirstFree(s.frames))
    case Opt =>
      && s.pol.time == s.cnt.refs
      && forall g :: 0 <= g < cfg.memsize && s.frames[g].Some? ==> s.frames[g].value in Pages(cfg.trace)
  }

  lemma AgreeAfterPageOut(pt: seq<Pte>, pt1: seq<Pte>, frames: seq<Option<nat>>, mem: seq<SimPage>,
                          f: nat, p: nat, slot: int)
    requires Agree(pt, frames, mem, -1) && p < PAGES && !pt[p].valid
    requires |pt1| == PAGES && forall x :: 0 <= x < PAGES ==> pt1[x] == pt[x] || pt1[x] == pt[x].(ref := false)
    requires f < |frames| && frames[f].Some?
    ensures frames[f].value < PAGES && frames[f].value != p
    ensures Agree(pt1[frames[f].value := PagedOut(pt1[frames[f].value], slot)], frames[f := Some(p)], mem, f)
  {
  }

  lemma AgreeAfterLoad(pt: seq<Pte>, frames: seq<Option<nat>>, mem: seq<SimPage>,
                       f: nat, p: nat, w: bool, page: SimPage)
    requires Agree(pt, frames, mem, f) && p < PAGES && !pt[p].valid
    requires f < |frames| && frames[f] == Some(p) && PageOf(page.vaddr) == p
    ensures Agree(pt[p := FreshPte(f, w, pt[p].swapOff)], frames, mem[f := page], -1)
  {
  }

  lemma AllocateKeepsMap(cfg: Config, s: State, p: nat)
    requires Good(cfg) && Inv(cfg, s) && p < PAGES && !s.pt[p].valid
    ensures match AllocateFrame(cfg, s, p)
            case None => true
            case Some((s1, f)) => Between(cfg, s1, p, f)
  {
    if Full(s) {
      AllocateFull(cfg, s, p);
      var (f, s1) := Evict(cfg, s);
      AgreeAfterPageOut(s.pt, s1.pt, s.frames, s.mem, f, p, SlotFor(cfg, s, s.frames[f].value));
    } else {
      AllocateCold(cfg, s, p);
    }
  }

  lemma SlotsAfterPageOut(pt: seq<Pte>, pt1: seq<Pte>, swap: seq<SimPage>, used: set<nat>,
                          q: nat, slot: nat, page: SimPage)
    requires Slots(pt, swap, used) && q < PAGES && PageOf(page.vaddr) == q
    requires |pt1| == PAGES && forall x :: 0 <= x < PAGES ==> pt1[x] == pt[x] || pt1[x] == pt[x].(ref := false)
    requires slot == (if HasSlot(pt[q]) then SlotOf(pt[q]) else LeastFree(used, 0, |swap|)) < |swap|
    ensures Slots(pt1[q := PagedOut(pt1[q], slot)], swap[slot := page], used + {slot})
  {
    var pt' := pt1[q := PagedOut(pt1[q], slot)];
    assert SlotOf(pt'[q]) == slot;
    forall p | 0 <= p < PAGES && p != q && HasSlot(pt[p])
      ensures SlotOf(pt[p]) != slot
    {
    }
    assert forall p :: 0 <= p < PAGES ==> HasSlot(pt'[p]) == (p == q || HasSlot(pt[p]));
    assert forall p :: 0 <= p < PAGES && p != q ==> SlotOf(pt'[p]) == SlotOf(pt[p]);
  }

  lemma SwappedAfterPageOut(pt: seq<Pte>, pt1: seq<Pte>, swap: seq<SimPage>, used: set<nat>, q: nat, slot: nat)
    requires Slots(pt, swap, used) && q < PAGES && |used| == |Swapped(pt)|
    requires |pt1| == PAGES && forall x :: 0 <= x < PAGES ==> pt1[x] == pt[x] || pt1[x] == pt[x].(ref := false)
    requires slot == (if HasSlot(pt[q]) then SlotOf(pt[q]) else LeastFree(used, 0, |swap|)) < |swap|
    ensures Swapped(pt1[q := PagedOut(pt1[q], slot)]) == Swapped(pt) + {q}
    ensures |used + {slot}| == |Swapped(pt1[q := PagedOut(pt1[q], slot)])|
  {
    SwappedGrows(pt, pt1, q, slot);
    if HasSlot(pt[q]) {
      assert q in Swapped(pt) && Swapped(pt) + {q} == Swapped(pt) && used + {slot} == used;
    } else {
      assert q !in Swapped(pt) && slot !in used;
    }
  }

  lemma SwappedGrows(pt: seq<Pte>, pt1: seq<Pte>, q: nat, slot: nat)
    requires q < |pt| == |pt1| && forall x :: 0 <= x < |pt| ==> pt1[x] == pt[x] || pt1[x] == pt[x].(ref := false)
    ensures Swapped(pt1[q := PagedOut(pt1[q], slot)]) == Swapped(pt) + {q}
  {
    var pt' := pt1[q := PagedOut(pt1[q], slot)];
    assert forall p :: 0 <= p < |pt| ==> HasSlot(pt'[p]) == (p == q || HasSlot(pt[p]));
  }

  lemma SlotsAfterLoad(pt: seq<Pte>, swap: seq<SimPage>, used: set<nat>, p: nat, f: nat, w: bool)
    requires Slots(pt, swap, used) && p < PAGES
    ensures var pt' := pt[p := FreshPte(f, w, pt[p].swapOff)];
            Slots(pt', swap, used) && Swapped(pt') == Swapped(pt)
  {
    var pt' := pt[p := FreshPte(f, w, pt[p].swapOff)];
    assert forall x :: 0 <= x < PAGES ==> HasSlot(pt'[x]) == HasSlot(pt[x]) && SlotOf(pt'[x]) == SlotOf(pt[x]);
  }

  lemma AllocateKeepsSwap(cfg: Config, s: State, p: nat)
    requires Good(cfg) && Inv(cfg, s) && p < PAGES && !s.pt[p].valid
    ensures match AllocateFrame(cfg, s, p)
            case None => true
            case Some((s1, f)) => SwapInv(cfg, s1)
  {
    if Full(s) {
      AllocateFull(cfg, s, p);
      var (f, s1) := Evict(cfg, s);
      var q := s.frames[f].value;
      var slot := SlotFor(cfg, s, q);
      if slot != cfg.swapsize {
        SlotsAfterPageOut(s.pt, s1.pt, s.swap, s.used, q, slot, s.mem[f]);
        SwappedAfterPageOut(s.pt, s1.pt, s.swap, s.used, q, slot);
      }
    } else {
      AllocateCold(cfg, s, p);
    }
  }

  lemma FirstFreeAfterTake(frames: seq<Option<nat>>, p: nat)
    requires forall f, g :: 0 <= f < g < |frames| && frames[g].Some? ==> frames[f].Some?
    requires FirstFree(frames) < |frames|
    ensures FirstFree(frames[FirstFree(frames) := Some(p)]) == FirstFree(frames) + 1
  {
    var f := FirstFree(frames);
    var taken := frames[f := Some(p)];
    if f + 1 < |frames| { assert taken[f + 1].None?; }
  }

  lemma PolicyAfterCold(cfg: Config, s: State, p: nat)
    requires p in Pages(cfg.trace) && Good(cfg) && Inv(cfg, s) && !Full(s)
    ensures var f := FirstFree(s.frames);
            f < cfg.memsize && BetweenPolicy(cfg, s.(frames := s.frames[f := Some(p)]), f)
  {
    var f := FirstFree(s.frames);
    assert f < cfg.memsize && s.frames[f].None?;
    FirstFreeAfterTake(s.frames, p);
  }

  lemma TailOf(xs: seq<nat>)
    requires Distinct(xs) && xs != []
    ensures Distinct(xs[1..]) && xs[0] !in xs[1..]
    ensures forall x :: x in xs <==> x == xs[0] || x in xs[1..]
  {
    assert xs == [xs[0]] + xs[1..];
  }

  lemma PolicyAfterEvict(cfg: Config, s: State, p: nat)
    requires p in Pages(cfg.trace) && Good(cfg) && Inv(cfg, s) && Full(s)
    ensures EvictReady(cfg, s)
    ensures var (f, s1) := Evict(cfg, s);
            && Full(s1.(frames := s.frames[f := Some(p)]))
            && BetweenPolicy(cfg, s1.(frames := s.frames[f := Some(p)]), f)
  {
    FullIsEvictReady(cfg, s);
    if cfg.alg == Lru { TailOf(s.pol.stack); }
  }

  lemma AllocateKeepsPolicy(cfg: Config, s: State, p: nat)
    requires p in Pages(cfg.trace) && Good(cfg) && Inv(cfg, s) && p < PAGES && !s.pt[p].valid
    ensures match AllocateFrame(cfg, s, p)
            case None => true
            case Some((s1, f)) => Shape(cfg, s1) && BetweenPolicy(cfg, s1, f) && s1.cnt.refs == s.cnt.refs
  {
    if Full(s) {
      AllocateFull(cfg, s, p);
      PolicyAfterEvict(cfg, s, p);
    } else {
      AllocateCold(cfg, s, p);
      PolicyAfterCold(cfg, s, p);
    }
  }

  lemma NextIsNamed(cfg: Config, s: State)
    requires s.cnt.refs < |cfg.trace|
    ensures PageOf(NextRef(cfg, s).vaddr) in Pages(cfg.trace)
  {
    assert Pages(cfg.trace)[s.cnt.refs] == PageOf(NextRef(cfg, s).vaddr);
  }

  lemma PolicyAfterLoad(cfg: Config, s: State, p: nat, f: nat, vaddr: nat, w: bool)
    requires Good(cfg) && Between(cfg, s, p, f) && BetweenPolicy(cfg, s, f)
    requires s.pt[p].onswap ==> 0 <= SlotOf(s.pt[p]) < |s.swap|
    ensures PolicyInv(cfg, Loaded(cfg, s, p, f, vaddr, w))
  {
  }

  lemma {:induction false} WithoutAbsent(xs: seq<nat>, x: nat)
    requires x !in xs
    ensures Without(xs, x) == xs
  {
    if xs != [] { WithoutAbsent(xs[1..], x); }
  }

  lemma WithoutIs(xs: seq<nat>, f: nat)
    requires Distinct(xs)
    ensures Distinct(Without(xs, f)) && f !in Without(xs, f)
    ensures forall x :: x in Without(xs, f) <==> x in xs && x != f
  {
    if xs != [] {
      TailOf(xs);
      WithoutIs(xs[1..], f);
    }
  }

  lemma HitKeepsPolicy(cfg: Config, s: State, s1: State, f: nat)
    requires Shape(cfg, s) && PolicyInv(cfg, s) && f < cfg.memsize && s.frames[f].Some?
    requires Shape(cfg, s1) && s1.frames == s.frames && s1.cnt.refs == s.cnt.refs + 1
    requires s1.pol == HitPolicy(cfg, s.pol, f)
    ensures PolicyInv(cfg, s1)
  {
    if cfg.alg == Lru {
      WithoutIs(s.pol.stack, f);
    }
  }

  lemma HitKeepsInv(cfg: Config, s: State, p: nat, w: bool)
    requires Good(cfg) && Inv(cfg, s) && s.cnt.refs < |cfg.trace|
    requires p == PageOf(NextRef(cfg, s).vaddr) && w == IsWrite(NextRef(cfg, s)) && s.pt[p].valid
    ensures var r := FindPhyspage(cfg, s); r.Some? && Inv(cfg, r.value)
  {
    Hit(cfg, s, p, w);
    var s1 := FindPhyspage(cfg, s).value;
    HitKeepsPolicy(cfg, s, s1, s.pt[p].frame);
    assert forall x :: 0 <= x < PAGES ==> SlotOf(s1.pt[x]) == SlotOf(s.pt[x]) && HasSlot(s1.pt[x]) == HasSlot(s.pt[x]);
    assert Swapped(s1.pt) == Swapped(s.pt);
  }

  lemma MissKeepsInv(cfg: Config, s: State, p: nat, w: bool)
    requires Good(cfg) && Inv(cfg, s) && s.cnt.refs < |cfg.trace|
    requires p == PageOf(NextRef(cfg, s).vaddr) && w == IsWrite(NextRef(cfg, s)) && !s.pt[p].valid
    ensures var r := FindPhyspage(cfg, s); r.Some? ==> Inv(cfg, r.value)
  {
    Miss(cfg, s, p, w);
    NextIsNamed(cfg, s);
    var a := AllocateFrame(cfg, s, p);
    if a.Some? {
      var (s1, f) := a.value;
      AllocateKeepsMap(cfg, s, p);
      AllocateKeepsSwap(cfg, s, p);
      AllocateKeepsPolicy(cfg, s, p);
      SlotsAfterLoad(s1.pt, s1.swap, s1.used, p, f, w);
      AgreeAfterLoad(s1.pt, s1.frames, s1.mem, f, p, w, Brought(s1, p, NextRef(cfg, s).vaddr));
      PolicyAfterLoad(cfg, s1, p, f, NextRef(cfg, s).vaddr, w);
    }
  }

  lemma FindKeepsInv(cfg: Config, s: State)
    requires Good(cfg) && Inv(cfg, s) && s.cnt.refs < |cfg.trace|
    ensures var r := FindPhyspage(cfg, s);
            r.Some? ==>
              && Inv(cfg, r.value) && r.value.cnt.refs == s.cnt.refs + 1
              && r.value.pt[PageOf(NextRef(cfg, s).vaddr)].valid
  {
    var p, w := PageOf(NextRef(cfg, s).vaddr), IsWrite(NextRef(cfg, s));
    if s.pt[p].valid {
      HitKeepsInv(cfg, s, p, w);
      Hit(cfg, s, p, w);
    } else {
      MissKeepsInv(cfg, s, p, w);
      Miss(cfg, s, p, w);
      NextIsNamed(cfg, s);
      AllocateKeepsPolicy(cfg, s, p);
    }
  }

  /** access_mem on the next line of the trace; None when the process exits for want of swap space. */
  function Step(cfg: Config, s: State): (r: Option<State>)
    requires Good(cfg) && Inv(cfg, s) && s.cnt.refs < |cfg.trace|
    ensures r.Some? ==> Inv(cfg, r.value) && r.value.cnt.refs == s.cnt.refs + 1
  {
    FindKeepsInv(cfg, s);
    match FindPhyspage(cfg, s)
    case None => None
    case Some(s1) =>
      var f := s1.pt[PageOf(NextRef(cfg, s).vaddr)].frame;
      Some(s1.(mem := s1.mem[f := Written(s1.mem[f], IsWrite(NextRef(cfg, s)))]))
  }

  /** The state main() sets up.  Physical memory and the swap file may hold anything. */
  ghost predicate Initial(cfg: Config, s: State) {
    && Shape(cfg, s)
    && (forall p :: 0 <= p < PAGES ==> s.pt[p] == EMPTY_PTE)
    && (forall f :: 0 <= f < cfg.memsize ==> s.frames[f].None?)
    && s.used == {} && s.cnt == Counters(0, 0, 0, 0, 0) && s.pol == Policy(0, [], 0, 0, 0)
  }

  lemma InitialInv(cfg: Config, s: State)
    requires Good(cfg) && Initial(cfg, s)
    ensures Inv(cfg, s) && !Full(s)
  {
    assert s.frames[0].None?;
    assert Swapped(s.pt) == {};
  }

  /** One successful access. */
  ghost predicate Moves(cfg: Config, s: State, s': State) {
    Good(cfg) && Inv(cfg, s) && s.cnt.refs < |cfg.trace| && Step(cfg, s) == Some(s')
  }

  /** Line `i` of the trace takes the run from its state `i` to its state `i` + 1. */
  ghost predicate MovesAt(cfg: Config, run: seq<State>, i: int) {
    0 <= i < |run| - 1 && Moves(cfg, run[i], run[i + 1])
  }

  /** The states before, between and after the first |run| - 1 lines of the trace. */
  ghost predicate IsRun(cfg: Config, run: seq<State>) {
    && 1 <= |run| && Good(cfg) && Initial(cfg, run[0])
    && forall i :: 0 <= i < |run| - 1 ==> MovesAt(cfg, run, i)
  }

  /** In every reachable state the structures agree, and the policy has seen as many lines as were replayed. */
  lemma {:induction false} ReachableInv(cfg: Config, run: seq<State>, i: nat)
    requires IsRun(cfg, run) && i < |run|
    ensures Inv(cfg, run[i]) && run[i].cnt.refs == i
  {
    if i == 0 { InitialInv(cfg, run[0]); } else {
      ReachableInv(cfg, run, i - 1);
      assert MovesAt(cfg, run, i - 1);
    }
  }

  lemma RunGrows(cfg: Config, run: seq<State>, s': State)
    requires IsRun(cfg, run) && Moves(cfg, run[|run| - 1], s')
    ensures IsRun(cfg, run + [s'])
  {
    var longer := run + [s'];
    forall i | 0 <= i < |longer| - 1
      ensures MovesAt(cfg, longer, i)
    {
      if i < |run| - 1 { assert MovesAt(cfg, run, i); }
    }
  }

  // ---------------------------------------------------------------- the three kinds of access

  /** The page and the kind of access on the line about to be processed. */
  function PageNow(cfg: Config, s: State): nat
    requires s.cnt.refs < |cfg.trace|
  {
    PageOf(NextRef(cfg, s).vaddr)
  }

  function WriteNow(cfg: Config, s: State): bool
    requires s.cnt.refs < |cfg.trace|
  {
    IsWrite(NextRef(cfg, s))
  }

  lemma OnHit(cfg: Config, s: State, s': State)
    requires Moves(cfg, s, s') && s.pt[PageNow(cfg, s)].valid
    ensures var p, w := PageNow(cfg, s), WriteNow(cfg, s);
            var f := s.pt[p].frame;
            && f < cfg.memsize && s.frames[f] == Some(p)
            && s' == s.(pt := s.pt[p := s.pt[p].(dirty := s.pt[p].dirty || w, ref := true)],
                        mem := s.mem[f := Written(s.mem[f], w)],
                        cnt := s.cnt.(hit := s.cnt.hit + 1, refs := s.cnt.refs + 1),
                        pol := HitPolicy(cfg, s.pol, f))
  {
    Hit(cfg, s, PageNow(cfg, s), WriteNow(cfg, s));
  }

  /** The state after `s` once page `q` in frame `f` has gone to `slot` and page `p` has come in with
      content `page`; `pt` and `pol` are the page table and policy state once the policy has picked `f`. */
  function Exchanged(cfg: Config, s: State, pt: seq<Pte>, pol: Policy, p: nat, q: nat, f: nat,
                     slot: nat, page: SimPage, w: bool): State
    requires Shape(cfg, s) && |pt| == PAGES && p < PAGES && q < PAGES && f < cfg.memsize && slot < cfg.swapsize
    requires cfg.alg == Clock ==> pol.hand < cfg.memsize
  {
    var cnt := Evicted(s.cnt, s.pt[q]);
    State(pt[q := PagedOut(pt[q], slot)][p := FreshPte(f, w, s.pt[p].swapOff)],
          s.frames[f := Some(p)],
          s.mem[f := Written(page, w)],
          s.swap[slot := s.mem[f]], s.used + {slot},
          cnt.(miss := cnt.miss + 1, refs := cnt.refs + 1),
          MissPolicy(cfg, pol, f))
  }

  lemma LoadAfterPageOut(cfg: Config, s: State, s2: State, pt: seq<Pte>, pol: Policy, p: nat, q: nat,
                         f: nat, slot: nat, vaddr: nat, w: bool)
    requires Shape(cfg, s) && |pt| == PAGES && p < PAGES && q < PAGES && p != q
    requires f < cfg.memsize && slot < cfg.swapsize
    requires pt[p] == s.pt[p] || pt[p] == s.pt[p].(ref := false)
    requires s.pt[p].onswap ==> 0 <= SlotOf(s.pt[p]) < |s.swap| && SlotOf(s.pt[p]) != slot
    requires cfg.alg == Clock ==> pol.hand < cfg.memsize
    requires s2 == State(pt[q := PagedOut(pt[q], slot)], s.frames[f := Some(p)], s.mem,
                         s.swap[slot := s.mem[f]], s.used + {slot}, Evicted(s.cnt, s.pt[q]), pol)
    ensures var s3 := Loaded(cfg, s2, p, f, vaddr, w);
            s3.(mem := s3.mem[f := Written(s3.mem[f], w)]) ==
            Exchanged(cfg, s, pt, pol, p, q, f, slot, Brought(s, p, vaddr), w)
  {
    Overwrite(s.mem, f, Brought(s, p, vaddr), Written(Brought(s, p, vaddr), w));
  }

  lemma FoundIsMapped(cfg: Config, s: State)
    requires Good(cfg) && Inv(cfg, s) && s.cnt.refs < |cfg.trace|
    ensures var r := FindPhyspage(cfg, s);
            r.Some? ==> PageNow(cfg, s) < |r.value.pt| && r.value.pt[PageNow(cfg, s)].frame < |r.value.mem|
  {
    FindKeepsInv(cfg, s);
  }

  lemma MoveIs(cfg: Config, s: State, s': State)
    requires Moves(cfg, s, s') && !s.pt[PageNow(cfg, s)].valid
    ensures var p, w := PageNow(cfg, s), WriteNow(cfg, s);
            var a := AllocateFrame(cfg, s, p);
            && a.Some?
            && var (s2, f) := a.value;
            && Shape(cfg, s2)
            && (s2.pt[p].onswap ==> 0 <= SlotOf(s2.pt[p]) < |s2.swap|)
            && (cfg.alg == Clock ==> s2.pol.hand < cfg.memsize)
            && var s3 := Loaded(cfg, s2, p, f, NextRef(cfg, s).vaddr, w);
            s' == s3.(mem := s3.mem[f := Written(s3.mem[f], w)])
  {
    Miss(cfg, s, PageNow(cfg, s), WriteNow(cfg, s));
  }

  lemma LoadInto(cfg: Config, s: State, p: nat, f: nat, vaddr: nat, w: bool)
    requires Shape(cfg, s) && p < PAGES && f < cfg.memsize && (s.pt[p].onswap ==> 0 <= SlotOf(s.pt[p]) < |s.swap|)
    requires cfg.alg == Clock ==> s.pol.hand < cfg.memsize
    ensures var s3 := Loaded(cfg, s.(frames := s.frames[f := Some(p)]), p, f, vaddr, w);
            s3.(mem := s3.mem[f := Written(s3.mem[f], w)]) ==
            s.(pt := s.pt[p := FreshPte(f, w, s.pt[p].swapOff)],
               frames := s.frames[f := Some(p)],
               mem := s.mem[f := Written(Brought(s, p, vaddr), w)],
               cnt := s.cnt.(miss := s.cnt.miss + 1, refs := s.cnt.refs + 1),
               pol := MissPolicy(cfg, s.pol, f))
  {
    Overwrite(s.mem, f, Brought(s, p, vaddr), Written(Brought(s, p, vaddr), w));
  }

  lemma OnColdMiss(cfg: Config, s: State, s': State)
    requires Moves(cfg, s, s') && !s.pt[PageNow(cfg, s)].valid && !Full(s)
    ensures var p, w := PageNow(cfg, s), WriteNow(cfg, s);
            var f := FirstFree(s.frames);
            && f < cfg.memsize && s.frames[f].None? && (cfg.alg == Clock ==> s.pol.hand == f)
            && (s.pt[p].onswap ==> 0 <= SlotOf(s.pt[p]) < |s.swap|)
            && s' == s.(pt := s.pt[p := FreshPte(f, w, s.pt[p].swapOff)],
                        frames := s.frames[f := Some(p)],
                        mem := s.mem[f := Written(Brought(s, p, NextRef(cfg, s).vaddr), w)],
                        cnt := s.cnt.(miss := s.cnt.miss + 1, refs := s.cnt.refs + 1),
                        pol := MissPolicy(cfg, s.pol, f))
  {
    var p, w := PageNow(cfg, s), WriteNow(cfg, s);
    AllocateCold(cfg, s, p);
    MoveIs(cfg, s, s');
    LoadInto(cfg, s, p, FirstFree(s.frames), NextRef(cfg, s).vaddr, w);
  }

  lemma OnEviction(cfg: Config, s: State, s': State)
    requires Moves(cfg, s, s') && !s.pt[PageNow(cfg, s)].valid && Full(s)
    ensures EvictReady(cfg, s)
    ensures var p, w := PageNow(cfg, s), WriteNow(cfg, s);
            var (f, s1) := Evict(cfg, s);
            && s.frames[f].Some? && s.frames[f].value < PAGES
            && var q := s.frames[f].value;
            var slot := SlotFor(cfg, s, q);
            && q != p && s.pt[q].valid && 0 <= slot < cfg.swapsize
            && (s.pt[p].onswap ==> 0 <= SlotOf(s.pt[p]) < |s.swap|)
            && (cfg.alg == Clock ==> s1.pol.hand < cfg.memsize)
            && s' == Exchanged(cfg, s, s1.pt, s1.pol, p, q, f, slot, Brought(s, p, NextRef(cfg, s).vaddr), w)
  {
    var p, w := PageNow(cfg, s), WriteNow(cfg, s);
    AllocateFull(cfg, s, p);
    MoveIs(cfg, s, s');
    var (f, s1) := Evict(cfg, s);
    var q := s.frames[f].value;
    var slot := SlotFor(cfg, s, q);
    if s.pt[p].onswap { SlotsApart(cfg, s, p, q); }
    var (s2, _) := AllocateFrame(cfg, s, p).value;
    LoadAfterPageOut(cfg, s, s2, s1.pt, s1.pol, p, q, f, slot, NextRef(cfg, s).vaddr, w);
  }

  /** What an access did.  `EvictAt` carries the page table and policy state once the policy has picked its victim. */
  datatype Event =
    | HitAt(f: nat)
    | ColdAt(f: nat)
    | EvictAt(f: nat, q: nat, slot: nat, pt: seq<Pte>, pol: Policy)

  ghost predicate OnlyRefsCleared(pt: seq<Pte>, pt': seq<Pte>) {
    && |pt'| == |pt|
    && forall x :: 0 <= x < |pt| ==> pt'[x] == pt[x] || pt'[x] == pt[x].(ref := false)
  }

  /** The whole effect of one access, case by case. */
  ghost predicate Did(cfg: Config, s: State, s': State, e: Event) {
    && Shape(cfg, s) && s.cnt.refs < |cfg.trace| && PageNow(cfg, s) < PAGES
    && var p, w := PageNow(cfg, s), WriteNow(cfg, s);
    && (s.pt[p].onswap ==> 0 <= SlotOf(s.pt[p]) < |s.swap|)
    && var page := Brought(s, p, NextRef(cfg, s).vaddr);
    match e
    case HitAt(f) =>
      && s.pt[p].valid && f == s.pt[p].frame < cfg.memsize && s.frames[f] == Some(p)
      && s' == s.(pt := s.pt[p := s.pt[p].(dirty := s.pt[p].dirty || w, ref := true)],
                  mem := s.mem[f := Written(s.mem[f], w)],
                  cnt := s.cnt.(hit := s.cnt.hit + 1, refs := s.cnt.refs + 1),
                  pol := HitPolicy(cfg, s.pol, f))
    case ColdAt(f) =>
      && !s.pt[p].valid && f == FirstFree(s.frames) < cfg.memsize && (cfg.alg == Clock ==> s.pol.hand == f)
      && s' == s.(pt := s.pt[p := FreshPte(f, w, s.pt[p].swapOff)],
                  frames := s.frames[f := Some(p)],
                  mem := s.mem[f := Written(page, w)],
                  cnt := s.cnt.(miss := s.cnt.miss + 1, refs := s.cnt.refs + 1),
                  pol := MissPolicy(cfg, s.pol, f))
    case EvictAt(f, q, slot, pt, pol) =>
      && !s.pt[p].valid && Full(s)
      && f < cfg.memsize && q < PAGES && s.frames[f] == Some(q) && q != p && s.pt[q].valid
      && slot == SlotFor(cfg, s, q) < cfg.swapsize
      && OnlyRefsCleared(s.pt, pt) && (cfg.alg == Clock ==> pol.hand < cfg.memsize)
      && s' == Exchanged(cfg, s, pt, pol, p, q, f, slot, page, w)
  }

  /** Which frame the policy picks on an eviction, and how its own state moves on. */
  ghost predicate Picked(cfg: Config, s: State, e: Event) {
    e.EvictAt? ==>
      Good(cfg) && Shape(cfg, s) && EvictReady(cfg, s) && Evict(cfg, s) == (e.f, s.(pt := e.pt, pol := e.pol))
  }

  lemma Classify(cfg: Config, s: State, s': State) returns (e: Event)
    requires Moves(cfg, s, s')
    ensures Did(cfg, s, s', e) && Picked(cfg, s, e)
  {
    var p := PageNow(cfg, s);
    if s.pt[p].valid {
      OnHit(cfg, s, s');
      e := HitAt(s.pt[p].frame);
    } else if !Full(s) {
      OnColdMiss(cfg, s, s');
      e := ColdAt(FirstFree(s.frames));
    } else {
      OnEviction(cfg, s, s');
      var (f, s1) := Evict(cfg, s);
      var q := s.frames[f].value;
      e := EvictAt(f, q, SlotFor(cfg, s, q), s1.pt, s1.pol);
    }
  }

  /** What line `i` of the trace did. */
  lemma EventAt(cfg: Config, run: seq<State>, i: nat) returns (s: State, s': State, e: Event)
    requires IsRun(cfg, run) && i + 1 < |run|
    ensures s == run[i] && s' == run[i + 1] && Did(cfg, s, s', e) && s.cnt.refs == i < |cfg.trace|
  {
    s, s', e := ChoiceAt(cfg, run, i);
  }

  lemma ChoiceAt(cfg: Config, run: seq<State>, i: nat) returns (s: State, s': State, e: Event)
    requires IsRun(cfg, run) && i + 1 < |run|
    ensures s == run[i] && s' == run[i + 1] && Did(cfg, s, s', e) && Picked(cfg, s, e) && s.cnt.refs == i < |cfg.trace|
  {
    s, s' := run[i], run[i + 1];
    assert MovesAt(cfg, run, i);
    ReachableInv(cfg, run, i);
    e := Classify(cfg, s, s');
  }

  /** What the theorems need of a reachable state, without the policy's part. */
  lemma ReachableAgree(cfg: Config, run: seq<State>, i: nat)
    requires IsRun(cfg, run) && i < |run|
    ensures Shape(cfg, run[i]) && Agree(run[i].pt, run[i].frames, run[i].mem, -1)
    ensures Slots(run[i].pt, run[i].swap, run[i].used) && run[i].cnt.refs == i <= |cfg.trace|
  {
    ReachableInv(cfg, run, i);
  }
}
