/** The simulated memory system as values: one page table entry per page number, the coremap,
    physical memory, the swap file, the counters and the state of every replacement policy.
    `Runs.Step` is one call of access_mem.  The classes of `Simulators` and the modules it imports are proved
    against it. */
module Machine {
  import Belady

  datatype Option<+T> = None | Some(value: T)

  const PAGE_SIZE: nat := 4096
  const PAGES: nat := 0x100_0000        // 2^24 page numbers in 36-bit addresses
  const VADDRS: nat := 0x10_0000_0000   // 2^36
  const SIMPAGESIZE: nat := 16
  const INVALID_SWAP: int := -1

  /** A page table entry with its frame word decoded. */
  datatype Pte = Pte(frame: nat, valid: bool, dirty: bool, ref: bool, onswap: bool, swapOff: int)

  const EMPTY_PTE := Pte(0, false, false, false, false, INVALID_SWAP)

  /** What a simulated page holds: the version counter and the address recorded by init_frame. */
  datatype SimPage = SimPage(version: int, vaddr: nat)

  /** One line of the trace. */
  datatype Ref = Ref(kind: char, vaddr: nat)

  predicate IsWrite(r: Ref) { r.kind == 'M' || r.kind == 'S' }

  function PageOf(vaddr: nat): nat { vaddr / PAGE_SIZE }

  datatype Algorithm = Rand | Lru | Fifo | Clock | Opt

  /** A run's parameters; `random` is the stream of values returned by random(). */
  datatype Config = Config(memsize: nat, swapsize: nat, alg: Algorithm, trace: seq<Ref>, random: nat -> nat)

  datatype Counters = Counters(hit: nat, miss: nat, refs: nat, clean: nat, dirty: nat)

  /** draws: values taken from random(); stack: frames from least to most recently used;
      front: queue_front; hand: clock_hand; time: current_trace. */
  datatype Policy = Policy(draws: nat, stack: seq<nat>, front: nat, hand: nat, time: nat)

  datatype State = State(pt: seq<Pte>, frames: seq<Option<nat>>, mem: seq<SimPage>,
                         swap: seq<SimPage>, used: set<nat>, cnt: Counters, pol: Policy)

  ghost predicate Good(cfg: Config) {
    && 1 <= cfg.memsize < 0x10_0000
    && cfg.swapsize < 0x800_0000
    && forall i :: 0 <= i < |cfg.trace| ==> cfg.trace[i].vaddr < VADDRS
  }

  function Pages(trace: seq<Ref>): (r: seq<nat>)
    ensures |r| == |trace| && forall i :: 0 <= i < |r| ==> r[i] == PageOf(trace[i].vaddr)
  {
    seq(|trace|, i requires 0 <= i < |trace| => PageOf(trace[i].vaddr))
  }

  // ---------------------------------------------------------------- searches

  /** The first free frame, or |frames|. */
  function FirstFree(frames: seq<Option<nat>>): (k: nat)
    ensures k <= |frames|
    ensures k < |frames| ==> frames[k].None?
    ensures forall i :: 0 <= i < k ==> frames[i].Some?
  {
    if |frames| == 0 || frames[0].None? then 0 else 1 + FirstFree(frames[1..])
  }

  /** The least index at or above `i` that is not used, or `n`. */
  function LeastFree(used: set<nat>, i: nat, n: nat): (k: nat)
    requires i <= n
    ensures i <= k <= n
    ensures k < n ==> k !in used
    ensures forall j :: i <= j < k ==> j in used
    decreases n - i
  {
    if i == n || i !in used then i else LeastFree(used, i + 1, n)
  }

  /** `k` places on from `i` in a ring of `m`. */
  function Around(i: nat, k: nat, m: nat): (r: nat)
    requires i < m && k <= m
    ensures r < m
  {
    if i + k < m then i + k else i + k - m
  }

  // ---------------------------------------------------------------- invariants

  ghost predicate Shape(cfg: Config, s: State) {
    |s.pt| == PAGES && |s.frames| == |s.mem| == cfg.memsize && |s.swap| == cfg.swapsize
  }

  ghost predicate Full(s: State) {
    forall f :: 0 <= f < |s.frames| ==> s.frames[f].Some?
  }

  /** Coremap, page table and the addresses in memory agree, except at frame `except` (-1 for none).
      Free frames come after used ones. */
  ghost predicate Agree(pt: seq<Pte>, frames: seq<Option<nat>>, mem: seq<SimPage>, except: int) {
    && |pt| == PAGES && |frames| == |mem|
    && (forall f :: 0 <= f < |frames| && f != except && frames[f].Some? ==>
          frames[f].value < PAGES && pt[frames[f].value].valid && pt[frames[f].value].frame == f)
    && (forall f :: 0 <= f < |frames| && f != except && frames[f].Some? ==>
          PageOf(mem[f].vaddr) == frames[f].value)
    && (forall p :: 0 <= p < PAGES && pt[p].valid ==>
          pt[p].frame < |frames| && frames[pt[p].frame] == Some(p) && !pt[p].onswap)
    && (forall f, g :: 0 <= f < g < |frames| && frames[g].Some? ==> frames[f].Some?)
  }

  ghost predicate MapInv(cfg: Config, s: State) { Agree(s.pt, s.frames, s.mem, -1) }

  predicate HasSlot(e: Pte) { e.swapOff != INVALID_SWAP }

  function SlotOf(e: Pte): int { e.swapOff / SIMPAGESIZE }

  /** The pages with a slot in the swap file, that is, the pages that have ever been evicted. */
  ghost function Swapped(pt: seq<Pte>): set<nat> {
    set p | 0 <= p < |pt| && HasSlot(pt[p])
  }

  /** Every slot is in range, marked used and given to one page only; the slot of a page on swap holds that page. */
  ghost predicate Slots(pt: seq<Pte>, swap: seq<SimPage>, used: set<nat>) {
    && |pt| == PAGES
    && (forall p :: 0 <= p < PAGES && HasSlot(pt[p]) ==>
          0 <= SlotOf(pt[p]) < |swap| && pt[p].swapOff == SlotOf(pt[p]) * SIMPAGESIZE && SlotOf(pt[p]) in used)
    && (forall p, q :: 0 <= p < q < PAGES && HasSlot(pt[p]) && HasSlot(pt[q]) ==> SlotOf(pt[p]) != SlotOf(pt[q]))
    && (forall p :: 0 <= p < PAGES && pt[p].onswap ==> HasSlot(pt[p]) && PageOf(swap[SlotOf(pt[p])].vaddr) == p)
    && (forall i :: i in used ==> i < |swap|)
  }

  ghost predicate SwapInv(cfg: Config, s: State) {
    && Slots(s.pt, s.swap, s.used)
    && |s.used| == |Swapped(s.pt)|
  }

  ghost predicate Distinct(xs: seq<nat>) {
    forall i, j :: 0 <= i < j < |xs| ==> xs[i] != xs[j]
  }

  ghost predicate PolicyInv(cfg: Config, s: State)
    requires Shape(cfg, s)
  {
    match cfg.alg
    case Rand => true
    case Lru =>
      && Distinct(s.pol.stack)
      && (forall f :: f in s.pol.stack ==> 0 <= f < cfg.memsize && s.frames[f].Some?)
      && (forall f :: 0 <= f < cfg.memsize && s.frames[f].Some? ==> f in s.pol.stack)
    case Fifo => s.pol.front < cfg.memsize && (!Full(s) ==> s.pol.front == 0)
    case Clock => s.pol.hand < cfg.memsize && (!Full(s) ==> s.pol.hand == FirstFree(s.frames))
    case Opt =>
      && s.pol.time == s.cnt.refs
      && forall f :: 0 <= f < cfg.memsize && s.frames[f].Some? ==> s.frames[f].value in Pages(cfg.trace)
  }

  ghost predicate Inv(cfg: Config, s: State) {
    && Shape(cfg, s)
    && MapInv(cfg, s)
    && SwapInv(cfg, s)
    && PolicyInv(cfg, s)
    && s.cnt.refs <= |cfg.trace|
  }

  // ---------------------------------------------------------------- replacement policies

  /** The page in each frame, by the address stored in the frame itself. */
  function FramePages(mem: seq<SimPage>): (r: seq<nat>)
    ensures |r| == |mem|
    ensures forall i :: 0 <= i < |r| ==> r[i] == PageOf(mem[i].vaddr)
  {
    seq(|mem|, i requires 0 <= i < |mem| => PageOf(mem[i].vaddr))
  }

  /** The first frame among the first `n` whose page has the latest next use. */
  function OptVictim(trace: seq<nat>, t: nat, pages: seq<nat>, n: nat): (f: nat)
    requires t <= |trace| && 1 <= n <= |pages|
    ensures f < n
    ensures forall i :: 0 <= i < n ==> Belady.NextUse(trace, t, pages[i]) <= Belady.NextUse(trace, t, pages[f])
    ensures forall i :: 0 <= i < f ==> Belady.NextUse(trace, t, pages[i]) < Belady.NextUse(trace, t, pages[f])
  {
    if n == 1 then 0
    else
      var f := OptVictim(trace, t, pages, n - 1);
      if Belady.NextUse(trace, t, pages[f]) < Belady.NextUse(trace, t, pages[n - 1]) then n - 1 else f
  }

  predicate RefAt(pt: seq<Pte>, frames: seq<Option<nat>>, f: nat)
    requires f < |frames| && frames[f].Some? && frames[f].value < |pt|
  {
    pt[frames[f].value].ref
  }

  ghost predicate AllMapped(pt: seq<Pte>, frames: seq<Option<nat>>) {
    forall f :: 0 <= f < |frames| ==> frames[f].Some? && frames[f].value < |pt|
  }

  /** How many frames from the hand on have their reference bit set, before the first that has not. */
  function Skips(pt: seq<Pte>, frames: seq<Option<nat>>, hand: nat, k: nat): (n: nat)
    requires AllMapped(pt, frames) && hand < |frames| && k <= |frames|
    ensures k <= n <= |frames|
    ensures n < |frames| ==> !RefAt(pt, frames, Around(hand, n, |frames|))
    ensures forall i :: k <= i < n ==> RefAt(pt, frames, Around(hand, i, |frames|))
    decreases |frames| - k
  {
    if k == |frames| || !RefAt(pt, frames, Around(hand, k, |frames|)) then k
    else Skips(pt, frames, hand, k + 1)
  }

  /** The page table after the reference bits of the `k` frames from the hand on are cleared. */
  function ClearRefs(pt: seq<Pte>, frames: seq<Option<nat>>, hand: nat, k: nat): (r: seq<Pte>)
    requires AllMapped(pt, frames) && hand < |frames| && k <= |frames|
    ensures |r| == |pt|
    ensures forall p :: 0 <= p < |pt| ==> r[p] == pt[p] || r[p] == pt[p].(ref := false)
    decreases k
  {
    if k == 0 then pt
    else
      var r := ClearRefs(pt, frames, hand, k - 1);
      var q := frames[Around(hand, k - 1, |frames|)].value;
      r[q := r[q].(ref := false)]
  }

  /** What the policy in use needs of the state in order to pick a victim. */
  ghost predicate EvictReady(cfg: Config, s: State) {
    match cfg.alg
    case Rand => true
    case Lru => s.pol.stack != [] && s.pol.stack[0] < cfg.memsize
    case Fifo => s.pol.front < cfg.memsize
    case Clock => s.pol.hand < cfg.memsize && AllMapped(s.pt, s.frames)
    case Opt => s.pol.time <= |cfg.trace|
  }

  lemma FullIsEvictReady(cfg: Config, s: State)
    requires Good(cfg) && Inv(cfg, s) && Full(s)
    ensures EvictReady(cfg, s)
  {
    assert s.frames[0].Some?;
    assert AllMapped(s.pt, s.frames);
    if cfg.alg == Lru { assert s.pol.stack[0] in s.pol.stack; }
  }

  /** evict_fcn: the victim frame, and the state with the policy moved on. */
  function Evict(cfg: Config, s: State): (r: (nat, State))
    requires Good(cfg) && Shape(cfg, s) && EvictReady(cfg, s)
    ensures r.0 < cfg.memsize
    ensures r.1 == s.(pt := r.1.pt, pol := r.1.pol) && |r.1.pt| == |s.pt|
    ensures forall p :: 0 <= p < |s.pt| ==> r.1.pt[p] == s.pt[p] || r.1.pt[p] == s.pt[p].(ref := false)
  {
    match cfg.alg
    case Rand => (cfg.random(s.pol.draws) % cfg.memsize, s.(pol := s.pol.(draws := s.pol.draws + 1)))
    case Lru => (s.pol.stack[0], s.(pol := s.pol.(stack := s.pol.stack[1..])))
    case Fifo => (s.pol.front, s.(pol := s.pol.(front := Around(s.pol.front, 1, cfg.memsize))))
    case Clock =>
      var k := Skips(s.pt, s.frames, s.pol.hand, 0);
      var hand := Around(s.pol.hand, k, cfg.memsize);
      (hand, s.(pt := ClearRefs(s.pt, s.frames, s.pol.hand, k), pol := s.pol.(hand := hand)))
    case Opt => (OptVictim(Pages(cfg.trace), s.pol.time, FramePages(s.mem), cfg.memsize), s)
  }

  /** The stack without frame `f`. */
  function Without(xs: seq<nat>, f: nat): (r: seq<nat>)
    ensures |r| <= |xs|
  {
    if xs == [] then [] else (if xs[0] == f then [] else [xs[0]]) + Without(xs[1..], f)
  }

  /** ref_fcn on the entry of page `p`, which is not yet marked valid when `p` has just been loaded. */
  function RefFcn(cfg: Config, s: State, p: nat): State
    requires Shape(cfg, s) && p < PAGES
    requires cfg.alg == Clock ==> s.pol.hand < cfg.memsize && (!s.pt[p].valid ==>
                                  s.frames[s.pol.hand].Some? && s.frames[s.pol.hand].value < PAGES)
  {
    match cfg.alg
    case Rand => s
    case Fifo => s
    case Lru =>
      var f := s.pt[p].frame;
      s.(pol := s.pol.(stack := (if s.pt[p].valid then Without(s.pol.stack, f) else s.pol.stack) + [f]))
    case Clock =>
      if s.pt[p].valid then s.(pt := s.pt[p := s.pt[p].(ref := true)])
      else
        var q := s.frames[s.pol.hand].value;
        if s.pt[q].ref then s
        else s.(pt := s.pt[q := s.pt[q].(ref := true)],
                pol := s.pol.(hand := Around(s.pol.hand, 1, cfg.memsize)))
    case Opt => s.(pol := s.pol.(time := s.pol.time + 1))
  }

  // ---------------------------------------------------------------- one access

  /** Write the page in frame `f` to its swap slot, allocating one if it has none; None is exit(1). */
  function PageOut(cfg: Config, s: State, f: nat): Option<State>
    requires Shape(cfg, s) && f < cfg.memsize && s.frames[f].Some? && s.frames[f].value < PAGES
    requires HasSlot(s.pt[s.frames[f].value]) ==> 0 <= SlotOf(s.pt[s.frames[f].value]) < cfg.swapsize
  {
    var q := s.frames[f].value;
    var e := s.pt[q];
    var slot := SlotFor(cfg, s, q);
    if slot == cfg.swapsize then None
    else
      Some(s.(pt := s.pt[q := PagedOut(e, slot)], swap := s.swap[slot := s.mem[f]],
              used := s.used + {slot}, cnt := Evicted(s.cnt, e)))
  }

  /** Frame `f` recorded as holding page `p`. */
  function Taken(s: State, f: nat, p: nat): State
    requires f < |s.frames|
  {
    s.(frames := s.frames[f := Some(p)])
  }

  /** allocate_frame: a frame for page `p`. */
  function AllocateFrame(cfg: Config, s: State, p: nat): (r: Option<(State, nat)>)
    requires Good(cfg) && Inv(cfg, s) && p < PAGES && !s.pt[p].valid
    ensures r.Some? ==> Shape(cfg, r.value.0) && r.value.1 < cfg.memsize
  {
    var free := FirstFree(s.frames);
    if free < cfg.memsize then Some((Taken(s, free, p), free))
    else
      FullIsEvictReady(cfg, s);
      var (f, s1) := Evict(cfg, s);
      match PageOut(cfg, s1, f)
      case None => None
      case Some(s2) => Some((Taken(s2, f, p), f))
  }

  /** While a frame is free, the first free one is taken. */
  lemma AllocateCold(cfg: Config, s: State, p: nat)
    requires Good(cfg) && Inv(cfg, s) && p < PAGES && !s.pt[p].valid && !Full(s)
    ensures var f := FirstFree(s.frames);
            && f < cfg.memsize && s.frames[f].None?
            && AllocateFrame(cfg, s, p) == Some((s.(frames := s.frames[f := Some(p)]), f))
            && (cfg.alg == Clock ==> s.pol.hand == f)
  {
  }

  /** The slot that page `q` is written to on eviction, or swapsize if the swap file is exhausted. */
  function SlotFor(cfg: Config, s: State, q: nat): int
    requires q < |s.pt|
  {
    if HasSlot(s.pt[q]) then SlotOf(s.pt[q]) else LeastFree(s.used, 0, cfg.swapsize)
  }

  function PagedOut(e: Pte, slot: int): Pte {
    e.(onswap := true, valid := false, swapOff := slot * SIMPAGESIZE)
  }

  function Evicted(cnt: Counters, e: Pte): Counters {
    if e.dirty then cnt.(dirty := cnt.dirty + 1) else cnt.(clean := cnt.clean + 1)
  }

  /** Once memory is full a victim is written out, and the run exits exactly when the victim has no slot and
      no slot is free. */
  lemma AllocateFull(cfg: Config, s: State, p: nat)
    requires Good(cfg) && Inv(cfg, s) && p < PAGES && !s.pt[p].valid && Full(s)
    ensures EvictReady(cfg, s)
    ensures var (f, s1) := Evict(cfg, s);
            && s.frames[f].Some? && s.frames[f].value < PAGES
            && var q := s.frames[f].value;
            var slot := SlotFor(cfg, s, q);
            && q != p && 0 <= slot <= cfg.swapsize
            && AllocateFrame(cfg, s, p) ==
              if slot == cfg.swapsize then None
              else Some((State(s1.pt[q := PagedOut(s1.pt[q], slot)], s.frames[f := Some(p)], s.mem,
                               s.swap[slot := s.mem[f]], s.used + {slot}, Evicted(s.cnt, s.pt[q]), s1.pol), f))
  {
    FullIsEvictReady(cfg, s);
    var (f, s1) := Evict(cfg, s);
    assert s.frames[f].Some?;
    var q := s.frames[f].value;
    assert s.pt[q].valid;
    assert FirstFree(s.frames) == cfg.memsize;
  }

  /** Where the clock hand points once page `p` has its frame: at that frame. */
  lemma AllocateFrameReady(cfg: Config, s: State, p: nat)
    requires Good(cfg) && Inv(cfg, s) && p < PAGES && !s.pt[p].valid
    ensures var r := AllocateFrame(cfg, s, p);
            r.Some? ==>
              var (s1, f) := r.value;
              && Shape(cfg, s1)
              && (s1.pt[p].onswap ==> 0 <= SlotOf(s1.pt[p]) < |s1.swap|)
              && s1.frames[f] == Some(p)
              && (cfg.alg == Clock ==> s1.pol.hand == f)
  {
    if Full(s) { AllocateFull(cfg, s, p); } else { AllocateCold(cfg, s, p); }
  }

  /** The entry and the content of a page that has just been given frame `f`. */
  function Filled(s: State, p: nat, f: nat, vaddr: nat): State
    requires p < |s.pt| && f < |s.mem|
    requires s.pt[p].onswap ==> 0 <= SlotOf(s.pt[p]) < |s.swap|
  {
    s.(pt := s.pt[p := Pte(f, false, false, false, false, s.pt[p].swapOff)],
       mem := s.mem[f := if s.pt[p].onswap then s.swap[SlotOf(s.pt[p])] else SimPage(0, vaddr)])
  }

  function Missed(s: State): State { s.(cnt := s.cnt.(miss := s.cnt.miss + 1)) }

  function Load(s: State, p: nat, f: nat, vaddr: nat): State
    requires p < |s.pt| && f < |s.mem|
    requires s.pt[p].onswap ==> 0 <= SlotOf(s.pt[p]) < |s.swap|
  {
    Missed(Filled(s, p, f, vaddr))
  }

  function NextRef(cfg: Config, s: State): Ref
    requires s.cnt.refs < |cfg.trace|
  {
    cfg.trace[s.cnt.refs]
  }

  /** The reference counted, and the dirty bit set on a write. */
  function Counted(s: State, p: nat, w: bool): State
    requires p < |s.pt|
  {
    s.(pt := s.pt[p := s.pt[p].(dirty := s.pt[p].dirty || w)], cnt := s.cnt.(refs := s.cnt.refs + 1))
  }

  /** The entry marked valid and referenced. */
  function Used(s: State, p: nat): State
    requires p < |s.pt|
  {
    s.(pt := s.pt[p := s.pt[p].(valid := true, ref := true)])
  }

  /** The rest of find_physpage, once the page has its frame.  The entry is marked valid only after ref_fcn. */
  function Touch(cfg: Config, s: State, p: nat, w: bool): State
    requires Shape(cfg, s) && p < PAGES
    requires cfg.alg == Clock ==> s.pol.hand < cfg.memsize && (!s.pt[p].valid ==>
                                  s.frames[s.pol.hand].Some? && s.frames[s.pol.hand].value < PAGES)
  {
    Used(RefFcn(cfg, Counted(s, p, w), p), p)
  }

  /** find_physpage on a page in memory. */
  function FindHit(cfg: Config, s: State, p: nat, w: bool): State
    requires Shape(cfg, s) && p < PAGES && s.pt[p].valid
    requires cfg.alg == Clock ==> s.pol.hand < cfg.memsize
  {
    Touch(cfg, s.(cnt := s.cnt.(hit := s.cnt.hit + 1)), p, w)
  }

  /** find_physpage on a page that is not in memory. */
  function FindMiss(cfg: Config, s: State, p: nat, vaddr: nat, w: bool): Option<State>
    requires Good(cfg) && Inv(cfg, s) && p < PAGES && !s.pt[p].valid
  {
    match AllocateFrame(cfg, s, p)
    case None => None
    case Some((s1, f)) =>
      AllocateFrameReady(cfg, s, p);
      Some(Touch(cfg, Load(s1, p, f, vaddr), p, w))
  }

  /** find_physpage for the next line of the trace. */
  function FindPhyspage(cfg: Config, s: State): Option<State>
    requires Good(cfg) && Inv(cfg, s) && s.cnt.refs < |cfg.trace|
  {
    var next := NextRef(cfg, s);
    var p := PageOf(next.vaddr);
    if s.pt[p].valid then Some(FindHit(cfg, s, p, IsWrite(next)))
    else FindMiss(cfg, s, p, next.vaddr, IsWrite(next))
  }

  // ---------------------------------------------------------------- what one access comes to

  /** What page `p` holds when it has just been brought in: its last content, or a page of zeros with the address. */
  function Brought(s: State, p: nat, vaddr: nat): SimPage
    requires p < |s.pt| && (s.pt[p].onswap ==> 0 <= SlotOf(s.pt[p]) < |s.swap|)
  {
    if s.pt[p].onswap then s.swap[SlotOf(s.pt[p])] else SimPage(0, vaddr)
  }

  function HitPolicy(cfg: Config, pol: Policy, f: nat): Policy {
    match cfg.alg
    case Lru => pol.(stack := Without(pol.stack, f) + [f])
    case Opt => pol.(time := pol.time + 1)
    case _ => pol
  }

  function MissPolicy(cfg: Config, pol: Policy, f: nat): Policy
    requires cfg.alg == Clock ==> pol.hand < cfg.memsize
  {
    match cfg.alg
    case Lru => pol.(stack := pol.stack + [f])
    case Clock => pol.(hand := Around(pol.hand, 1, cfg.memsize))
    case Opt => pol.(time := pol.time + 1)
    case _ => pol
  }

  function FreshPte(f: nat, w: bool, swapOff: int): Pte {
    Pte(f, true, w, true, false, swapOff)
  }

  /** The state once page `p` has been brought into its frame `f` and touched. */
  function Loaded(cfg: Config, s: State, p: nat, f: nat, vaddr: nat, w: bool): State
    requires Shape(cfg, s) && p < PAGES && f < cfg.memsize
    requires s.pt[p].onswap ==> 0 <= SlotOf(s.pt[p]) < |s.swap|
    requires cfg.alg == Clock ==> s.pol.hand < cfg.memsize
  {
    s.(pt := s.pt[p := FreshPte(f, w, s.pt[p].swapOff)], mem := s.mem[f := Brought(s, p, vaddr)],
       cnt := s.cnt.(miss := s.cnt.miss + 1, refs := s.cnt.refs + 1), pol := MissPolicy(cfg, s.pol, f))
  }

  function Written(page: SimPage, w: bool): SimPage {
    if w then page.(version := page.version + 1) else page
  }
}
