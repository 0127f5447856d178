/** The simulator: memory with one of the five replacement policies, replaying a trace. */
module Simulators {
  import opened Machine
  import opened Runs
  import opened PageTables
  import opened Memories
  import LruLists
  import LruOrder
  import Accounting
  import FlatMemory
  import Policies
  import ClockQueue
  import OptPolicy
  import OptIndex

  /** What evict_fcn needs of a full memory. */
  ghost predicate EvictFacts(cfg: Config, s: State) {
    && Shape(cfg, s) && EvictReady(cfg, s) && AllMapped(s.pt, s.frames)
    && match cfg.alg
       case Lru =>
         |s.pol.stack| == cfg.memsize && forall g :: 0 <= g < cfg.memsize ==> s.pt[s.frames[g].value].frame == g
       case Clock => ClockQueue.Apart(s.frames)
       case Opt => forall g :: 0 <= g < cfg.memsize ==>
                     PageOf(s.mem[g].vaddr) < PAGES && PageOf(s.mem[g].vaddr) in Pages(cfg.trace)
       case _ => true
  }

  lemma FullForEvict(cfg: Config, s: State)
    requires Good(cfg) && Inv(cfg, s) && Full(s)
    ensures EvictFacts(cfg, s)
  {
    FullIsEvictReady(cfg, s);
    ClockQueue.MappedApart(s.pt, s.frames, s.mem);
    if cfg.alg == Lru {
      LruOrder.StackSize(s.pt, s.frames, s.mem, s.pol.stack);
      assert FirstFree(s.frames) == cfg.memsize;
    }
  }

  /** What ref_fcn needs when the entry of page `x` names its frame. */
  ghost predicate RefFacts(cfg: Config, s: State, x: nat) {
    && Shape(cfg, s) && x < PAGES && s.pt[x].frame < cfg.memsize
    && match cfg.alg
       case Lru =>
         if s.pt[x].valid then s.pt[x].frame in s.pol.stack
         else s.pt[x].frame !in s.pol.stack && |s.pol.stack| < cfg.memsize
       case Clock =>
         && s.pol.hand < cfg.memsize
         && (!s.pt[x].valid ==> s.frames[s.pol.hand].Some? && s.frames[s.pol.hand].value < PAGES)
       case Opt =>
         s.pol.time < |cfg.trace| && PageOf(s.mem[s.pt[x].frame].vaddr) == Pages(cfg.trace)[s.pol.time] < PAGES
       case _ => true
  }

  lemma HitIsTouch(cfg: Config, s: State, counted: State, x: nat, write: bool)
    requires RefFacts(cfg, s, x) && s.pt[x].valid && counted == s.(cnt := s.cnt.(hit := s.cnt.hit + 1))
    ensures RefFacts(cfg, counted, x) && FindHit(cfg, s, x, write) == Touch(cfg, counted, x, write)
  {
  }

  /** What writing out the page in frame `f` needs. */
  ghost predicate VictimFacts(cfg: Config, s: State, f: nat) {
    && Shape(cfg, s) && f < cfg.memsize && s.frames[f].Some? && s.frames[f].value < PAGES
    && var e := s.pt[s.frames[f].value];
    && e.valid
    && (HasSlot(e) ==> 0 <= SlotOf(e) < cfg.swapsize && e.swapOff == SlotOf(e) * SIMPAGESIZE && SlotOf(e) in s.used)
  }

  lemma FullForAllocate(cfg: Config, s: State)
    requires Good(cfg) && Inv(cfg, s) && Full(s)
    ensures EvictFacts(cfg, s) && VictimFacts(cfg, Evict(cfg, s).1, Evict(cfg, s).0)
  {
    FullForEvict(cfg, s);
    var (f, s1) := Evict(cfg, s);
    assert s.pt[s.frames[f].value].valid;
  }

  /** What Load needs of the state allocate_frame leaves, and what ref_fcn needs of the state Load leaves. */
  ghost predicate LoadFacts(cfg: Config, s1: State, x: nat, f: nat, vaddr: nat) {
    && Shape(cfg, s1) && x < PAGES && f < cfg.memsize
    && (s1.pt[x].onswap ==>
          && HasSlot(s1.pt[x]) && 0 <= SlotOf(s1.pt[x]) < cfg.swapsize
          && s1.pt[x].swapOff == SlotOf(s1.pt[x]) * SIMPAGESIZE)
    && RefFacts(cfg, Load(s1, x, f, vaddr), x)
  }

  lemma RoomOnStack(stack: seq<nat>, f: nat, m: nat)
    requires Distinct(stack) && f !in stack && f < m && forall g :: g in stack ==> g < m
    ensures |stack| < m
  {
    var all := stack + [f];
    assert forall i :: 0 <= i < |stack| ==> all[i] in stack;
    LruOrder.DistinctCard(all);
    Accounting.SubsetCard(LruOrder.Elements(all), Accounting.Below(m));
  }

  lemma BetweenForLoad(cfg: Config, s1: State, x: nat, f: nat, vaddr: nat)
    requires Between(cfg, s1, x, f) && BetweenPolicy(cfg, s1, f) && Slots(s1.pt, s1.swap, s1.used)
    requires PageOf(vaddr) == x
    requires cfg.alg == Opt ==> s1.pol.time < |cfg.trace| && Pages(cfg.trace)[s1.pol.time] == x
    ensures LoadFacts(cfg, s1, x, f, vaddr)
  {
    if cfg.alg == Lru { RoomOnStack(s1.pol.stack, f, cfg.memsize); }
  }

  lemma AllocateKeepsOnswap(cfg: Config, s: State, p: nat)
    requires Good(cfg) && Inv(cfg, s) && p < PAGES && !s.pt[p].valid
    ensures match AllocateFrame(cfg, s, p)
            case None => true
            case Some((s1, f)) => |s1.pt| == PAGES && s1.pt[p].onswap == s.pt[p].onswap && s1.pol.time == s.pol.time
  {
    if Full(s) { AllocateFull(cfg, s, p); } else { AllocateCold(cfg, s, p); }
  }

  lemma MissForLoad(cfg: Config, s: State)
    requires Good(cfg) && Inv(cfg, s) && s.cnt.refs < |cfg.trace| && !s.pt[PageNow(cfg, s)].valid
    ensures match AllocateFrame(cfg, s, PageNow(cfg, s))
            case None => true
            case Some((s1, f)) =>
              && |s1.pt| == PAGES && s1.pt[PageNow(cfg, s)].onswap == s.pt[PageNow(cfg, s)].onswap
              && LoadFacts(cfg, s1, PageNow(cfg, s), f, NextRef(cfg, s).vaddr)
  {
    var p := PageNow(cfg, s);
    var a := AllocateFrame(cfg, s, p);
    if a.Some? {
      NextIsNamed(cfg, s);
      AllocateKeepsMap(cfg, s, p);
      AllocateKeepsSwap(cfg, s, p);
      AllocateKeepsPolicy(cfg, s, p);
      AllocateKeepsOnswap(cfg, s, p);
      BetweenForLoad(cfg, a.value.0, p, a.value.1, NextRef(cfg, s).vaddr);
    }
  }

  /** The process has exited: the next line has no outcome. */
  ghost predicate Stuck(cfg: Config, run: seq<State>) {
    && IsRun(cfg, run) && |run| <= |cfg.trace|
    && Inv(cfg, run[|run| - 1]) && run[|run| - 1].cnt.refs < |cfg.trace|
    && Step(cfg, run[|run| - 1]) == None
  }

  /** access_mem's check on the last line of a run. */
  ghost predicate Complains(s: State, vaddr: nat) {
    && PageOf(vaddr) < |s.pt| && s.pt[PageOf(vaddr)].frame < |s.mem|
    && s.mem[s.pt[PageOf(vaddr)].frame].vaddr != vaddr
  }

  lemma LineDone(cfg: Config, run: seq<State>, s1: State)
    requires IsRun(cfg, run) && |run| - 1 < |cfg.trace| && Moves(cfg, run[|run| - 1], s1)
    ensures IsRun(cfg, run + [s1])
    ensures Complains(s1, cfg.trace[|run| - 1].vaddr) <==> FlatMemory.NotFirstAddress(cfg.trace, |run|)
  {
    var longer := run + [s1];
    RunGrows(cfg, run, s1);
    assert longer[|run|] == s1;
    FlatMemory.ComplaintIffNotFirstAddress(cfg, longer, |run|);
  }

  lemma LineStarts(cfg: Config, run: seq<State>, s: State)
    requires IsRun(cfg, run) && |run| - 1 < |cfg.trace| && s == run[|run| - 1]
    ensures Inv(cfg, s) && s.cnt.refs == |run| - 1
    ensures Step(cfg, s) == None ==> Stuck(cfg, run)
    ensures Step(cfg, s).Some? ==> Moves(cfg, s, Step(cfg, s).value)
  {
    ReachableInv(cfg, run, |run| - 1);
  }

  /** What the next line does to a run. */
  lemma NextLine(cfg: Config, run: seq<State>, s: State)
    requires IsRun(cfg, run) && |run| - 1 < |cfg.trace| && s == run[|run| - 1]
    ensures Inv(cfg, s) && s.cnt.refs == |run| - 1 && NextRef(cfg, s) == cfg.trace[|run| - 1]
    ensures match Step(cfg, s)
            case None => Stuck(cfg, run)
            case Some(s1) =>
              && IsRun(cfg, run + [s1])
              && (Complains(s1, cfg.trace[|run| - 1].vaddr) <==> FlatMemory.NotFirstAddress(cfg.trace, |run|))
  {
    LineStarts(cfg, run, s);
    if Step(cfg, s).Some? { LineDone(cfg, run, Step(cfg, s).value); }
  }

  /** The page in frame `f` after the version counter is dealt with. */
  function Bumped(s: State, f: nat, write: bool): State
    requires f < |s.mem|
  {
    s.(mem := s.mem[f := Written(s.mem[f], write)])
  }

  /** access_mem after find_physpage has found frame `f` and left state `s1`. */
  lemma StepFrom(cfg: Config, s: State, s1: State, f: nat, vaddr: nat, write: bool)
    requires Good(cfg) && Inv(cfg, s) && s.cnt.refs < |cfg.trace| && FindPhyspage(cfg, s) == Some(s1)
    requires NextRef(cfg, s).vaddr == vaddr && IsWrite(NextRef(cfg, s)) == write
    requires PageOf(vaddr) < |s1.pt| && f == s1.pt[PageOf(vaddr)].frame
    ensures f < |s1.mem| == cfg.memsize && Step(cfg, s) == Some(Bumped(s1, f, write))
    ensures Complains(Bumped(s1, f, write), vaddr) == (s1.mem[f].vaddr != vaddr)
  {
    FindKeepsInv(cfg, s);
  }

  class Simulator {
    ghost const cfg: Config
    const alg: Algorithm
    const random: nat -> nat
    const memory: Memory
    const lru: LruLists.Lru
    const fifo: Policies.Fifo
    const clock: Policies.Clock
    const opt: OptPolicy.Opt
    var draws: nat

    ghost function PolicyState(): Policy
      reads this, lru, fifo, clock, opt
    {
      Policy(draws, lru.stack, fifo.queueFront, clock.hand, opt.currentTrace)
    }

    ghost function Reads(): set<object>
      reads memory.pt, opt
    {
      {this, memory, memory.physmem, memory.coremap, memory.swap.slots, memory.swap.swapmap.v, memory.pt,
       lru, fifo, clock, opt} + memory.pt.Repr + opt.Repr
    }

    ghost predicate Wired()
      reads memory.pt, opt
    {
      && Good(cfg) && cfg.memsize == memory.memsize && cfg.swapsize == memory.swap.slots.Length
      && cfg.alg == alg && cfg.random == random
      && lru.coremap == memory.coremap && lru.pt == memory.pt
      && clock.coremap == memory.coremap && clock.pt == memory.pt
      && fifo.memsize == memory.memsize && opt.physmem == memory.physmem
      && this !in memory.pt.Repr && this !in opt.Repr
      && lru !in memory.pt.Repr && lru !in opt.Repr
      && fifo !in memory.pt.Repr && fifo !in opt.Repr
      && clock !in memory.pt.Repr && clock !in opt.Repr
      && opt !in memory.pt.Repr && opt !in opt.Repr
      && memory.Parts() !! opt.Repr && memory.pt.Repr !! opt.Repr
    }

    ghost predicate Built()
      reads this, Reads()
    {
      Wired() && memory.Valid() && lru.Valid() && fifo.Valid() && clock.Valid() && opt.Valid()
    }

    /** Every structure is sound and, under `opt`, the index is at the line about to be replayed. */
    ghost predicate Valid()
      reads this, Reads()
    {
      && Built()
      && (alg == Opt ==>
            opt.currentTrace <= |cfg.trace|
            && OptIndex.Indexes(opt.table, Pages(cfg.trace), opt.currentTrace, |cfg.trace|))
    }

    /** The simulator as a state of the machine. */
    ghost function S(): State
      requires memory.swap.Valid()
      reads this, memory, memory.physmem, memory.coremap, memory.swap.slots, memory.swap.swapmap.v, memory.pt
      reads lru, fifo, clock, opt
    {
      memory.View(PolicyState())
    }

    /** The structures main() allocates. */
    constructor (memsize: nat, swapsize: nat, alg: Algorithm, ghost trace: seq<Ref>, random: nat -> nat)
      requires Good(Config(memsize, swapsize, alg, trace, random))
      ensures Built() && cfg == Config(memsize, swapsize, alg, trace, random) && this.alg == alg
      ensures fresh(memory) && fresh(memory.physmem) && fresh(memory.coremap) && fresh(memory.swap.slots)
      ensures fresh(memory.swap.swapmap.v) && fresh(memory.pt.Repr) && fresh(opt.Repr)
      ensures fresh(lru) && fresh(fifo) && fresh(clock) && fresh(opt)
      ensures Initial(cfg, S())
      ensures opt.currentTrace == 0 && forall i :: 0 <= i < OptIndex.HSIZE ==> opt.table[i].None?
    {
      cfg := Config(memsize, swapsize, alg, trace, random);
      this.alg := alg;
      this.random := random;
      var m := new Memory(memsize, swapsize);
      memory := m;
      lru := new LruLists.Lru(m.coremap, m.pt);
      fifo := new Policies.Fifo(memsize);
      clock := new Policies.Clock(m.coremap, m.pt);
      var o := new OptPolicy.Opt(m.physmem);
      opt := o;
      draws := 0;
    }

    /** init_fcn: only opt_init has anything left to do, and it reads the whole trace. */
    method InitFcn(trace: seq<Ref>)
      requires Built() && trace == cfg.trace && opt.currentTrace == 0
      requires forall i :: 0 <= i < OptIndex.HSIZE ==> opt.table[i].None?
      modifies opt, opt.Repr
      ensures Valid() && S() == old(S()) && fresh(opt.Repr - old(opt.Repr))
    {
      if alg == Opt {
        var ok := opt.Init(trace);
      }
    }

    /** evict_fcn under `lru`. */
    method EvictLru(ghost s: State) returns (f: nat)
      requires Valid() && S() == s && EvictFacts(cfg, s) && alg == Lru
      modifies lru, memory.coremap
      ensures Valid() && Evict(cfg, s) == (f, S())
    {
      f := lru.Evict();
      assert memory.Frames() == old(memory.Frames());
    }

    /** evict_fcn under `clock`. */
    method EvictClock(ghost s: State) returns (f: nat)
      requires Valid() && S() == s && EvictFacts(cfg, s) && alg == Clock
      modifies clock, memory.pt.Repr
      ensures Valid() && memory.pt.Repr == old(memory.pt.Repr) && memory.pt.present == old(memory.pt.present)
      ensures Evict(cfg, s) == (f, S())
    {
      f := clock.Evict(memory.Frames());
    }

    /** evict_fcn under `fifo`. */
    method EvictFifo(ghost s: State) returns (f: nat)
      requires Valid() && S() == s && EvictFacts(cfg, s) && alg == Fifo
      modifies fifo
      ensures Valid() && Evict(cfg, s) == (f, S())
    {
      f := fifo.Evict();
    }

    /** evict_fcn under `opt`. */
    method EvictOpt(ghost s: State) returns (f: nat)
      requires Valid() && S() == s && EvictFacts(cfg, s) && alg == Opt
      ensures Evict(cfg, s) == (f, S())
    {
      f := opt.Evict(Pages(cfg.trace));
    }

    /** evict_fcn under `rand`. */
    method EvictRand(ghost s: State) returns (f: nat)
      requires Valid() && S() == s && EvictFacts(cfg, s) && alg == Rand
      modifies this`draws
      ensures Valid() && Evict(cfg, s) == (f, S())
    {
      f := random(draws) % memory.memsize;
      draws := draws + 1;
    }

    /** evict_fcn: the algorithm chosen on the command line. */
    method EvictFcn(ghost s: State) returns (f: nat)
      requires Valid() && S() == s && EvictFacts(cfg, s)
      modifies this`draws, lru, fifo, clock, memory.coremap, memory.pt.Repr
      ensures Valid() && memory.pt.Repr == old(memory.pt.Repr) && memory.pt.present == old(memory.pt.present)
      ensures Evict(cfg, s) == (f, S())
    {
      match alg
      case Rand => f := EvictRand(s);
      case Lru => f := EvictLru(s);
      case Fifo => f := EvictFifo(s);
      case Clock => f := EvictClock(s);
      case Opt => f := EvictOpt(s);
    }

    method RefLru(p: PtePtr)
      requires Valid() && memory.pt.Mapped(p) && PageAt(p) < PAGES
      requires var e := memory.pt.entries[PageAt(p)];
               && e.frame < memory.memsize
               && (if e.valid then e.frame in lru.stack else e.frame !in lru.stack && |lru.stack| < memory.memsize)
      modifies lru, memory.coremap
      ensures Valid() && memory.Frames() == old(memory.Frames())
      ensures var e := memory.pt.entries[PageAt(p)];
              lru.stack == (if e.valid then Without(old(lru.stack), e.frame) else old(lru.stack)) + [e.frame]
    {
      lru.Ref(p);
      assert memory.Frames() == old(memory.Frames());
    }

    method RefClock(p: PtePtr)
      requires Valid() && memory.pt.Mapped(p) && PageAt(p) < PAGES
      requires !memory.pt.entries[PageAt(p)].valid ==> memory.coremap[clock.hand].inUse
      modifies clock, memory.pt.Repr
      ensures Valid() && memory.pt.Repr == old(memory.pt.Repr) && memory.pt.present == old(memory.pt.present)
      ensures var x := PageAt(p);
              if old(memory.pt.entries[x].valid) then
                && clock.hand == old(clock.hand)
                && memory.pt.entries == old(memory.pt.entries)[x := old(memory.pt.entries[x]).(ref := true)]
              else
                var q := memory.Frames()[old(clock.hand)].value;
                && q < PAGES
                && if old(memory.pt.entries)[q].ref then
                     clock.hand == old(clock.hand) && memory.pt.entries == old(memory.pt.entries)
                   else
                     && clock.hand == Around(old(clock.hand), 1, memory.memsize)
                     && memory.pt.entries == old(memory.pt.entries)[q := old(memory.pt.entries)[q].(ref := true)]
    {
      clock.Ref(p);
    }

    method RefOpt(p: PtePtr)
      requires Valid() && alg == Opt && memory.pt.Mapped(p) && PageAt(p) < PAGES
      requires memory.pt.entries[PageAt(p)].frame < memory.memsize && opt.currentTrace < |cfg.trace|
      requires var f := memory.pt.entries[PageAt(p)].frame;
               PageOf(memory.physmem[f].vaddr) == Pages(cfg.trace)[opt.currentTrace] < PAGES
      modifies opt`table, opt`currentTrace, opt.Repr
      ensures Valid() && opt.Repr == old(opt.Repr) && opt.currentTrace == old(opt.currentTrace) + 1
    {
      var e := memory.pt.Get(p);
      var ok := opt.Ref(FrameNumber(e), Pages(cfg.trace));
    }

    /** ref_fcn on the entry of a page: the algorithm chosen on the command line. */
    method RefFcn(ghost s: State, p: PtePtr)
      requires Valid() && S() == s && memory.pt.Mapped(p) && RefFacts(cfg, s, PageAt(p))
      modifies lru, clock, memory.coremap, memory.pt.Repr, opt`table, opt`currentTrace, opt.Repr
      ensures Valid() && memory.pt.Repr == old(memory.pt.Repr) && memory.pt.present == old(memory.pt.present)
      ensures opt.Repr == old(opt.Repr)
      ensures S() == Machine.RefFcn(cfg, s, PageAt(p))
    {
      match alg
      case Rand =>
      case Lru => RefLru(p);
      case Fifo =>
      case Clock => RefClock(p);
      case Opt => RefOpt(p);
    }

    /** ref_count++, and the dirty bit on a write. */
    method CountRef(ghost s: State, p: PtePtr, write: bool)
      requires Valid() && S() == s && memory.pt.Mapped(p) && PageAt(p) < PAGES
      modifies memory`refCount, memory.pt.Repr
      ensures Valid() && memory.pt.Repr == old(memory.pt.Repr) && memory.pt.present == old(memory.pt.present)
      ensures S() == Counted(s, PageAt(p), write)
    {
      memory.refCount := memory.refCount + 1;
      memory.MarkDirty(p, write);
    }

    method SetUsed(ghost s: State, p: PtePtr)
      requires Valid() && S() == s && memory.pt.Mapped(p) && PageAt(p) < PAGES
      modifies memory.pt.Repr
      ensures Valid() && memory.pt.Repr == old(memory.pt.Repr) && memory.pt.present == old(memory.pt.present)
      ensures S() == Used(s, PageAt(p))
    {
      memory.MarkUsed(p);
    }

    /** find_physpage from the counting of the reference on. */
    method TouchPage(ghost s: State, p: PtePtr, write: bool)
      requires Valid() && S() == s && memory.pt.Mapped(p) && RefFacts(cfg, s, PageAt(p))
      modifies memory, lru, clock, memory.coremap, memory.pt.Repr, opt`table, opt`currentTrace, opt.Repr
      ensures Valid() && memory.pt.Repr == old(memory.pt.Repr) && memory.pt.present == old(memory.pt.present)
      ensures opt.Repr == old(opt.Repr)
      ensures S() == Touch(cfg, s, PageAt(p), write)
    {
      ghost var x := PageAt(p);
      CountRef(s, p, write);
      RefFcn(Counted(s, x, write), p);
      SetUsed(Machine.RefFcn(cfg, Counted(s, x, write), x), p);
    }

    /** Record in the coremap that the frame is in use for the page. */
    method TakeFrame(ghost s: State, f: nat, p: PtePtr)
      requires Valid() && S() == s && f < memory.memsize && memory.pt.Mapped(p)
      modifies memory.coremap
      ensures Valid() && S() == Taken(s, f, PageAt(p))
    {
      memory.Take(f, p);
    }

    /** The victim written out; false is exit(1). */
    method WriteVictim(ghost s: State, f: nat) returns (ok: bool)
      requires Valid() && S() == s && VictimFacts(cfg, s, f)
      modifies memory, memory.swap.slots, memory.swap.swapmap.v, memory.pt.Repr
      ensures Valid() && memory.pt.Repr == old(memory.pt.Repr) && memory.pt.present == old(memory.pt.present)
      ensures match PageOut(cfg, s, f)
              case None => !ok
              case Some(s1) => ok && S() == s1
    {
      ok := memory.PageOutVictim(f);
    }

    /** evict_fcn, and the victim written to swap. */
    method EvictAndWrite(ghost s: State) returns (ok: bool, f: nat)
      requires Valid() && S() == s
      requires EvictFacts(cfg, s) && VictimFacts(cfg, Evict(cfg, s).1, Evict(cfg, s).0)
      modifies this`draws, memory, lru, fifo, clock, memory.coremap, memory.swap.slots
      modifies memory.swap.swapmap.v, memory.pt.Repr
      ensures Valid() && memory.pt.Repr == old(memory.pt.Repr) && memory.pt.present == old(memory.pt.present)
      ensures f == Evict(cfg, s).0
      ensures match PageOut(cfg, Evict(cfg, s).1, Evict(cfg, s).0)
              case None => !ok
              case Some(s2) => ok && S() == s2
    {
      f := EvictFcn(s);
      ok := WriteVictim(Evict(cfg, s).1, f);
    }

    /** The branch of allocate_frame for a full memory, and the recording of the new page. */
    method EvictAndTake(ghost s: State, p: PtePtr) returns (ok: bool, f: nat)
      requires Valid() && S() == s && memory.pt.Mapped(p)
      requires EvictFacts(cfg, s) && VictimFacts(cfg, Evict(cfg, s).1, Evict(cfg, s).0)
      modifies this`draws, memory, lru, fifo, clock, memory.coremap, memory.swap.slots
      modifies memory.swap.swapmap.v, memory.pt.Repr
      ensures Valid() && memory.pt.Repr == old(memory.pt.Repr) && memory.pt.present == old(memory.pt.present)
      ensures f == Evict(cfg, s).0
      ensures match PageOut(cfg, Evict(cfg, s).1, Evict(cfg, s).0)
              case None => !ok
              case Some(s2) => ok && f < |s2.frames| && S() == Taken(s2, f, PageAt(p))
    {
      ok, f := EvictAndWrite(s);
      if ok {
        TakeFrame(PageOut(cfg, Evict(cfg, s).1, f).value, f, p);
      }
    }

    /** allocate_frame; false is exit(1). */
    method AllocateFrame(ghost s: State, p: PtePtr) returns (ok: bool, f: nat)
      requires Valid() && S() == s && memory.pt.Mapped(p)
      requires Inv(cfg, s) && PageAt(p) < PAGES && !s.pt[PageAt(p)].valid
      modifies this`draws, memory, lru, fifo, clock, memory.coremap, memory.swap.slots
      modifies memory.swap.swapmap.v, memory.pt.Repr
      ensures Valid() && memory.pt.Repr == old(memory.pt.Repr) && memory.pt.present == old(memory.pt.present)
      ensures match Machine.AllocateFrame(cfg, s, PageAt(p))
              case None => !ok
              case Some((s1, f1)) => ok && f == f1 && S() == s1
    {
      f := memory.FreeFrame();
      if f < memory.memsize {
        TakeFrame(s, f, p);
        ok := true;
      } else {
        FullForAllocate(cfg, s);
        ok, f := EvictAndTake(s, p);
      }
    }

    /** The page's entry found, its table allocated if need be. */
    method LocatePte(ghost s: State, vaddr: nat) returns (p: PtePtr)
      requires Valid() && S() == s && vaddr < VADDRS
      modifies memory.pt.Repr
      ensures Valid() && S() == s && fresh(memory.pt.Repr - old(memory.pt.Repr))
      ensures memory.pt.Mapped(p) && PageAt(p) == PageOf(vaddr) < PAGES
    {
      p := memory.pt.Locate(vaddr);
    }

    /** find_physpage's handling of a page that has just been given frame `f`. */
    method FillPage(ghost s: State, p: PtePtr, f: nat, vaddr: nat, onswap: bool)
      requires Valid() && S() == s && memory.pt.Mapped(p) && LoadFacts(cfg, s, PageAt(p), f, vaddr)
      requires onswap == s.pt[PageAt(p)].onswap
      modifies memory.physmem, memory.pt.Repr
      ensures Valid() && memory.pt.Repr == old(memory.pt.Repr) && memory.pt.present == old(memory.pt.present)
      ensures S() == Filled(s, PageAt(p), f, vaddr)
    {
      if !onswap {
        memory.LoadNew(p, f, vaddr);
      } else {
        memory.LoadSwapped(p, f);
      }
    }

    method CountMiss(ghost s: State)
      requires Valid() && S() == s
      modifies memory`missCount
      ensures Valid() && S() == Missed(s)
    {
      memory.missCount := memory.missCount + 1;
    }

    method CountHit(ghost s: State, ghost counted: State)
      requires Valid() && S() == s && counted == s.(cnt := s.cnt.(hit := s.cnt.hit + 1))
      modifies memory`hitCount
      ensures Valid() && S() == counted && opt.Repr == old(opt.Repr)
      ensures memory.pt.Repr == old(memory.pt.Repr) && memory.pt.present == old(memory.pt.present)
    {
      memory.hitCount := memory.hitCount + 1;
    }

    method LoadPage(ghost s: State, p: PtePtr, f: nat, vaddr: nat, onswap: bool)
      requires Valid() && S() == s && memory.pt.Mapped(p) && LoadFacts(cfg, s, PageAt(p), f, vaddr)
      requires onswap == s.pt[PageAt(p)].onswap
      modifies memory`missCount, memory.physmem, memory.pt.Repr
      ensures Valid() && memory.pt.Repr == old(memory.pt.Repr) && memory.pt.present == old(memory.pt.present)
      ensures S() == Load(s, PageAt(p), f, vaddr)
    {
      FillPage(s, p, f, vaddr, onswap);
      CountMiss(Filled(s, PageAt(p), f, vaddr));
    }

    /** find_physpage's branch for an entry that is not valid; false is exit(1). */
    method Miss(ghost s: State, p: PtePtr, vaddr: nat) returns (ok: bool)
      requires Valid() && S() == s && memory.pt.Mapped(p)
      requires Inv(cfg, s) && s.cnt.refs < |cfg.trace| && NextRef(cfg, s).vaddr == vaddr
      requires PageAt(p) == PageOf(vaddr) < PAGES && !s.pt[PageAt(p)].valid
      modifies this`draws, memory, lru, fifo, clock, memory.coremap, memory.physmem, memory.swap.slots
      modifies memory.swap.swapmap.v, memory.pt.Repr
      ensures Valid() && memory.pt.Repr == old(memory.pt.Repr) && memory.pt.present == old(memory.pt.present)
      ensures match Machine.AllocateFrame(cfg, s, PageAt(p))
              case None => !ok
              case Some((s1, f)) =>
                ok && LoadFacts(cfg, s1, PageAt(p), f, vaddr) && S() == Load(s1, PageAt(p), f, vaddr)
    {
      var onswap := memory.pt.HasFlag(p, PG_ONSWAP);
      MissForLoad(cfg, s);
      var f;
      ok, f := AllocateFrame(s, p);
      if ok {
        ghost var s1 := Machine.AllocateFrame(cfg, s, PageAt(p)).value.0;
        LoadPage(s1, p, f, vaddr, onswap);
      }
    }

    /** find_physpage on a page in memory. */
    method HitPage(ghost s: State, p: PtePtr, write: bool)
      requires Valid() && S() == s && memory.pt.Mapped(p) && RefFacts(cfg, s, PageAt(p)) && s.pt[PageAt(p)].valid
      modifies memory, lru, clock, memory.coremap, memory.pt.Repr, opt`table, opt`currentTrace, opt.Repr
      ensures Valid() && memory.pt.Repr == old(memory.pt.Repr) && memory.pt.present == old(memory.pt.present)
      ensures opt.Repr == old(opt.Repr)
      ensures S() == FindHit(cfg, s, PageAt(p), write)
    {
      ghost var counted := s.(cnt := s.cnt.(hit := s.cnt.hit + 1));
      HitIsTouch(cfg, s, counted, PageAt(p), write);
      CountHit(s, counted);
      TouchPage(counted, p, write);
    }

    /** find_physpage on a page not in memory; false is exit(1). */
    method MissPage(ghost s: State, p: PtePtr, vaddr: nat, write: bool) returns (ok: bool)
      requires Valid() && S() == s && memory.pt.Mapped(p)
      requires Inv(cfg, s) && s.cnt.refs < |cfg.trace| && NextRef(cfg, s).vaddr == vaddr
      requires PageAt(p) == PageOf(vaddr) < PAGES && !s.pt[PageAt(p)].valid
      modifies this`draws, memory, lru, fifo, clock, memory.coremap, memory.physmem, memory.swap.slots
      modifies memory.swap.swapmap.v, memory.pt.Repr, opt`table, opt`currentTrace, opt.Repr
      ensures Valid() && memory.pt.Repr == old(memory.pt.Repr) && memory.pt.present == old(memory.pt.present)
      ensures opt.Repr == old(opt.Repr)
      ensures match FindMiss(cfg, s, PageAt(p), vaddr, write)
              case None => !ok
              case Some(s1) => ok && S() == s1
    {
      ok := Miss(s, p, vaddr);
      if ok {
        TouchPage(S(), p, write);
      }
    }

    /** find_physpage once the page's entry is found; false is exit(1). */
    method FindPage(ghost s: State, p: PtePtr, vaddr: nat, write: bool) returns (ok: bool)
      requires Valid() && S() == s && memory.pt.Mapped(p)
      requires Inv(cfg, s) && s.cnt.refs < |cfg.trace|
      requires NextRef(cfg, s).vaddr == vaddr && IsWrite(NextRef(cfg, s)) == write
      requires PageAt(p) == PageOf(vaddr) < PAGES
      modifies this`draws, memory, lru, fifo, clock, memory.coremap, memory.physmem, memory.swap.slots
      modifies memory.swap.swapmap.v, memory.pt.Repr, opt`table, opt`currentTrace, opt.Repr
      ensures Valid() && memory.pt.Repr == old(memory.pt.Repr) && memory.pt.present == old(memory.pt.present)
      ensures opt.Repr == old(opt.Repr)
      ensures match Machine.FindPhyspage(cfg, s)
              case None => !ok
              case Some(s1) => ok && S() == s1
    {
      var valid := memory.pt.HasFlag(p, PG_VALID);
      if valid {
        HitPage(s, p, write);
        ok := true;
      } else {
        ok := MissPage(s, p, vaddr, write);
      }
    }

    /** find_physpage: the frame that holds the page, for the next line of the trace; false is exit(1). */
    method FindPhyspage(ghost s: State, vaddr: nat, kind: char) returns (ok: bool, f: nat)
      requires Valid() && S() == s
      requires Inv(cfg, s) && s.cnt.refs < |cfg.trace| && NextRef(cfg, s).kind == kind && NextRef(cfg, s).vaddr == vaddr
      modifies this`draws, memory, lru, fifo, clock, memory.coremap, memory.physmem, memory.swap.slots
      modifies memory.swap.swapmap.v, memory.pt.Repr, opt`table, opt`currentTrace, opt.Repr
      ensures Valid() && fresh(memory.pt.Repr - old(memory.pt.Repr)) && opt.Repr == old(opt.Repr)
      ensures match Machine.FindPhyspage(cfg, s)
              case None => !ok
              case Some(s1) => ok && S() == s1 && |s1.pt| == PAGES && f == s1.pt[PageOf(vaddr)].frame
    {
      f := 0;
      var p := LocatePte(s, vaddr);
      ok := FindPage(s, p, vaddr, kind == 'M' || kind == 'S');
      if ok {
        var e := memory.pt.Get(p);
        f := FrameNumber(e);
      }
    }

    /** The check of the stored address in frame `f`, and the version counter. */
    method UseFrame(ghost s: State, f: nat, vaddr: nat, write: bool) returns (complaint: bool)
      requires Valid() && S() == s && f < memory.memsize
      modifies memory.physmem
      ensures Valid() && S() == Bumped(s, f, write) && complaint == (s.mem[f].vaddr != vaddr)
    {
      complaint := memory.physmem[f].vaddr != vaddr;
      if write {
        memory.physmem[f] := memory.physmem[f].(version := memory.physmem[f].version + 1);
      }
    }

    /** access_mem on the next line of the trace; ok is false on exit(1), complaint tells whether the stored
        address was found not to be the one accessed. */
    method AccessMem(ghost s: State, kind: char, vaddr: nat) returns (ok: bool, complaint: bool)
      requires Valid() && S() == s
      requires Inv(cfg, s) && s.cnt.refs < |cfg.trace| && NextRef(cfg, s).kind == kind && NextRef(cfg, s).vaddr == vaddr
      modifies this`draws, memory, lru, fifo, clock, memory.coremap, memory.physmem, memory.swap.slots
      modifies memory.swap.swapmap.v, memory.pt.Repr, opt`table, opt`currentTrace, opt.Repr
      ensures Valid() && fresh(memory.pt.Repr - old(memory.pt.Repr)) && opt.Repr == old(opt.Repr)
      ensures match Step(cfg, s)
              case None => !ok
              case Some(s1) =>
                ok && S() == s1 && complaint == Complains(s1, vaddr)
    {
      complaint := false;
      var write := kind == 'S' || kind == 'M';
      var f;
      ok, f := FindPhyspage(s, vaddr, kind);
      if ok {
        ghost var s1 := Machine.FindPhyspage(cfg, s).value;
        StepFrom(cfg, s, s1, f, vaddr, write);
        complaint := UseFrame(s1, f, vaddr, write);
      }
    }

    /** One iteration of replay_trace, as an extension of the run so far. */
    method ReplayLine(ghost run: seq<State>, line: Ref) returns (ok: bool, complaint: bool, ghost longer: seq<State>)
      requires Valid() && IsRun(cfg, run) && S() == run[|run| - 1]
      requires |run| - 1 < |cfg.trace| && line == cfg.trace[|run| - 1]
      modifies this`draws, memory, lru, fifo, clock, memory.coremap, memory.physmem, memory.swap.slots
      modifies memory.swap.swapmap.v, memory.pt.Repr, opt`table, opt`currentTrace, opt.Repr
      ensures Valid() && fresh(memory.pt.Repr - old(memory.pt.Repr)) && opt.Repr == old(opt.Repr)
      ensures !ok ==> longer == run && Stuck(cfg, run)
      ensures ok ==>
                && |longer| == |run| + 1 && longer[0] == run[0] && IsRun(cfg, longer) && S() == longer[|run|]
                && complaint == FlatMemory.NotFirstAddress(cfg.trace, |run|)
    {
      ghost var s := run[|run| - 1];
      longer := run;
      NextLine(cfg, run, s);
      ok, complaint := AccessMem(s, line.kind, line.vaddr);
      if ok {
        longer := run + [S()];
      }
    }

    /** replay_trace.  The run it makes, line by line; the process exits early exactly when the next step has no
        outcome.  A line draws a complaint exactly when its address is not the one its page was first
        referenced with. */
    method ReplayTrace(trace: seq<Ref>) returns (ok: bool, complaints: seq<bool>, ghost run: seq<State>)
      requires Valid() && trace == cfg.trace && Initial(cfg, S())
      modifies this`draws, memory, lru, fifo, clock, memory.coremap, memory.physmem, memory.swap.slots
      modifies memory.swap.swapmap.v, memory.pt.Repr, opt`table, opt`currentTrace, opt.Repr
      ensures Valid() && IsRun(cfg, run) && run[0] == old(S())
      ensures ok ==> |run| == |trace| + 1 && S() == run[|trace|]
      ensures !ok ==> Stuck(cfg, run)
      ensures |complaints| == |run| - 1 <= |trace|
      ensures forall i :: 0 <= i < |complaints| ==> complaints[i] == FlatMemory.NotFirstAddress(trace, i + 1)
    {
      run, complaints := [S()], [];
      for i := 0 to |trace|
        invariant Valid() && fresh(memory.pt.Repr - old(memory.pt.Repr)) && opt.Repr == old(opt.Repr)
        invariant IsRun(cfg, run) && |run| == i + 1 && run[0] == old(S()) && S() == run[i]
        invariant |complaints| == i
        invariant forall j :: 0 <= j < i ==> complaints[j] == FlatMemory.NotFirstAddress(trace, j + 1)
      {
        var complaint;
        ok, complaint, run := ReplayLine(run, trace[i]);
        if !ok {
          return;
        }
        complaints := complaints + [complaint];
      }
      ok := true;
    }
  }

  /** The simulation main() runs. */
  method Simulate(memsize: nat, swapsize: nat, alg: Algorithm, trace: seq<Ref>, random: nat -> nat)
    returns (ok: bool, complaints: seq<bool>, ghost run: seq<State>)
    requires Good(Config(memsize, swapsize, alg, trace, random))
    ensures IsRun(Config(memsize, swapsize, alg, trace, random), run) && |run| == |complaints| + 1
    ensures !ok ==> Stuck(Config(memsize, swapsize, alg, trace, random), run)
    ensures if ok then |complaints| == |trace| else |complaints| < |trace|
    ensures forall i :: 0 <= i < |complaints| && i < |trace| ==>
              complaints[i] == FlatMemory.NotFirstAddress(trace, i + 1)
  {
    var simulator := new Simulator(memsize, swapsize, alg, trace, random);
    simulator.InitFcn(trace);
    ok, complaints, run := simulator.ReplayTrace(trace);
  }
}
