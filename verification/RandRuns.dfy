/** `rand`: the stream of random values decides every victim, and every way of paging on demand from an empty memory
    is the run of some stream. */
module RandRuns {
  import opened Machine
  import opened Accesses
  import opened Runs
  import opened OptOptimal
  import opened Accounting
  import Belady

  /** How rand_evict picked its victim: one more value is drawn. */
  ghost predicate RandPicked(cfg: Config, s: State, e: Event) {
    e.EvictAt? ==> cfg.memsize > 0 && e.f == cfg.random(s.pol.draws) % cfg.memsize && e.pol.draws == s.pol.draws + 1
  }

  lemma RandChoiceAt(cfg: Config, run: seq<State>, i: nat) returns (s: State, s': State, e: Event)
    requires IsRun(cfg, run) && i + 1 < |run| && cfg.alg == Rand
    ensures s == run[i] && s' == run[i + 1] && s.cnt.refs == i < |cfg.trace|
    ensures Did(cfg, s, s', e) && RandPicked(cfg, s, e)
  {
    s, s', e := ChoiceAt(cfg, run, i);
  }

  /** As many random values are drawn as pages are evicted. */
  lemma {:induction false} DrawsAreEvictions(cfg: Config, run: seq<State>, n: nat)
    requires IsRun(cfg, run) && n < |run| && cfg.alg == Rand
    ensures run[n].pol.draws == run[n].cnt.clean + run[n].cnt.dirty
  {
    if n > 0 {
      DrawsAreEvictions(cfg, run, n - 1);
      var s, s', e := RandChoiceAt(cfg, run, n - 1);
    }
  }

  /** After k evictions the next page to go is the one in the frame that random value number k, taken modulo
      memsize, names. */
  lemma RandVictim(cfg: Config, run: seq<State>, n: nat, q: nat)
    requires IsRun(cfg, run) && n + 1 < |run| && cfg.alg == Rand
    requires q in Resident(run[n]) && q !in Resident(run[n + 1])
    ensures var k := run[n].cnt.clean + run[n].cnt.dirty;
            && cfg.memsize == |run[n].frames| > 0
            && run[n].frames[cfg.random(k) % cfg.memsize] == Some(q)
  {
    DrawsAreEvictions(cfg, run, n);
    var s, s', e := RandChoiceAt(cfg, run, n);
    ResidentStep(cfg, s, s', e);
  }

  // ---------------------------------------------------------------- random values that are not drawn

  /** The same simulation with another stream of random values, which agrees on the first `n`. */
  ghost predicate SameBefore(cfg: Config, other: Config, n: nat) {
    && cfg.alg == Rand && other == cfg.(random := other.random)
    && forall i: nat :: i < n ==> other.random(i) == cfg.random(i)
  }

  /** An eviction draws the next value; nothing else draws one. */
  lemma SameAllocate(cfg: Config, other: Config, s: State, p: nat, n: nat)
    requires SameBefore(cfg, other, n) && Good(cfg) && Inv(cfg, s) && p < PAGES && !s.pt[p].valid
    requires Full(s) ==> s.pol.draws < n
    ensures Good(other) && Inv(other, s) && AllocateFrame(other, s, p) == AllocateFrame(cfg, s, p)
  {
    if Full(s) {
      AllocateFull(cfg, s, p);
      var (f, s1) := Evict(cfg, s);
      assert Evict(other, s) == (f, s1);
      AllocateFull(other, s, p);
    } else {
      AllocateCold(cfg, s, p);
    }
  }

  lemma SameFind(cfg: Config, other: Config, s: State, n: nat)
    requires SameBefore(cfg, other, n) && Good(cfg) && Inv(cfg, s) && s.cnt.refs < |cfg.trace|
    requires !s.pt[PageNow(cfg, s)].valid && Full(s) ==> s.pol.draws < n
    ensures Good(other) && Inv(other, s) && FindPhyspage(other, s) == FindPhyspage(cfg, s)
  {
    var p, w := PageNow(cfg, s), WriteNow(cfg, s);
    if s.pt[p].valid {
      Hit(cfg, s, p, w);
      Hit(other, s, p, w);
    } else {
      SameAllocate(cfg, other, s, p, n);
      Miss(cfg, s, p, w);
      Miss(other, s, p, w);
    }
  }

  lemma SameMove(cfg: Config, other: Config, s: State, s': State, n: nat)
    requires SameBefore(cfg, other, n) && Moves(cfg, s, s') && s'.pol.draws <= n
    requires !s.pt[PageNow(cfg, s)].valid && Full(s) ==> s.pol.draws < s'.pol.draws
    ensures Moves(other, s, s')
  {
    SameFind(cfg, other, s, n);
  }

  lemma DrawsAt(cfg: Config, run: seq<State>, i: nat) returns (s: State, s': State)
    requires IsRun(cfg, run) && i + 1 < |run| && cfg.alg == Rand
    ensures s == run[i] && s' == run[i + 1] && Moves(cfg, s, s') && s.pol.draws <= s'.pol.draws
    ensures !s.pt[PageNow(cfg, s)].valid && Full(s) ==> s.pol.draws < s'.pol.draws
  {
    assert MovesAt(cfg, run, i);
    var e;
    s, s', e := RandChoiceAt(cfg, run, i);
    if e.ColdAt? { assert s.frames[e.f].None?; }
  }

  lemma DrawsGrowAt(cfg: Config, run: seq<State>, i: nat)
    requires IsRun(cfg, run) && i + 1 < |run| && cfg.alg == Rand
    ensures run[i].pol.draws <= run[i + 1].pol.draws
  {
    var s, s' := DrawsAt(cfg, run, i);
  }

  lemma {:induction false} DrawsGrow(cfg: Config, run: seq<State>, i: nat, n: nat)
    requires IsRun(cfg, run) && i <= n < |run| && cfg.alg == Rand
    ensures run[i].pol.draws <= run[n].pol.draws
    decreases n
  {
    if i < n {
      DrawsGrow(cfg, run, i, n - 1);
      DrawsGrowAt(cfg, run, n - 1);
    }
  }

  /** A run stays a run when random values that it has not drawn change. */
  lemma SameRun(cfg: Config, other: Config, run: seq<State>)
    requires IsRun(cfg, run) && SameBefore(cfg, other, run[|run| - 1].pol.draws)
    ensures IsRun(other, run)
  {
    forall i | 0 <= i < |run| - 1
      ensures MovesAt(other, run, i)
    {
      var s, s' := DrawsAt(cfg, run, i);
      DrawsGrow(cfg, run, i + 1, |run| - 1);
      SameMove(cfg, other, s, s', run[|run| - 1].pol.draws);
    }
  }

  // ---------------------------------------------------------------- every way of paging is a run of `rand`

  /** The simulation of `rand` with memory, swap file and trace of `cfg`, and a stream of random values. */
  function Streamed(cfg: Config, random: nat -> nat): Config {
    cfg.(alg := Rand, random := random)
  }

  /** The stream with value number `k` replaced. */
  function Redrawn(random: nat -> nat, k: nat, v: nat): (r: nat -> nat)
    ensures r(k) == v && forall i: nat :: i != k ==> r(i) == random(i)
  {
    (i: nat) => if i == k then v else random(i)
  }

  lemma StartOfRun(cfg: Config) returns (run: seq<State>)
    requires Good(cfg)
    ensures IsRun(cfg, run) && |run| == 1 && Resident(run[0]) == {}
  {
    run := [State(seq(PAGES, _ => EMPTY_PTE), seq(cfg.memsize, _ => None), seq(cfg.memsize, _ => SimPage(0, 0)),
                  seq(cfg.swapsize, _ => SimPage(0, 0)), {}, Counters(0, 0, 0, 0, 0), Policy(0, [], 0, 0, 0))];
  }

  lemma LongerRun(cfg: Config, run: seq<State>) returns (longer: seq<State>)
    requires IsRun(cfg, run) && |run| - 1 < |cfg.trace| && |Touched(cfg.trace, |cfg.trace|)| <= cfg.swapsize
    ensures IsRun(cfg, longer) && |longer| == |run| + 1 && longer[..|run|] == run
  {
    SubsetCard(Touched(cfg.trace, |run| - 1), Touched(cfg.trace, |cfg.trace|));
    EnoughSwapNeverExits(cfg, run);
    longer := run + [Step(cfg, run[|run| - 1]).value];
    RunGrows(cfg, run, longer[|run|]);
  }

  /** The stream under which the page in a given frame is the next to go. */
  lemma ChooseVictim(cfg: Config, run: seq<State>, v: nat) returns (random: nat -> nat)
    requires IsRun(cfg, run) && cfg.alg == Rand && v in Resident(run[|run| - 1])
    ensures IsRun(Streamed(cfg, random), run)
    ensures var s := run[|run| - 1];
            && cfg.memsize == |s.frames| > 0 && random(s.pol.draws) < cfg.memsize
            && s.frames[random(s.pol.draws)] == Some(v)
  {
    var s := run[|run| - 1];
    ReachableAgree(cfg, run, |run| - 1);
    random := Redrawn(cfg.random, s.pol.draws, s.pt[v].frame);
    SameRun(cfg, Streamed(cfg, random), run);
  }

  /** A miss in a full memory evicts. */
  lemma MustEvict(cfg: Config, s: State, s': State, e: Event)
    requires Did(cfg, s, s', e) && Agree(s.pt, s.frames, s.mem, -1)
    requires PageNow(cfg, s) !in Resident(s) && |Resident(s)| >= cfg.memsize
    ensures e.EvictAt? && Resident(s') == Resident(s) - {e.q} + {PageNow(cfg, s)} && s.frames[e.f] == Some(e.q)
  {
    ResidentStep(cfg, s, s', e);
    ResidentInFrames(cfg, s);
  }

  lemma VictimStep(cfg: Config, s: State, s': State, e: Event, v: nat)
    requires Did(cfg, s, s', e) && RandPicked(cfg, s, e) && Agree(s.pt, s.frames, s.mem, -1)
    requires PageNow(cfg, s) !in Resident(s) && |Resident(s)| >= cfg.memsize
    requires var f := cfg.random(s.pol.draws); f < cfg.memsize && s.frames[f] == Some(v)
    ensures Resident(s') == Resident(s) - {v} + {PageNow(cfg, s)}
  {
    MustEvict(cfg, s, s', e);
    Small(cfg.random(s.pol.draws), cfg.memsize);
  }

  lemma Small(f: nat, m: nat)
    requires f < m
    ensures f % m == f
  {
  }

  lemma VictimGoes(cfg: Config, run: seq<State>, n: nat, v: nat)
    requires IsRun(cfg, run) && n + 1 < |run| && cfg.alg == Rand && n < |cfg.trace|
    requires PageOf(cfg.trace[n].vaddr) !in Resident(run[n]) && |Resident(run[n])| >= cfg.memsize == |run[n].frames|
    requires var f := cfg.random(run[n].pol.draws); f < cfg.memsize && run[n].frames[f] == Some(v)
    ensures Resident(run[n + 1]) == Resident(run[n]) - {v} + {PageOf(cfg.trace[n].vaddr)}
  {
    var s, s', e := RandChoiceAt(cfg, run, n);
    ReachableAgree(cfg, run, n);
    VictimStep(cfg, s, s', e, v);
  }

  /** The first `n` of the given steps as a run of `rand`. */
  ghost predicate Imitates(cfg: Config, random: nat -> nat, run: seq<State>, sets: seq<set<nat>>) {
    && IsRun(Streamed(cfg, random), run) && |run| <= |sets|
    && forall i :: 0 <= i < |run| ==> Resident(run[i]) == sets[i]
  }

  lemma ImitateForced(cfg: Config, random: nat -> nat, run: seq<State>, sets: seq<set<nat>>)
    returns (longer: seq<State>)
    requires Imitates(cfg, random, run, sets) && |run| - 1 < |cfg.trace| && |run| < |sets|
    requires |Touched(cfg.trace, |cfg.trace|)| <= cfg.swapsize
    requires Belady.Step(cfg.memsize, sets[|run| - 1], PageOf(cfg.trace[|run| - 1].vaddr), sets[|run|])
    requires PageOf(cfg.trace[|run| - 1].vaddr) in sets[|run| - 1] || |sets[|run| - 1]| < cfg.memsize
    ensures Imitates(cfg, random, longer, sets) && |longer| == |run| + 1
  {
    var n := |run| - 1;
    longer := LongerRun(Streamed(cfg, random), run);
    assert forall i :: 0 <= i < |run| ==> longer[i] == longer[..|run|][i];
    LegalAt(Streamed(cfg, random), longer, n);
  }

  lemma ImitateEviction(cfg: Config, random: nat -> nat, run: seq<State>, sets: seq<set<nat>>, v: nat)
    returns (random': nat -> nat, longer: seq<State>)
    requires Imitates(cfg, random, run, sets) && |run| - 1 < |cfg.trace| && |run| < |sets|
    requires |Touched(cfg.trace, |cfg.trace|)| <= cfg.swapsize
    requires var R, p := sets[|run| - 1], PageOf(cfg.trace[|run| - 1].vaddr);
             v in R && sets[|run|] == R - {v} + {p} && p !in R && |R| >= cfg.memsize
    ensures Imitates(cfg, random', longer, sets) && |longer| == |run| + 1
  {
    var n := |run| - 1;
    random' := ChooseVictim(Streamed(cfg, random), run, v);
    var cfg' := Streamed(cfg, random');
    longer := LongerRun(cfg', run);
    assert forall i :: 0 <= i < |run| ==> longer[i] == longer[..|run|][i];
    VictimGoes(cfg', longer, n, v);
  }

  lemma ImitateStep(cfg: Config, random: nat -> nat, run: seq<State>, sets: seq<set<nat>>)
    returns (random': nat -> nat, longer: seq<State>)
    requires Imitates(cfg, random, run, sets) && |run| - 1 < |cfg.trace| && |run| < |sets|
    requires |Touched(cfg.trace, |cfg.trace|)| <= cfg.swapsize
    requires Belady.Step(cfg.memsize, sets[|run| - 1], PageOf(cfg.trace[|run| - 1].vaddr), sets[|run|])
    ensures Imitates(cfg, random', longer, sets) && |longer| == |run| + 1
  {
    var R, p, R' := sets[|run| - 1], PageOf(cfg.trace[|run| - 1].vaddr), sets[|run|];
    if p in R || |R| < cfg.memsize {
      random' := random;
      longer := ImitateForced(cfg, random, run, sets);
    } else {
      var v :| v in R && R' == R - {v} + {p};
      random', longer := ImitateEviction(cfg, random, run, sets, v);
    }
  }

  lemma {:induction false} Imitate(cfg: Config, sets: seq<set<nat>>, n: nat)
    returns (random: nat -> nat, run: seq<State>)
    requires Good(cfg) && |Touched(cfg.trace, |cfg.trace|)| <= cfg.swapsize && n <= |cfg.trace|
    requires Belady.Legal(cfg.memsize, Pages(cfg.trace), 0, sets) && sets[0] == {}
    ensures Imitates(cfg, random, run, sets) && |run| == n + 1
  {
    if n == 0 {
      random := (_: nat) => 0;
      run := StartOfRun(Streamed(cfg, random));
    } else {
      random, run := Imitate(cfg, sets, n - 1);
      var t := n - 1;
      assert Belady.Step(cfg.memsize, sets[t], Pages(cfg.trace)[0 + t], sets[t + 1]);
      random, run := ImitateStep(cfg, random, run, sets);
    }
  }

  /** With a slot for every page named, what `rand` can do is all that demand paging can do: sets of pages are the
      resident sets of a run over the whole trace, for some stream of random values, if and only if they start empty
      and every miss in a full memory replaces one page. */
  lemma RandRunsAreAll(cfg: Config, sets: seq<set<nat>>)
    requires Good(cfg) && |Touched(cfg.trace, |cfg.trace|)| <= cfg.swapsize
    ensures (exists random: nat -> nat, run ::
               IsRun(Streamed(cfg, random), run) && |run| == |cfg.trace| + 1 && ResidentSets(run) == sets) <==>
            Belady.Legal(cfg.memsize, Pages(cfg.trace), 0, sets) && sets[0] == {}
  {
    if Belady.Legal(cfg.memsize, Pages(cfg.trace), 0, sets) && sets[0] == {} {
      var random, run := Imitate(cfg, sets, |cfg.trace|);
      assert ResidentSets(run) == sets;
    }
    if random: nat -> nat, run :|
      IsRun(Streamed(cfg, random), run) && |run| == |cfg.trace| + 1 && ResidentSets(run) == sets {
      WholeRunIsLegal(Streamed(cfg, random), run);
    }
  }

  lemma WholeRunIsLegal(cfg: Config, run: seq<State>)
    requires IsRun(cfg, run) && |run| == |cfg.trace| + 1
    ensures Belady.Legal(cfg.memsize, Pages(cfg.trace), 0, ResidentSets(run)) && ResidentSets(run)[0] == {}
  {
    var n := |cfg.trace|;
    RunIsLegal(cfg, run, n);
    assert Pages(cfg.trace)[..n] == Pages(cfg.trace) && ResidentSets(run)[..n + 1] == ResidentSets(run);
  }

  /** Some stream of random values does what `opt`, or any other policy, does on the whole trace: the same pages after
      every line and as many misses, so the bound that `opt` sets is met. */
  lemma RandCanImitate(cfg: Config, run: seq<State>) returns (random: nat -> nat, other: seq<State>)
    requires IsRun(cfg, run) && |run| == |cfg.trace| + 1 && |Touched(cfg.trace, |cfg.trace|)| <= cfg.swapsize
    ensures IsRun(Streamed(cfg, random), other) && ResidentSets(other) == ResidentSets(run)
    ensures other[|cfg.trace|].cnt.miss == run[|cfg.trace|].cnt.miss
  {
    var n := |cfg.trace|;
    WholeRunIsLegal(cfg, run);
    random, other := Imitate(cfg, ResidentSets(run), n);
    assert ResidentSets(other) == ResidentSets(run);
    MissCountIsMisses(cfg, run, 0, n);
    MissCountIsMisses(Streamed(cfg, random), other, 0, n);
  }
}
