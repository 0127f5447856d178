/** The simulator's replacement decisions seen as runs on page sets, and what that gives for `opt`:
    no replacement algorithm has fewer misses on the same trace and memory. */
module OptOptimal {
  import opened Machine
  import opened Runs
  import Belady
  import BeladyTheorem

  ghost function Resident(s: State): set<nat> {
    set p | 0 <= p < |s.pt| && s.pt[p].valid
  }

  /** The pages in the first `k` frames. */
  ghost function PagesIn(frames: seq<Option<nat>>, k: nat): set<nat>
    requires k <= |frames| && forall f :: 0 <= f < k ==> frames[f].Some?
  {
    if k == 0 then {} else PagesIn(frames, k - 1) + {frames[k - 1].value}
  }

  lemma {:induction false} PagesInAre(frames: seq<Option<nat>>, k: nat)
    requires k <= |frames| && forall f :: 0 <= f < k ==> frames[f].Some?
    ensures forall p: nat :: p in PagesIn(frames, k) <==> exists f: nat :: f < k && frames[f].value == p
    ensures (forall f, g :: 0 <= f < g < k ==> frames[f].value != frames[g].value) ==> |PagesIn(frames, k)| == k
  {
    if k > 0 {
      PagesInAre(frames, k - 1);
      forall p: nat
        ensures p in PagesIn(frames, k) <==> exists f: nat :: f < k && frames[f].value == p
      {
        if p == frames[k - 1].value { assert k - 1 < k && frames[k - 1].value == p; }
      }
    }
  }

  lemma UsedFrames(pt: seq<Pte>, frames: seq<Option<nat>>, mem: seq<SimPage>)
    requires Agree(pt, frames, mem, -1)
    ensures forall f :: 0 <= f < |frames| ==> (frames[f].Some? <==> f < FirstFree(frames))
    ensures forall f, g :: 0 <= f < g < FirstFree(frames) ==> frames[f].value != frames[g].value
  {
    forall f, g | 0 <= f < g < FirstFree(frames)
      ensures frames[f].value != frames[g].value
    {
      assert pt[frames[f].value].frame == f && pt[frames[g].value].frame == g;
    }
  }

  lemma ResidentInFrames(cfg: Config, s: State)
    requires Shape(cfg, s) && Agree(s.pt, s.frames, s.mem, -1)
    ensures Resident(s) == PagesIn(s.frames, FirstFree(s.frames))
    ensures |Resident(s)| == FirstFree(s.frames)
  {
    var k := FirstFree(s.frames);
    UsedFrames(s.pt, s.frames, s.mem);
    PagesInAre(s.frames, k);
    forall p: nat
      ensures p in Resident(s) <==> p in PagesIn(s.frames, k)
    {
      if p in Resident(s) {
        assert s.pt[p].frame < k && s.frames[s.pt[p].frame].value == p;
      }
    }
    assert Resident(s) == PagesIn(s.frames, k);
  }

  lemma ResidentStep(cfg: Config, s: State, s': State, e: Event)
    requires Did(cfg, s, s', e)
    ensures var p := PageNow(cfg, s);
            match e
            case HitAt(_) => p in Resident(s) && Resident(s') == Resident(s)
            case ColdAt(_) => p !in Resident(s) && Resident(s') == Resident(s) + {p}
            case EvictAt(_, q, _, _, _) =>
              p !in Resident(s) && q in Resident(s) && Resident(s') == Resident(s) - {q} + {p}
    ensures s'.cnt.miss == s.cnt.miss + if PageNow(cfg, s) in Resident(s) then 0 else 1
  {
  }

  /** On page sets, an access is a demand-paging step with the policy's victim. */
  lemma StepIsLegal(cfg: Config, s: State, s': State, e: Event)
    requires Did(cfg, s, s', e) && Agree(s.pt, s.frames, s.mem, -1)
    ensures Belady.Step(cfg.memsize, Resident(s), PageNow(cfg, s), Resident(s'))
  {
    ResidentStep(cfg, s, s', e);
    ResidentInFrames(cfg, s);
    if e.EvictAt? {
      assert FirstFree(s.frames) == cfg.memsize;
    }
  }

  /** The frame was chosen by scanning the frames for the latest next use. */
  ghost predicate OptPicked(cfg: Config, s: State, e: Event) {
    e.EvictAt? ==>
      && s.cnt.refs <= |cfg.trace| && 1 <= cfg.memsize == |s.mem|
      && e.f == OptVictim(Pages(cfg.trace), s.cnt.refs, FramePages(s.mem), cfg.memsize)
  }

  /** The victim of opt_evict is a resident page whose next use is farthest. */
  lemma OptVictimIsFarthest(cfg: Config, s: State, s': State, e: Event)
    requires Did(cfg, s, s', e) && OptPicked(cfg, s, e) && e.EvictAt? && Agree(s.pt, s.frames, s.mem, -1)
    ensures Belady.IsFarthest(Pages(cfg.trace), s.cnt.refs, Resident(s), e.q)
  {
    var trace := Pages(cfg.trace);
    ResidentStep(cfg, s, s', e);
    forall x | x in Resident(s)
      ensures Belady.NextUse(trace, s.cnt.refs, x) <= Belady.NextUse(trace, s.cnt.refs, e.q)
    {
      assert FramePages(s.mem)[s.pt[x].frame] == x;
      assert FramePages(s.mem)[e.f] == e.q;
    }
  }

  /** The resident sets of a run. */
  ghost function ResidentSets(run: seq<State>): seq<set<nat>> {
    seq(|run|, i requires 0 <= i < |run| => Resident(run[i]))
  }

  lemma MissAt(cfg: Config, run: seq<State>, i: nat)
    requires IsRun(cfg, run) && i + 1 < |run|
    ensures i < |cfg.trace|
    ensures run[i + 1].cnt.miss == run[i].cnt.miss + if PageOf(cfg.trace[i].vaddr) in Resident(run[i]) then 0 else 1
  {
    var s, s', e := EventAt(cfg, run, i);
    ResidentStep(cfg, s, s', e);
  }

  lemma LegalAt(cfg: Config, run: seq<State>, i: nat)
    requires IsRun(cfg, run) && i + 1 < |run|
    ensures i < |cfg.trace|
    ensures Belady.Step(cfg.memsize, Resident(run[i]), PageOf(cfg.trace[i].vaddr), Resident(run[i + 1]))
  {
    var s, s', e := EventAt(cfg, run, i);
    ReachableAgree(cfg, run, i);
    StepIsLegal(cfg, s, s', e);
  }

  lemma OptStepIsFarthest(cfg: Config, s: State, s': State, e: Event)
    requires Did(cfg, s, s', e) && OptPicked(cfg, s, e) && Agree(s.pt, s.frames, s.mem, -1)
    ensures Belady.FarthestStep(cfg.memsize, Pages(cfg.trace), s.cnt.refs, Resident(s), Resident(s'))
  {
    ResidentStep(cfg, s, s', e);
    ResidentInFrames(cfg, s);
    if e.EvictAt? {
      assert FirstFree(s.frames) == cfg.memsize;
      OptVictimIsFarthest(cfg, s, s', e);
    }
  }

  lemma OptChoiceAt(cfg: Config, run: seq<State>, i: nat) returns (s: State, s': State, e: Event)
    requires IsRun(cfg, run) && i + 1 < |run| && cfg.alg == Opt
    ensures s == run[i] && s' == run[i + 1] && s.cnt.refs == i < |cfg.trace|
    ensures Did(cfg, s, s', e) && OptPicked(cfg, s, e)
  {
    ReachableInv(cfg, run, i);
    s, s', e := ChoiceAt(cfg, run, i);
  }

  lemma FarthestAt(cfg: Config, run: seq<State>, i: nat)
    requires IsRun(cfg, run) && i + 1 < |run| && cfg.alg == Opt
    ensures i < |cfg.trace|
    ensures Belady.FarthestStep(cfg.memsize, Pages(cfg.trace), i, Resident(run[i]), Resident(run[i + 1]))
  {
    ReachableAgree(cfg, run, i);
    var s, s', e := OptChoiceAt(cfg, run, i);
    OptStepIsFarthest(cfg, s, s', e);
  }

  /** The first `n` lines of a run, seen on page sets. */
  lemma RunIsLegal(cfg: Config, run: seq<State>, n: nat)
    requires IsRun(cfg, run) && n < |run|
    ensures n <= |cfg.trace|
    ensures Belady.Legal(cfg.memsize, Pages(cfg.trace)[..n], 0, ResidentSets(run)[..n + 1])
    ensures cfg.alg == Opt ==> Belady.FarthestRun(cfg.memsize, Pages(cfg.trace)[..n], 0, ResidentSets(run)[..n + 1])
  {
    ReachableAgree(cfg, run, n);
    var sets, trace := ResidentSets(run)[..n + 1], Pages(cfg.trace)[..n];
    forall i | 0 <= i < n
      ensures Belady.Step(cfg.memsize, sets[i], trace[0 + i], sets[i + 1])
      ensures cfg.alg == Opt ==> Belady.FarthestStep(cfg.memsize, trace, 0 + i, sets[i], sets[i + 1])
    {
      LegalAt(cfg, run, i);
      if cfg.alg == Opt {
        FarthestAt(cfg, run, i);
        BeladyTheorem.FarthestInPrefix(cfg.memsize, Pages(cfg.trace), n, i, sets[i], sets[i + 1]);
      }
    }
  }

  /** miss_count counts the misses of the run on page sets. */
  lemma {:induction false} MissCountIsMisses(cfg: Config, run: seq<State>, t: nat, n: nat)
    requires IsRun(cfg, run) && t <= n < |run|
    ensures n <= |cfg.trace|
    ensures Belady.Misses(Pages(cfg.trace)[..n], t, ResidentSets(run)[t..n + 1]) == run[n].cnt.miss - run[t].cnt.miss
    decreases n - t
  {
    ReachableAgree(cfg, run, n);
    if t < n {
      MissAt(cfg, run, t);
      MissCountIsMisses(cfg, run, t + 1, n);
      assert ResidentSets(run)[t..n + 1][1..] == ResidentSets(run)[t + 1..n + 1];
    }
  }

  /** `opt` is optimal: on the same trace and memory size, after every line that both replay, no algorithm and no
      stream of random victims has had fewer misses. */
  lemma OptHasFewestMisses(opt: Config, optRun: seq<State>, cfg: Config, run: seq<State>, n: nat)
    requires opt.alg == Opt && opt.trace == cfg.trace && opt.memsize == cfg.memsize
    requires IsRun(opt, optRun) && IsRun(cfg, run) && n < |optRun| && n < |run|
    ensures optRun[n].cnt.miss <= run[n].cnt.miss
  {
    RunIsLegal(opt, optRun, n);
    RunIsLegal(cfg, run, n);
    MissCountIsMisses(opt, optRun, 0, n);
    MissCountIsMisses(cfg, run, 0, n);
    var sets, other := ResidentSets(optRun)[..n + 1], ResidentSets(run)[..n + 1];
    assert ResidentSets(optRun)[0..n + 1] == sets && ResidentSets(run)[0..n + 1] == other;
    BeladyTheorem.FarthestIsOptimal(cfg.memsize, Pages(cfg.trace)[..n], 0, sets, other);
  }
}
