/** `clock` over whole runs: what memory holds, and with which reference bits, is what the second-chance algorithm
    holds after the same lines, from the first one on. */
module ClockRuns {
  import opened Machine
  import opened Runs
  import opened OptOptimal
  import opened ClockQueue

  // ---------------------------------------------------------------- the algorithm

  predicate Queued(q: seq<Entry>, p: nat) {
    exists i :: 0 <= i < |q| && q[i].0 == p
  }

  /** One reference to page `p`, with room for `m` pages. */
  function Served(q: seq<Entry>, m: nat, p: nat): (r: seq<Entry>)
    requires 0 < m && |q| <= m
    ensures |r| <= m
  {
    if Queued(q, p) then Marked(q, p)
    else if |q| < m then q + [(p, true)]
    else SecondChance(q)[1..] + [(p, true)]
  }

  /** The queue after the first `n` lines of a trace. */
  function Simulated(trace: seq<Ref>, m: nat, n: nat): (q: seq<Entry>)
    requires 0 < m && n <= |trace|
    ensures |q| <= m
  {
    if n == 0 then [] else Served(Simulated(trace, m, n - 1), m, PageOf(trace[n - 1].vaddr))
  }

  // ---------------------------------------------------------------- memory read as a queue

  ghost predicate InUseMapped(pt: seq<Pte>, frames: seq<Option<nat>>) {
    forall f :: 0 <= f < FirstFree(frames) ==> frames[f].value < |pt|
  }

  /** The frames in use, from frame 0 on. */
  function InUse(pt: seq<Pte>, frames: seq<Option<nat>>): (q: seq<Entry>)
    requires InUseMapped(pt, frames)
    ensures |q| == FirstFree(frames)
    ensures forall f :: 0 <= f < |q| ==> q[f] == (frames[f].value, RefAt(pt, frames, f))
  {
    seq(FirstFree(frames), f requires 0 <= f < FirstFree(frames) => (frames[f].value, RefAt(pt, frames, f)))
  }

  ghost predicate Readable(cfg: Config, s: State) {
    Shape(cfg, s) && InUseMapped(s.pt, s.frames) && (Full(s) ==> QueueReady(cfg, s))
  }

  /** The frames in use with their reference bits: from frame 0 up to the hand while some are free, and from the hand
      on once memory is full. */
  ghost function InMemory(cfg: Config, s: State): seq<Entry>
    requires Readable(cfg, s)
  {
    if Full(s) then Queue(s.pt, s.frames, s.pol.hand) else InUse(s.pt, s.frames)
  }

  lemma ReadableAt(cfg: Config, run: seq<State>, n: nat)
    requires IsRun(cfg, run) && n < |run| && cfg.alg == Clock
    ensures Readable(cfg, run[n]) && 0 < cfg.memsize && n <= |cfg.trace|
  {
    ReachableAgree(cfg, run, n);
    if Full(run[n]) { QueueReadyAt(cfg, run, n); }
  }

  lemma PlaceInQueue(pt: seq<Pte>, frames: seq<Option<nat>>, hand: nat, f: nat)
    requires AllMapped(pt, frames) && hand < |frames| && f < |frames|
    ensures Queued(Queue(pt, frames, hand), frames[f].value)
  {
    var i := if hand <= f then f - hand else f + |frames| - hand;
    assert Around(hand, i, |frames|) == f;
    assert Queue(pt, frames, hand)[i].0 == frames[f].value;
  }

  /** The pages read are the resident ones. */
  lemma InMemoryIsResident(cfg: Config, s: State, p: nat)
    requires Readable(cfg, s) && Agree(s.pt, s.frames, s.mem, -1)
    ensures Queued(InMemory(cfg, s), p) <==> p in Resident(s)
  {
    UsedFrames(s.pt, s.frames, s.mem);
    if p in Resident(s) {
      var f := s.pt[p].frame;
      assert s.frames[f] == Some(p);
      if Full(s) { PlaceInQueue(s.pt, s.frames, s.pol.hand, f); } else { assert InUse(s.pt, s.frames)[f].0 == p; }
    }
  }

  // ---------------------------------------------------------------- cold fill

  /** A free frame takes the page: it goes to the back, marked. */
  lemma ColdAppends(cfg: Config, s: State, s': State, e: Event)
    requires Did(cfg, s, s', e) && e.ColdAt? && InUseMapped(s.pt, s.frames) && Agree(s.pt, s.frames, s.mem, -1)
    ensures InUseMapped(s'.pt, s'.frames)
    ensures InUse(s'.pt, s'.frames) == InUse(s.pt, s.frames) + [(PageNow(cfg, s), true)]
  {
    var p, f := PageNow(cfg, s), FirstFree(s.frames);
    FirstFreeAfterTake(s.frames, p);
    UsedFrames(s.pt, s.frames, s.mem);
    var q, q' := InUse(s.pt, s.frames), InUse(s'.pt, s'.frames);
    forall g | 0 <= g < f
      ensures q'[g] == q[g]
    {
      assert s'.frames[g] == s.frames[g] && s.frames[g].value != p;
    }
    assert q'[f] == (p, true);
  }

  lemma ColdFill(cfg: Config, s: State, s': State, e: Event)
    requires Did(cfg, s, s', e) && e.ColdAt? && cfg.alg == Clock && Readable(cfg, s) && Readable(cfg, s')
    requires Agree(s.pt, s.frames, s.mem, -1)
    ensures !Full(s) && InMemory(cfg, s') == InMemory(cfg, s) + [(PageNow(cfg, s), true)]
    ensures |InMemory(cfg, s)| < cfg.memsize
  {
    ColdAppends(cfg, s, s', e);
    if Full(s') {
      assert FirstFree(s'.frames) == cfg.memsize;
    }
  }

  lemma HitMarks(cfg: Config, s: State, s': State, e: Event)
    requires Did(cfg, s, s', e) && e.HitAt? && cfg.alg == Clock && Readable(cfg, s) && Readable(cfg, s')
    ensures InMemory(cfg, s') == Marked(InMemory(cfg, s), PageNow(cfg, s))
  {
    if Full(s) { ClockHit(cfg, s, s', e); } else {
      assert s'.frames == s.frames && !Full(s');
    }
  }

  lemma MissReplaces(cfg: Config, s: State, s': State, e: Event)
    requires Did(cfg, s, s', e) && ClockPicked(cfg, s, e) && e.EvictAt? && cfg.alg == Clock
    requires Readable(cfg, s) && Readable(cfg, s') && Agree(s.pt, s.frames, s.mem, -1)
    ensures |InMemory(cfg, s)| == cfg.memsize > 0
    ensures InMemory(cfg, s') == SecondChance(InMemory(cfg, s))[1..] + [(PageNow(cfg, s), true)]
  {
    ClockMiss(cfg, s, s', e);
  }

  // ---------------------------------------------------------------- whole runs

  /** One line does to memory what the algorithm does to its queue. */
  lemma LineServes(cfg: Config, run: seq<State>, n: nat) returns (s: State, s': State)
    requires IsRun(cfg, run) && n + 1 < |run| && cfg.alg == Clock
    ensures s == run[n] && s' == run[n + 1] && Readable(cfg, s) && Readable(cfg, s')
    ensures 0 < cfg.memsize && n < |cfg.trace| && |InMemory(cfg, s)| <= cfg.memsize
    ensures InMemory(cfg, s') == Served(InMemory(cfg, s), cfg.memsize, PageOf(cfg.trace[n].vaddr))
  {
    ReadableAt(cfg, run, n);
    ReadableAt(cfg, run, n + 1);
    ReachableAgree(cfg, run, n);
    var e;
    s, s', e := ClockChoiceAt(cfg, run, n);
    InMemoryIsResident(cfg, s, PageNow(cfg, s));
    ResidentStep(cfg, s, s', e);
    match e
    case HitAt(_) => HitMarks(cfg, s, s', e);
    case ColdAt(_) => ColdFill(cfg, s, s', e);
    case EvictAt(_, _, _, _, _) => MissReplaces(cfg, s, s', e);
  }

  /** After every line the frames hold, in the order of the queue and with its marks, what the second-chance algorithm
      holds after the same lines. */
  lemma {:induction false} ClockSimulated(cfg: Config, run: seq<State>, n: nat)
    requires IsRun(cfg, run) && n < |run| && cfg.alg == Clock
    ensures Readable(cfg, run[n]) && 0 < cfg.memsize && n <= |cfg.trace|
    ensures InMemory(cfg, run[n]) == Simulated(cfg.trace, cfg.memsize, n)
  {
    ReadableAt(cfg, run, n);
    if n == 0 {
      assert run[0].frames[0].None?;
    } else {
      ClockSimulated(cfg, run, n - 1);
      var s, s' := LineServes(cfg, run, n - 1);
      assert InMemory(cfg, s) == Simulated(cfg.trace, cfg.memsize, n - 1) && s' == run[n];
    }
  }

  /** So the trace and the size of memory determine the pages that `clock` holds after every line. */
  lemma ClockHoldsSimulated(cfg: Config, run: seq<State>, n: nat)
    requires IsRun(cfg, run) && n < |run| && cfg.alg == Clock
    ensures 0 < cfg.memsize && n <= |cfg.trace|
    ensures forall p: nat :: p in Resident(run[n]) <==> Queued(Simulated(cfg.trace, cfg.memsize, n), p)
  {
    ClockSimulated(cfg, run, n);
    ReachableAgree(cfg, run, n);
    var s, q := run[n], Simulated(cfg.trace, cfg.memsize, n);
    forall p: nat
      ensures p in Resident(s) <==> Queued(q, p)
    {
      InMemoryIsResident(cfg, s, p);
    }
  }
}
