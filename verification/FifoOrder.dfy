/** `fifo` against its definition: the frames from queue_front on hold the latest loads, oldest first. */
module FifoOrder {
  import opened Machine
  import opened Runs
  import opened OptOptimal

  /** The pages loaded on the first `n` lines, in order. */
  ghost function LoadOrder(cfg: Config, run: seq<State>, n: nat): seq<nat>
    requires n < |run| && n <= |cfg.trace|
  {
    if n == 0 then []
    else
      var p := PageOf(cfg.trace[n - 1].vaddr);
      LoadOrder(cfg, run, n - 1) + if p in Resident(run[n - 1]) then [] else [p]
  }

  /** `loads` fills the frames from the front on: all of it while it fits, then its last |frames| pages. */
  ghost predicate InLoadOrder(frames: seq<Option<nat>>, front: nat, loads: seq<nat>) {
    var m := |frames|;
    if |loads| < m then
      && (forall i :: 0 <= i < |loads| ==> frames[i] == Some(loads[i]))
      && (forall i :: |loads| <= i < m ==> frames[i].None?)
    else
      && front < m
      && (|loads| == m ==> front == 0)
      && (forall i :: 0 <= i < m ==> frames[Around(front, i, m)] == Some(loads[|loads| - m + i]))
  }

  lemma FramesInUse(frames: seq<Option<nat>>, front: nat, loads: seq<nat>)
    requires InLoadOrder(frames, front, loads)
    ensures FirstFree(frames) == if |loads| < |frames| then |loads| else |frames|
  {
    var m := |frames|;
    if |loads| < m {
      assert frames[|loads|].None?;
    } else {
      forall f | 0 <= f < m
        ensures frames[f].Some?
      {
        assert Around(front, if front <= f then f - front else f + m - front, m) == f;
      }
    }
  }

  lemma ReplaceInOrder(frames: seq<Option<nat>>, front: nat, loads: seq<nat>, p: nat)
    requires InLoadOrder(frames, front, loads) && |loads| >= |frames|
    ensures InLoadOrder(frames[front := Some(p)], Around(front, 1, |frames|), loads + [p])
  {
    var m, front' := |frames|, Around(front, 1, |frames|);
    forall i | 0 <= i < m
      ensures frames[front := Some(p)][Around(front', i, m)] == Some((loads + [p])[|loads| + 1 - m + i])
    {
      if i < m - 1 { assert Around(front', i, m) == Around(front, i + 1, m); }
    }
  }

  ghost predicate FifoPicked(cfg: Config, s: State, e: Event) {
    e.EvictAt? ==> s.pol.front < cfg.memsize && e.f == s.pol.front && e.pol.front == Around(s.pol.front, 1, cfg.memsize)
  }

  lemma FifoStep(cfg: Config, s: State, s': State, e: Event, loads: seq<nat>)
    requires Did(cfg, s, s', e) && FifoPicked(cfg, s, e) && cfg.alg == Fifo
    requires !Full(s) ==> s.pol.front == 0
    requires InLoadOrder(s.frames, s.pol.front, loads)
    ensures InLoadOrder(s'.frames, s'.pol.front, loads + if e.HitAt? then [] else [PageNow(cfg, s)])
  {
    var p := PageNow(cfg, s);
    FramesInUse(s.frames, s.pol.front, loads);
    match e
    case HitAt(_) => assert loads + [] == loads;
    case ColdAt(f) =>
      assert s.frames[f].None?;
    case EvictAt(_, _, _, _, _) =>
      assert FirstFree(s.frames) == cfg.memsize;
      ReplaceInOrder(s.frames, s.pol.front, loads, p);
  }

  lemma FifoChoiceAt(cfg: Config, run: seq<State>, i: nat) returns (s: State, s': State, e: Event)
    requires IsRun(cfg, run) && i + 1 < |run| && cfg.alg == Fifo
    ensures s == run[i] && s' == run[i + 1] && s.cnt.refs == i < |cfg.trace|
    ensures Did(cfg, s, s', e) && FifoPicked(cfg, s, e)
    ensures !Full(s) ==> s.pol.front == 0
  {
    ReachableInv(cfg, run, i);
    s, s', e := ChoiceAt(cfg, run, i);
  }

  /** In every reachable state the frames from queue_front on are the latest loads, oldest first. */
  lemma {:induction false} FifoHoldsLatestLoads(cfg: Config, run: seq<State>, n: nat)
    requires IsRun(cfg, run) && n < |run| && cfg.alg == Fifo
    ensures n <= |cfg.trace|
    ensures InLoadOrder(run[n].frames, run[n].pol.front, LoadOrder(cfg, run, n))
  {
    if n > 0 {
      FifoHoldsLatestLoads(cfg, run, n - 1);
      var s, s', e := FifoChoiceAt(cfg, run, n - 1);
      ResidentStep(cfg, s, s', e);
      FifoStep(cfg, s, s', e, LoadOrder(cfg, run, n - 1));
    }
  }

  /** The page `fifo` evicts is the one loaded earliest among those in memory, |frames| loads ago. */
  lemma FifoEvictsEarliestLoad(cfg: Config, run: seq<State>, n: nat, q: nat)
    requires IsRun(cfg, run) && n + 1 < |run| && cfg.alg == Fifo
    requires q in Resident(run[n]) && q !in Resident(run[n + 1])
    ensures n <= |cfg.trace|
    ensures var loads := LoadOrder(cfg, run, n);
            |loads| >= cfg.memsize && loads[|loads| - cfg.memsize] == q
  {
    FifoHoldsLatestLoads(cfg, run, n);
    var s, s', e := FifoChoiceAt(cfg, run, n);
    ResidentStep(cfg, s, s', e);
    FramesInUse(s.frames, s.pol.front, LoadOrder(cfg, run, n));
    assert FirstFree(s.frames) == cfg.memsize;
    assert Around(s.pol.front, 0, cfg.memsize) == s.pol.front;
  }
}
