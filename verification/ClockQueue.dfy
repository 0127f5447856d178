/** `clock` against its definition: the frames read from the hand on are the queue of the second-chance
    algorithm. */
module ClockQueue {
  import opened Machine
  import opened Runs
  import opened OptOptimal

  /** A page with its reference bit. */
  type Entry = (nat, bool)

  function SetBits(q: seq<Entry>): nat {
    if q == [] then 0 else (if q[0].1 then 1 else 0) + SetBits(q[1..])
  }

  lemma {:induction false} SetBitsConcat(a: seq<Entry>, b: seq<Entry>)
    ensures SetBits(a + b) == SetBits(a) + SetBits(b)
  {
    if a == [] { assert a + b == b; } else {
      assert (a + b)[1..] == a[1..] + b;
      SetBitsConcat(a[1..], b);
    }
  }

  /** The textbook rule: while the page at the head has been referenced, it goes to the back with its bit cleared. */
  function SecondChance(q: seq<Entry>): (r: seq<Entry>)
    requires q != []
    ensures |r| == |q| && !r[0].1
    decreases SetBits(q)
  {
    if q[0].1 then
      SetBitsConcat(q[1..], [(q[0].0, false)]);
      SecondChance(q[1..] + [(q[0].0, false)])
    else q
  }

  function Cleared(q: seq<Entry>): (r: seq<Entry>)
    ensures |r| == |q| && forall i :: 0 <= i < |r| ==> r[i] == (q[i].0, false)
  {
    seq(|q|, i requires 0 <= i < |q| => (q[i].0, false))
  }

  lemma {:induction false} SecondChanceIs(q: seq<Entry>, k: nat)
    requires q != [] && k <= |q| && (forall i :: 0 <= i < k ==> q[i].1) && (k < |q| ==> !q[k].1)
    ensures SecondChance(q) == q[k..] + Cleared(q[..k])
    decreases k
  {
    if k == 0 {
      assert q == q[0..] + Cleared(q[..0]);
    } else {
      var q' := q[1..] + [(q[0].0, false)];
      SecondChanceIs(q', k - 1);
      assert q'[k - 1..] + Cleared(q'[..k - 1]) == q[k..] + Cleared(q[..k]);
    }
  }

  /** The frames from the hand on. */
  function Queue(pt: seq<Pte>, frames: seq<Option<nat>>, hand: nat): (q: seq<Entry>)
    requires AllMapped(pt, frames) && hand < |frames|
    ensures |q| == |frames|
    ensures forall i :: 0 <= i < |q| ==>
              q[i] == (frames[Around(hand, i, |frames|)].value, RefAt(pt, frames, Around(hand, i, |frames|)))
  {
    seq(|frames|, i requires 0 <= i < |frames| =>
      (frames[Around(hand, i, |frames|)].value, RefAt(pt, frames, Around(hand, i, |frames|))))
  }

  ghost predicate Apart(frames: seq<Option<nat>>) {
    forall f, g :: 0 <= f < g < |frames| ==> frames[f] != frames[g]
  }

  lemma {:induction false} ClearedRefs(pt: seq<Pte>, frames: seq<Option<nat>>, hand: nat, k: nat, i: nat)
    requires AllMapped(pt, frames) && Apart(frames) && hand < |frames| && k <= |frames| && i < |frames|
    ensures AllMapped(ClearRefs(pt, frames, hand, k), frames)
    ensures RefAt(ClearRefs(pt, frames, hand, k), frames, Around(hand, i, |frames|)) ==
            (k <= i && RefAt(pt, frames, Around(hand, i, |frames|)))
    decreases k
  {
    if k > 0 {
      ClearedRefs(pt, frames, hand, k - 1, i);
      if i != k - 1 { assert Around(hand, i, |frames|) != Around(hand, k - 1, |frames|); }
    }
  }

  /** Passing `k` frames rotates the queue by `k`, clearing the bits of the entries that go to the back. */
  lemma PassedQueue(pt: seq<Pte>, frames: seq<Option<nat>>, hand: nat, k: nat)
    requires AllMapped(pt, frames) && Apart(frames) && hand < |frames| && k <= |frames|
    ensures AllMapped(ClearRefs(pt, frames, hand, k), frames)
    ensures var q := Queue(pt, frames, hand);
            Queue(ClearRefs(pt, frames, hand, k), frames, Around(hand, k, |frames|)) == q[k..] + Cleared(q[..k])
  {
    ClearedRefs(pt, frames, hand, k, 0);
    var q := Queue(pt, frames, hand);
    var q' := Queue(ClearRefs(pt, frames, hand, k), frames, Around(hand, k, |frames|));
    PassedEntries(pt, frames, hand, k, q, q');
    Rotated(q, q', k);
  }

  lemma PassedEntries(pt: seq<Pte>, frames: seq<Option<nat>>, hand: nat, k: nat, q: seq<Entry>, q': seq<Entry>)
    requires AllMapped(pt, frames) && Apart(frames) && hand < |frames| && k <= |frames|
    requires AllMapped(ClearRefs(pt, frames, hand, k), frames)
    requires q == Queue(pt, frames, hand)
    requires q' == Queue(ClearRefs(pt, frames, hand, k), frames, Around(hand, k, |frames|))
    ensures forall i :: 0 <= i < |q| ==> q'[i] == if i < |q| - k then q[k + i] else (q[i - (|q| - k)].0, false)
  {
    forall i | 0 <= i < |q|
      ensures q'[i] == if i < |q| - k then q[k + i] else (q[i - (|q| - k)].0, false)
    {
      var m := |frames|;
      var j := if i < m - k then k + i else i - (m - k);
      assert Around(Around(hand, k, m), i, m) == Around(hand, j, m);
      ClearedRefs(pt, frames, hand, k, j);
    }
  }

  lemma Rotated(q: seq<Entry>, q': seq<Entry>, k: nat)
    requires |q'| == |q| && k <= |q|
    requires forall i :: 0 <= i < |q| ==> q'[i] == if i < |q| - k then q[k + i] else (q[i - (|q| - k)].0, false)
    ensures q' == q[k..] + Cleared(q[..k])
  {
  }

  /** What clock_evict does to the queue. */
  lemma EvictIsSecondChance(pt: seq<Pte>, frames: seq<Option<nat>>, hand: nat)
    requires AllMapped(pt, frames) && Apart(frames) && hand < |frames|
    ensures var k := Skips(pt, frames, hand, 0);
            && AllMapped(ClearRefs(pt, frames, hand, k), frames)
            && Queue(ClearRefs(pt, frames, hand, k), frames, Around(hand, k, |frames|)) ==
               SecondChance(Queue(pt, frames, hand))
  {
    var k := Skips(pt, frames, hand, 0);
    PassedQueue(pt, frames, hand, k);
    SecondChanceIs(Queue(pt, frames, hand), k);
  }

  ghost predicate ClockPicked(cfg: Config, s: State, e: Event) {
    e.EvictAt? ==>
      && s.pol.hand < cfg.memsize == |s.frames| && AllMapped(s.pt, s.frames)
      && var k := Skips(s.pt, s.frames, s.pol.hand, 0);
      && e.f == e.pol.hand == Around(s.pol.hand, k, cfg.memsize)
      && e.pt == ClearRefs(s.pt, s.frames, s.pol.hand, k)
  }

  lemma MappedApart(pt: seq<Pte>, frames: seq<Option<nat>>, mem: seq<SimPage>)
    requires Agree(pt, frames, mem, -1) && forall f :: 0 <= f < |frames| ==> frames[f].Some?
    ensures AllMapped(pt, frames) && Apart(frames)
  {
    forall f, g | 0 <= f < g < |frames|
      ensures frames[f] != frames[g]
    {
      assert pt[frames[f].value].frame == f && pt[frames[g].value].frame == g;
    }
  }

  /** The queue after the page at its head made way for page `p`. */
  lemma ReplaceHead(pt: seq<Pte>, pt': seq<Pte>, frames: seq<Option<nat>>, f: nat, p: nat)
    requires AllMapped(pt, frames) && Apart(frames) && f < |frames| && |pt'| == |pt| && p < |pt|
    requires forall g :: 0 <= g < |frames| ==> frames[g] != Some(p)
    requires pt'[p].ref && forall x :: 0 <= x < |pt| && x != p && x != frames[f].value ==> pt'[x].ref == pt[x].ref
    ensures AllMapped(pt', frames[f := Some(p)])
    ensures Queue(pt', frames[f := Some(p)], Around(f, 1, |frames|)) == Queue(pt, frames, f)[1..] + [(p, true)]
  {
    var m, frames', hand' := |frames|, frames[f := Some(p)], Around(f, 1, |frames|);
    forall i | 0 <= i < m
      ensures Queue(pt', frames', hand')[i] == (Queue(pt, frames, f)[1..] + [(p, true)])[i]
    {
      if i < m - 1 {
        var g := Around(f, i + 1, m);
        assert Around(hand', i, m) == g && g != f;
        assert frames[g] != Some(p) && frames[g] != frames[f];
        assert Queue(pt, frames, f)[1..][i] == Queue(pt, frames, f)[i + 1];
      } else {
        assert Around(hand', i, m) == f;
      }
    }
  }

  /** The queue with the bit of page `p` set. */
  function Marked(q: seq<Entry>, p: nat): (r: seq<Entry>)
    ensures |r| == |q| && forall i :: 0 <= i < |r| ==> r[i] == (q[i].0, q[i].1 || q[i].0 == p)
  {
    seq(|q|, i requires 0 <= i < |q| => (q[i].0, q[i].1 || q[i].0 == p))
  }

  ghost predicate QueueReady(cfg: Config, s: State) {
    Full(s) && AllMapped(s.pt, s.frames) && s.pol.hand < |s.frames| == cfg.memsize
  }

  lemma ClockHit(cfg: Config, s: State, s': State, e: Event)
    requires Did(cfg, s, s', e) && e.HitAt? && cfg.alg == Clock && QueueReady(cfg, s)
    ensures QueueReady(cfg, s')
    ensures Queue(s'.pt, s'.frames, s'.pol.hand) == Marked(Queue(s.pt, s.frames, s.pol.hand), PageNow(cfg, s))
  {
    assert AllMapped(s'.pt, s'.frames);
  }

  lemma ClockMiss(cfg: Config, s: State, s': State, e: Event)
    requires Did(cfg, s, s', e) && ClockPicked(cfg, s, e) && e.EvictAt? && cfg.alg == Clock
    requires Agree(s.pt, s.frames, s.mem, -1) && QueueReady(cfg, s)
    ensures QueueReady(cfg, s')
    ensures var chance := SecondChance(Queue(s.pt, s.frames, s.pol.hand));
            && chance[0].0 == e.q
            && Queue(s'.pt, s'.frames, s'.pol.hand) == chance[1..] + [(PageNow(cfg, s), true)]
  {
    MappedApart(s.pt, s.frames, s.mem);
    EvictIsSecondChance(s.pt, s.frames, s.pol.hand);
    NotInFrames(s.pt, s.frames, s.mem, PageNow(cfg, s));
    ReplaceHead(e.pt, s'.pt, s.frames, e.f, PageNow(cfg, s));
  }

  lemma NotInFrames(pt: seq<Pte>, frames: seq<Option<nat>>, mem: seq<SimPage>, p: nat)
    requires Agree(pt, frames, mem, -1) && p < PAGES && !pt[p].valid
    ensures forall g :: 0 <= g < |frames| ==> frames[g] != Some(p)
  {
  }

  lemma ClockChoiceAt(cfg: Config, run: seq<State>, i: nat) returns (s: State, s': State, e: Event)
    requires IsRun(cfg, run) && i + 1 < |run| && cfg.alg == Clock
    ensures s == run[i] && s' == run[i + 1] && s.cnt.refs == i < |cfg.trace|
    ensures Did(cfg, s, s', e) && ClockPicked(cfg, s, e)
  {
    s, s', e := ChoiceAt(cfg, run, i);
  }

  lemma QueueReadyAt(cfg: Config, run: seq<State>, n: nat)
    requires IsRun(cfg, run) && n < |run| && cfg.alg == Clock && Full(run[n])
    ensures QueueReady(cfg, run[n])
  {
    ReachableInv(cfg, run, n);
    MappedApart(run[n].pt, run[n].frames, run[n].mem);
  }

  /** Once memory is full, every line of the trace acts on the queue as the second-chance algorithm does:
      a hit marks its page; a miss gives pages at the head their second chance, evicts the first without
      one, and puts the new page, marked, at the back. */
  lemma ClockIsSecondChance(cfg: Config, run: seq<State>, n: nat)
    requires IsRun(cfg, run) && n + 1 < |run| && cfg.alg == Clock && Full(run[n])
    ensures n < |cfg.trace| && QueueReady(cfg, run[n]) && QueueReady(cfg, run[n + 1])
    ensures var p := PageOf(cfg.trace[n].vaddr);
            var q := Queue(run[n].pt, run[n].frames, run[n].pol.hand);
            var q' := Queue(run[n + 1].pt, run[n + 1].frames, run[n + 1].pol.hand);
            if p in Resident(run[n]) then q' == Marked(q, p)
            else
              var chance := SecondChance(q);
              && q' == chance[1..] + [(p, true)]
              && Resident(run[n + 1]) == Resident(run[n]) - {chance[0].0} + {p}
  {
    var s, s', e := ClockChoiceAt(cfg, run, n);
    ReachableAgree(cfg, run, n);
    QueueReadyAt(cfg, run, n);
    ResidentStep(cfg, s, s', e);
    match e
    case HitAt(_) => ClockHit(cfg, s, s', e);
    case ColdAt(_) => assert false;
    case EvictAt(_, _, _, _, _) => ClockMiss(cfg, s, s', e);
  }
}
