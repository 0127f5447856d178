/** Paged memory behaves as flat memory: across any number of evictions and page-ins, a page holds the
    address of its first reference and a version that counts the writes to it. */
module FlatMemory {
  import opened Machine
  import opened Runs

  /** What the machine holds for page `p`, in memory or on swap; None before its first reference. */
  function Content(s: State, p: nat): Option<SimPage>
    requires p < |s.pt|
    requires s.pt[p].valid ==> s.pt[p].frame < |s.mem|
    requires s.pt[p].onswap ==> 0 <= SlotOf(s.pt[p]) < |s.swap|
  {
    if s.pt[p].valid then Some(s.mem[s.pt[p].frame])
    else if s.pt[p].onswap then Some(s.swap[SlotOf(s.pt[p])])
    else None
  }

  /** The effect of line `r` on the content of page `x`. */
  function Accessed(content: Option<SimPage>, r: Ref, x: nat): Option<SimPage> {
    if PageOf(r.vaddr) != x then content
    else Some(Written(if content.Some? then content.value else SimPage(0, r.vaddr), IsWrite(r)))
  }

  ghost predicate Held(s: State) {
    Agree(s.pt, s.frames, s.mem, -1) && Slots(s.pt, s.swap, s.used)
  }

  /** One access changes the page it names and no other, whatever was evicted on the way. */
  lemma AccessChangesOnePage(cfg: Config, s: State, s': State, e: Event, x: nat)
    requires Did(cfg, s, s', e) && Held(s) && Held(s') && x < PAGES
    ensures Content(s', x) == Accessed(Content(s, x), NextRef(cfg, s), x)
  {
    var p := PageNow(cfg, s);
    if x != p && e.EvictAt? && x != e.q {
      if s.pt[x].valid { assert s.pt[x].frame != e.f; }
    }
  }

  /** The number of writes to page `p` on the first `n` lines. */
  function Writes(trace: seq<Ref>, n: nat, p: nat): nat
    requires n <= |trace|
  {
    if n == 0 then 0
    else Writes(trace, n - 1, p) + if PageOf(trace[n - 1].vaddr) == p && IsWrite(trace[n - 1]) then 1 else 0
  }

  /** The first of the first `n` lines to name page `p`, or `n`. */
  function FirstRef(trace: seq<Ref>, n: nat, p: nat): (k: nat)
    requires n <= |trace|
    ensures k <= n
    ensures k < n ==> PageOf(trace[k].vaddr) == p
    ensures forall i :: 0 <= i < k ==> PageOf(trace[i].vaddr) != p
  {
    if n == 0 then 0
    else
      var k := FirstRef(trace, n - 1, p);
      if k < n - 1 || PageOf(trace[n - 1].vaddr) == p then k else n
  }

  /** What flat memory holds for page `p` after the first `n` lines. */
  function Flat(trace: seq<Ref>, n: nat, p: nat): Option<SimPage>
    requires n <= |trace|
  {
    var k := FirstRef(trace, n, p);
    if k == n then None else Some(SimPage(Writes(trace, n, p), trace[k].vaddr))
  }

  lemma {:induction false} NoWritesBefore(trace: seq<Ref>, n: nat, p: nat)
    requires n <= |trace| && FirstRef(trace, n, p) == n
    ensures Writes(trace, n, p) == 0
  {
    if n > 0 { NoWritesBefore(trace, n - 1, p); }
  }

  lemma FlatStep(trace: seq<Ref>, n: nat, p: nat)
    requires 0 < n <= |trace|
    ensures Flat(trace, n, p) == Accessed(Flat(trace, n - 1, p), trace[n - 1], p)
  {
    if FirstRef(trace, n - 1, p) == n - 1 { NoWritesBefore(trace, n - 1, p); }
  }

  lemma ContentStep(cfg: Config, run: seq<State>, n: nat, p: nat)
    requires IsRun(cfg, run) && 0 < n < |run| && p < PAGES
    ensures Held(run[n - 1]) && Held(run[n]) && n <= |cfg.trace|
    ensures Content(run[n], p) == Accessed(Content(run[n - 1], p), cfg.trace[n - 1], p)
  {
    var s, s', e := EventAt(cfg, run, n - 1);
    ReachableAgree(cfg, run, n - 1);
    ReachableAgree(cfg, run, n);
    AccessChangesOnePage(cfg, s, s', e, p);
  }

  /** The refinement, for every policy, every trace and every moment of a run. */
  lemma {:induction false} PagedIsFlat(cfg: Config, run: seq<State>, n: nat, p: nat)
    requires IsRun(cfg, run) && n < |run| && p < PAGES
    ensures Held(run[n]) && n <= |cfg.trace|
    ensures Content(run[n], p) == Flat(cfg.trace, n, p)
  {
    if n > 0 {
      PagedIsFlat(cfg, run, n - 1, p);
      ContentStep(cfg, run, n, p);
      FlatStep(cfg.trace, n, p);
    }
  }

  /** access_mem's check of the stored address fails exactly on a line whose address is not the one the
      page was first referenced with. */
  lemma ComplaintIffNotFirstAddress(cfg: Config, run: seq<State>, n: nat)
    requires IsRun(cfg, run) && 0 < n < |run|
    ensures n <= |cfg.trace|
    ensures var here := cfg.trace[n - 1].vaddr;
            var p := PageOf(here);
            && p < |run[n].pt| && run[n].pt[p].frame < |run[n].mem| && FirstRef(cfg.trace, n, p) < n
            && (run[n].mem[run[n].pt[p].frame].vaddr != here <==> cfg.trace[FirstRef(cfg.trace, n, p)].vaddr != here)
  {
    var _, _, _ := EventAt(cfg, run, n - 1);
    ReachableAgree(cfg, run, n);
    PagedIsFlat(cfg, run, n, PageOf(cfg.trace[n - 1].vaddr));
  }

  /** Line `n`, counting from 1, names its page by another address than the page's first line did. */
  ghost predicate NotFirstAddress(trace: seq<Ref>, n: nat)
    requires 0 < n <= |trace|
  {
    var here := trace[n - 1].vaddr;
    var k := FirstRef(trace, n, PageOf(here));
    k < n && trace[k].vaddr != here
  }

  /** A page read at two of its addresses: two lines a correct trace may well have. */
  const TWO_ADDRESSES: seq<Ref> := [Ref('L', 0), Ref('L', 8)]

  /** Whatever the policy, the second line is met with the error message. */
  lemma SecondAddressRefused(cfg: Config, run: seq<State>)
    requires cfg.trace == TWO_ADDRESSES && IsRun(cfg, run) && |run| == 3
    ensures PageOf(TWO_ADDRESSES[0].vaddr) == PageOf(TWO_ADDRESSES[1].vaddr) && NotFirstAddress(TWO_ADDRESSES, 2)
    ensures var p := PageOf(TWO_ADDRESSES[1].vaddr);
            p < |run[2].pt| && run[2].pt[p].frame < |run[2].mem| && run[2].mem[run[2].pt[p].frame].vaddr != 8
  {
    ComplaintIffNotFirstAddress(cfg, run, 2);
    assert FirstRef(TWO_ADDRESSES, 1, 0) == 0;
    assert FirstRef(TWO_ADDRESSES, 2, 0) == 0;
  }
}
