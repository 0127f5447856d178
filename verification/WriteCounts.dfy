/** Versions, dirty bits and evictions told from the letters and addresses of the trace alone: 'S' and 'M' are the
    writes, and 4096 addresses make a page. */
module WriteCounts {
  import opened Machine
  import opened Runs
  import opened FlatMemory
  import opened Accounting

  predicate Names(r: Ref, p: nat) { r.vaddr / 4096 == p }

  predicate Stores(r: Ref, p: nat) { Names(r, p) && (r.kind == 'S' || r.kind == 'M') }

  /** The lines before line `n` that write to page `p`. */
  ghost function StoreLines(trace: seq<Ref>, n: nat, p: nat): set<nat>
    requires n <= |trace|
  {
    set i: nat | i < n && Stores(trace[i], p)
  }

  lemma {:induction false} WritesAreStores(trace: seq<Ref>, n: nat, p: nat)
    requires n <= |trace|
    ensures Writes(trace, n, p) == |StoreLines(trace, n, p)|
  {
    if n == 0 {
      assert StoreLines(trace, n, p) == {};
    } else {
      WritesAreStores(trace, n - 1, p);
      var here := if Stores(trace[n - 1], p) then {n - 1} else {};
      assert StoreLines(trace, n, p) == StoreLines(trace, n - 1, p) + here;
    }
  }

  /** After any number of lines, under every policy, a page holds the address of the first line that named it and
      the number of lines that wrote to it; a page that was not named holds nothing. */
  lemma VersionCountsStores(cfg: Config, run: seq<State>, n: nat, p: nat)
    requires IsRun(cfg, run) && n < |run| && p < PAGES
    ensures Held(run[n]) && n <= |cfg.trace|
    ensures Content(run[n], p).None? <==> forall i :: 0 <= i < n ==> !Names(cfg.trace[i], p)
    ensures Content(run[n], p).Some? ==>
              && Content(run[n], p).value.version == |StoreLines(cfg.trace, n, p)|
              && exists k :: 0 <= k < n && Names(cfg.trace[k], p)
                             && Content(run[n], p).value.vaddr == cfg.trace[k].vaddr
                             && forall i :: 0 <= i < k ==> !Names(cfg.trace[i], p)
  {
    PagedIsFlat(cfg, run, n, p);
    WritesAreStores(cfg.trace, n, p);
    var k := FirstRef(cfg.trace, n, p);
    if k < n { assert Names(cfg.trace[k], p); }
  }

  /** Some line before line `n` wrote to page `p`, which was in memory whenever a line named it after that. */
  ghost predicate StoredSinceLoad(cfg: Config, run: seq<State>, n: nat, p: nat)
    requires n < |run| && n <= |cfg.trace|
  {
    exists j :: 0 <= j < n && Stores(cfg.trace[j], p)
                && forall k :: j < k < n && Names(cfg.trace[k], p) ==> p < |run[k].pt| && run[k].pt[p].valid
  }

  lemma StoredIsWritten(cfg: Config, run: seq<State>, n: nat, p: nat)
    requires IsRun(cfg, run) && n < |run| && p < PAGES && n <= |cfg.trace|
    ensures StoredSinceLoad(cfg, run, n, p) <==> WrittenSinceLoad(cfg, run, n, p)
  {
    forall k: nat | k < n
      ensures LoadsPage(cfg, run, k, p) <==> Names(cfg.trace[k], p) && !(p < |run[k].pt| && run[k].pt[p].valid)
    {
      ReachableAgree(cfg, run, k);
    }
    forall j: nat | j < n
      ensures WritesPage(cfg, j, p) <==> Stores(cfg.trace[j], p)
    {
    }
    if StoredSinceLoad(cfg, run, n, p) {
      var j :| 0 <= j < n && Stores(cfg.trace[j], p)
               && forall k :: j < k < n && Names(cfg.trace[k], p) ==> p < |run[k].pt| && run[k].pt[p].valid;
      assert WritesPage(cfg, j, p);
    }
    if WrittenSinceLoad(cfg, run, n, p) {
      var j: nat :| j < n && WritesPage(cfg, j, p) && forall k: nat :: j < k < n ==> !LoadsPage(cfg, run, k, p);
      assert Stores(cfg.trace[j], p);
    }
  }

  /** A page in memory is dirty exactly if it was written to since it was last brought in. */
  lemma DirtyIffStored(cfg: Config, run: seq<State>, n: nat, p: nat)
    requires IsRun(cfg, run) && n < |run| && p < PAGES && p < |run[n].pt| && run[n].pt[p].valid
    ensures n <= |cfg.trace| && (run[n].pt[p].dirty <==> StoredSinceLoad(cfg, run, n, p))
  {
    ReachableAgree(cfg, run, n);
    DirtyIffWrittenSinceLoad(cfg, run, n, p);
    StoredIsWritten(cfg, run, n, p);
  }

  /** The eviction of a page is counted as dirty if it was written to since it was last brought in, and as clean
      otherwise; the other count stays. */
  lemma EvictionsCountedByStores(cfg: Config, run: seq<State>, n: nat, q: nat)
    requires IsRun(cfg, run) && q < PAGES && EvictedOn(run, n, q)
    ensures n <= |cfg.trace|
    ensures var before, after := run[n].cnt, run[n + 1].cnt;
            if StoredSinceLoad(cfg, run, n, q) then after.dirty == before.dirty + 1 && after.clean == before.clean
            else after.dirty == before.dirty && after.clean == before.clean + 1
  {
    ReachableAgree(cfg, run, n);
    EvictionsCountedByWrites(cfg, run, n, q);
    StoredIsWritten(cfg, run, n, q);
  }
}
