/** clock.c and fifo.c. */
module Policies {
  import opened Machine
  import opened Accesses
  import opened PageTables
  import opened Coremaps
  import Words
  import ClockQueue

  class Fifo {
    const memsize: nat
    var queueFront: nat

    ghost predicate Valid()
      reads this
    {
      queueFront < memsize
    }

    /** fifo_init */
    constructor (memsize: nat)
      requires memsize >= 1
      ensures Valid() && fresh(this) && this.memsize == memsize && queueFront == 0
    {
      this.memsize := memsize;
      queueFront := 0;
    }

    /** fifo_evict */
    method Evict() returns (frame: nat)
      requires Valid()
      modifies this
      ensures Valid() && frame == old(queueFront) && queueFront == Around(old(queueFront), 1, memsize)
    {
      AroundIsRemainder(queueFront, 1, memsize);
      frame := queueFront;
      queueFront := (queueFront + 1) % memsize;
    }
  }

  class Clock {
    const memsize: nat
    const coremap: array<Frame>
    const pt: PageTable
    var hand: nat

    ghost predicate Valid()
      reads this
    {
      hand < memsize == coremap.Length
    }

    /** clock_init */
    constructor (coremap: array<Frame>, pt: PageTable)
      requires coremap.Length >= 1
      ensures Valid() && fresh(this) && this.coremap == coremap && this.pt == pt && hand == 0
    {
      memsize := coremap.Length;
      this.coremap := coremap;
      this.pt := pt;
      hand := 0;
    }

    /** The hand moves on to the next frame around the clock. */
    method Advance()
      requires Valid()
      modifies this`hand
      ensures Valid() && hand == Around(old(hand), 1, memsize)
    {
      AroundIsRemainder(hand, 1, memsize);
      hand := (hand + 1) % memsize;
    }

    /** Memory is full and holds `frames`, distinct pages whose entries can be reached. */
    ghost predicate Ready(frames: seq<Option<nat>>)
      reads this, coremap, pt
    {
      && Valid() && FramesOf(coremap[..]) == frames
      && (forall f :: 0 <= f < memsize ==> coremap[f].inUse && pt.Mapped(coremap[f].pte))
      && AllMapped(pt.entries, frames)
      && coremap as object !in pt.Repr && this !in pt.Repr
    }

    /** The body of clock_evict's loop. */
    method PassOver(ghost frames: seq<Option<nat>>)
      requires pt.Valid() && Ready(frames) && RefAt(pt.entries, frames, hand)
      modifies this`hand, pt.Repr
      ensures pt.Valid() && pt.Repr == old(pt.Repr) && pt.present == old(pt.present)
      ensures Ready(frames) && hand == Around(old(hand), 1, memsize)
      ensures var q := frames[old(hand)].value;
              pt.entries == old(pt.entries)[q := old(pt.entries)[q].(ref := false)]
    {
      var e := pt.Get(coremap[hand].pte);
      DecodeFlip(e, PG_REF);
      pt.Put(coremap[hand].pte, e.(frame := Words.Flip(e.frame, PG_REF)));
      Advance();
    }

    /** Whether the page under the hand has its reference bit set. */
    method Referenced(ghost frames: seq<Option<nat>>) returns (r: bool)
      requires pt.Valid() && Ready(frames)
      ensures r == RefAt(pt.entries, frames, hand)
    {
      r := pt.HasFlag(coremap[hand].pte, PG_REF);
    }

    /** clock_evict, in a full memory: at most memsize reference bits are cleared before a frame without one
        is found. */
    method Evict(ghost frames: seq<Option<nat>>) returns (frame: nat)
      requires pt.Valid() && Ready(frames) && ClockQueue.Apart(frames)
      modifies this`hand, pt.Repr
      ensures Valid() && pt.Valid() && pt.Repr == old(pt.Repr) && pt.present == old(pt.present)
      ensures var k := Skips(old(pt.entries), frames, old(hand), 0);
              && frame == hand == Around(old(hand), k, memsize)
              && pt.entries == ClearRefs(old(pt.entries), frames, old(hand), k)
    {
      ghost var pt0, hand0 := pt.entries, hand;
      ghost var n: nat := 0;
      var referenced := Referenced(frames);
      while referenced
        invariant pt.Valid() && pt.Repr == old(pt.Repr) && pt.present == old(pt.present)
        invariant Ready(frames)
        invariant Passed(pt0, frames, hand0, n, pt.entries, hand)
        invariant referenced == RefAt(pt.entries, frames, hand)
        decreases memsize - n
      {
        NextSet(pt0, frames, hand0, n, pt.entries, hand);
        PassOver(frames);
        n := n + 1;
        referenced := Referenced(frames);
      }
      StopAt(pt0, frames, hand0, n, pt.entries, hand);
      frame := hand;
    }

    /** clock_ref's branch for a page just loaded: it marks the page under the hand. */
    method RefLoaded()
      requires Valid() && pt.Valid() && pt.Mapped(coremap[hand].pte)
      requires this !in pt.Repr && coremap as object !in pt.Repr
      modifies this`hand, pt.Repr
      ensures Valid() && pt.Valid() && pt.Repr == old(pt.Repr) && pt.present == old(pt.present)
      ensures var q := PageAt(coremap[old(hand)].pte);
              && q < PAGES
              && if old(pt.entries)[q].ref then hand == old(hand) && pt.entries == old(pt.entries)
                 else
                   && hand == Around(old(hand), 1, memsize)
                   && pt.entries == old(pt.entries)[q := old(pt.entries)[q].(ref := true)]
    {
      var referenced := pt.HasFlag(coremap[hand].pte, PG_REF);
      if !referenced {
        pt.SetFlag(coremap[hand].pte, PG_REF);
        Advance();
      }
    }

    /** clock_ref's branch for a page in memory. */
    method RefHit(p: PtePtr)
      requires pt.Valid() && pt.Mapped(p) && PageAt(p) < PAGES
      modifies pt.Repr
      ensures pt.Valid() && pt.Repr == old(pt.Repr) && pt.present == old(pt.present)
      ensures var x := PageAt(p); pt.entries == old(pt.entries)[x := old(pt.entries[x]).(ref := true)]
    {
      var referenced := pt.HasFlag(p, PG_REF);
      if !referenced {
        pt.SetFlag(p, PG_REF);
      }
    }

    /** clock_ref on the entry of the page being accessed, before it is marked valid. */
    method Ref(p: PtePtr)
      requires Valid() && pt.Valid() && pt.Mapped(p) && PageAt(p) < PAGES
      requires this !in pt.Repr && coremap as object !in pt.Repr
      requires !pt.entries[PageAt(p)].valid ==> pt.Mapped(coremap[hand].pte)
      modifies this`hand, pt.Repr
      ensures Valid() && pt.Valid() && pt.Repr == old(pt.Repr) && pt.present == old(pt.present)
      ensures var x := PageAt(p);
              if old(pt.entries[x].valid) then
                hand == old(hand) && pt.entries == old(pt.entries)[x := old(pt.entries[x]).(ref := true)]
              else
                var q := PageAt(coremap[old(hand)].pte);
                && q < PAGES
                && if old(pt.entries)[q].ref then hand == old(hand) && pt.entries == old(pt.entries)
                   else
                     && hand == Around(old(hand), 1, memsize)
                     && pt.entries == old(pt.entries)[q := old(pt.entries)[q].(ref := true)]
    {
      var valid := pt.HasFlag(p, PG_VALID);
      if valid {
        RefHit(p);
      } else {
        RefLoaded();
      }
    }
  }

  /** The loop of clock_evict after `n` steps. */
  ghost predicate Passed(pt0: seq<Pte>, frames: seq<Option<nat>>, hand0: nat, n: nat, pt: seq<Pte>, hand: nat) {
    && AllMapped(pt0, frames) && ClockQueue.Apart(frames) && hand0 < |frames| && n <= |frames|
    && hand == Around(hand0, n, |frames|) && pt == ClearRefs(pt0, frames, hand0, n) && AllMapped(pt, frames)
    && forall i :: 0 <= i < n ==> RefAt(pt0, frames, Around(hand0, i, |frames|))
  }

  /** While the bit under the hand is set there are frames left to pass, and one more step clears one more bit. */
  lemma NextSet(pt0: seq<Pte>, frames: seq<Option<nat>>, hand0: nat, n: nat, pt: seq<Pte>, hand: nat)
    requires Passed(pt0, frames, hand0, n, pt, hand) && RefAt(pt, frames, hand)
    ensures n < |frames|
    ensures var q := frames[hand].value;
            Passed(pt0, frames, hand0, n + 1, pt[q := pt[q].(ref := false)], Around(hand, 1, |frames|))
  {
    ClockQueue.ClearedRefs(pt0, frames, hand0, n, if n < |frames| then n else 0);
  }

  /** The loop stops after exactly as many steps as there are set bits from the hand on. */
  lemma StopAt(pt0: seq<Pte>, frames: seq<Option<nat>>, hand0: nat, n: nat, pt: seq<Pte>, hand: nat)
    requires Passed(pt0, frames, hand0, n, pt, hand) && !RefAt(pt, frames, hand)
    ensures Skips(pt0, frames, hand0, 0) == n
  {
    if n < |frames| { ClockQueue.ClearedRefs(pt0, frames, hand0, n, n); }
  }
}
