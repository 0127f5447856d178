/** Physical memory, coremap, page table and swap file together: the parts of pagetable.c that do not
    depend on the replacement policy. */
module Memories {
  import opened Machine
  import opened PageTables
  import opened Coremaps
  import opened Swaps
  import Words

  class Memory {
    const memsize: nat
    const physmem: array<SimPage>
    const coremap: array<Frame>
    const pt: PageTable
    const swap: Swap
    var hitCount: nat
    var missCount: nat
    var refCount: nat
    var evictCleanCount: nat
    var evictDirtyCount: nat

    /** The objects of this memory, the page table's aside. */
    ghost function Parts(): set<object> { {this, physmem, coremap, swap.slots, swap.swapmap.v} }

    ghost predicate Valid()
      reads coremap, swap.swapmap.v, pt, pt.Repr
    {
      && memsize == physmem.Length == coremap.Length && 1 <= memsize < 0x10_0000
      && pt.Valid() && swap.Valid() && swap.physmem == physmem
      && Parts() !! pt.Repr
      && forall f :: 0 <= f < memsize && coremap[f].inUse ==> pt.Mapped(coremap[f].pte)
    }

    ghost function Frames(): seq<Option<nat>>
      reads coremap
    {
      FramesOf(coremap[..])
    }

    ghost function Counts(): Counters
      reads this
    {
      Counters(hitCount, missCount, refCount, evictCleanCount, evictDirtyCount)
    }

    /** This memory as a state of the machine, given the policy's own state. */
    ghost function View(pol: Policy): State
      requires swap.Valid()
      reads this, physmem, coremap, swap.slots, swap.swapmap.v, pt
    {
      State(pt.entries, Frames(), physmem[..], swap.slots[..], swap.Used(), Counts(), pol)
    }

    constructor (memsize: nat, swapsize: nat)
      requires 1 <= memsize < 0x10_0000
      ensures Valid() && fresh(this) && fresh(physmem) && fresh(coremap)
      ensures fresh(swap.slots) && fresh(swap.swapmap.v) && fresh(pt.Repr)
      ensures this.memsize == memsize && swap.slots.Length == swapsize && swap.Used() == {}
      ensures (forall p :: 0 <= p < PAGES ==> pt.entries[p] == EMPTY_PTE)
      ensures (forall f :: 0 <= f < memsize ==> !coremap[f].inUse) && Counts() == Counters(0, 0, 0, 0, 0)
    {
      this.memsize := memsize;
      var mem := new SimPage[memsize](_ => SimPage(0, 0));
      physmem := mem;
      coremap := new Frame[memsize](_ => Frame(NULL, NULL, false, PtePtr(0, 0)));
      pt := new PageTable();
      swap := new Swap(swapsize, mem);
      hitCount, missCount, refCount, evictCleanCount, evictDirtyCount := 0, 0, 0, 0, 0;
    }

    /** The scan of allocate_frame for a free frame; memsize if there is none. */
    method FreeFrame() returns (k: nat)
      requires Valid()
      ensures k == FirstFree(Frames())
    {
      for i := 0 to memsize
        invariant forall j :: 0 <= j < i ==> coremap[j].inUse
      {
        if !coremap[i].inUse {
          return i;
        }
      }
      return memsize;
    }

    /** Record in the coremap that frame `f` holds the page of `p`. */
    method Take(f: nat, p: PtePtr)
      requires Valid() && f < memsize && pt.Mapped(p)
      modifies coremap
      ensures Valid() && OnlyPages(old(coremap[..]), coremap[..])
      ensures Frames() == old(Frames())[f := Some(PageAt(p))]
      ensures forall g :: 0 <= g < memsize ==> coremap[g].pte == if g == f then p else old(coremap[g].pte)
    {
      coremap[f] := coremap[f].(inUse := true, pte := p);
    }

    /** The part of allocate_frame that counts the eviction, writes the victim to swap and updates its entry;
        false is exit(1). */
    method PageOutVictim(f: nat) returns (ok: bool)
      requires Valid() && f < memsize && coremap[f].inUse
      requires var q := PageAt(coremap[f].pte);
               && q < PAGES && pt.entries[q].valid
               && (HasSlot(pt.entries[q]) ==>
                     0 <= SlotOf(pt.entries[q]) < swap.slots.Length
                     && pt.entries[q].swapOff == SlotOf(pt.entries[q]) * SIMPAGESIZE
                     && SlotOf(pt.entries[q]) in swap.Used())
      modifies this, swap.slots, swap.swapmap.v, pt.Repr
      ensures Valid() && pt.Repr == old(pt.Repr) && pt.present == old(pt.present)
      ensures coremap[..] == old(coremap[..]) && physmem[..] == old(physmem[..])
      ensures var q := PageAt(coremap[f].pte);
              var e := old(pt.entries)[q];
              var slot := if HasSlot(e) then SlotOf(e) else LeastFree(old(swap.Used()), 0, swap.slots.Length);
              && (ok <==> slot != swap.slots.Length)
              && (ok ==>
                    && pt.entries == old(pt.entries)[q := PagedOut(e, slot)]
                    && swap.slots[..] == old(swap.slots[..])[slot := physmem[f]]
                    && swap.Used() == old(swap.Used()) + {slot}
                    && Counts() == Evicted(old(Counts()), e))
    {
      var p := coremap[f].pte;
      CountEviction(p);
      var e := pt.Get(p);
      var swapOffset := swap.PageOut(f, e.swapOff);
      if swapOffset == INVALID_SWAP {
        return false;
      }
      MarkOut(p, swapOffset);
      return true;
    }

    method CountEviction(p: PtePtr)
      requires pt.Valid() && pt.Mapped(p)
      modifies this
      ensures PageAt(p) < PAGES && Counts() == Evicted(old(Counts()), pt.entries[PageAt(p)])
    {
      var dirty := pt.HasFlag(p, PG_DIRTY);
      if dirty {
        evictDirtyCount := evictDirtyCount + 1;
      } else {
        evictCleanCount := evictCleanCount + 1;
      }
    }

    /** The victim's entry: on swap, no longer valid, at its offset. */
    method MarkOut(p: PtePtr, swapOffset: int)
      requires pt.Valid() && pt.Mapped(p) && PageAt(p) < PAGES && pt.entries[PageAt(p)].valid
      modifies pt.Repr
      ensures pt.Valid() && pt.Repr == old(pt.Repr) && pt.present == old(pt.present)
      ensures pt.entries ==
              var e := old(pt.entries)[PageAt(p)];
              old(pt.entries)[PageAt(p) := e.(onswap := true, valid := false, swapOff := swapOffset)]
    {
      pt.SetFlag(p, PG_ONSWAP);
      var e := pt.Get(p);
      if Words.Bit(e.frame, PG_VALID) {
        DecodeFlip(e, PG_VALID);
        e := e.(frame := Words.Flip(e.frame, PG_VALID));
        pt.Put(p, e);
      }
      pt.Put(p, e.(swapOff := swapOffset));
    }

    /** The entry gets the frame number, and its flags are cleared. */
    method Install(p: PtePtr, f: nat)
      requires pt.Valid() && pt.Mapped(p) && PageAt(p) < PAGES && f < 0x10_0000
      modifies pt.Repr
      ensures pt.Valid() && pt.Repr == old(pt.Repr) && pt.present == old(pt.present)
      ensures pt.entries ==
              old(pt.entries)[PageAt(p) := Pte(f, false, false, false, false, old(pt.entries)[PageAt(p)].swapOff)]
    {
      var e := pt.Get(p);
      DecodeFrame(e, f);
      pt.Put(p, e.(frame := Words.Left(f, PAGE_SHIFT)));
    }

    /** A page's first reference: a frame of zeros with the address (init_frame). */
    method LoadNew(p: PtePtr, f: nat, vaddr: nat)
      requires Valid() && pt.Mapped(p) && PageAt(p) < PAGES && f < memsize
      modifies physmem, pt.Repr
      ensures Valid() && pt.Repr == old(pt.Repr) && pt.present == old(pt.present)
      ensures pt.entries ==
              old(pt.entries)[PageAt(p) := Pte(f, false, false, false, false, old(pt.entries)[PageAt(p)].swapOff)]
      ensures physmem[..] == old(physmem[..])[f := SimPage(0, vaddr)]
    {
      Install(p, f);
      physmem[f] := SimPage(0, vaddr);
    }

    /** A page that was evicted: its frame is filled from its swap slot. */
    method LoadSwapped(p: PtePtr, f: nat)
      requires Valid() && pt.Mapped(p) && PageAt(p) < PAGES && f < memsize
      requires var e := pt.entries[PageAt(p)];
               HasSlot(e) && 0 <= SlotOf(e) < swap.slots.Length && e.swapOff == SlotOf(e) * SIMPAGESIZE
      modifies physmem, pt.Repr
      ensures Valid() && pt.Repr == old(pt.Repr) && pt.present == old(pt.present)
      ensures pt.entries ==
              old(pt.entries)[PageAt(p) := Pte(f, false, false, false, false, old(pt.entries)[PageAt(p)].swapOff)]
      ensures physmem[..] == old(physmem[..])[f := swap.slots[SlotOf(old(pt.entries)[PageAt(p)])]]
    {
      Install(p, f);
      var e := pt.Get(p);
      swap.PageIn(f, e.swapOff);
    }

    /** The entry is marked valid and referenced. */
    method MarkUsed(p: PtePtr)
      requires pt.Valid() && pt.Mapped(p) && PageAt(p) < PAGES
      modifies pt.Repr
      ensures pt.Valid() && pt.Repr == old(pt.Repr) && pt.present == old(pt.present)
      ensures pt.entries == old(pt.entries)[PageAt(p) := old(pt.entries)[PageAt(p)].(valid := true, ref := true)]
    {
      pt.SetFlag(p, PG_VALID);
      pt.SetFlag(p, PG_REF);
    }

    /** The entry is marked dirty if the access is a write. */
    method MarkDirty(p: PtePtr, write: bool)
      requires pt.Valid() && pt.Mapped(p) && PageAt(p) < PAGES
      modifies pt.Repr
      ensures pt.Valid() && pt.Repr == old(pt.Repr) && pt.present == old(pt.present)
      ensures pt.entries ==
              var e := old(pt.entries)[PageAt(p)];
              old(pt.entries)[PageAt(p) := e.(dirty := e.dirty || write)]
    {
      if write {
        pt.SetFlag(p, PG_DIRTY);
      }
    }
  }

}
