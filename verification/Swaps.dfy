/** The swap file as an array of 16-byte slots, addressed by byte offset. */
module Swaps {
  import opened Machine
  import Bitmaps

  class Swap {
    const swapmap: Bitmaps.Bitmap
    const slots: array<SimPage>
    const physmem: array<SimPage>

    ghost predicate Valid()
      reads swapmap.v
    {
      swapmap.Valid() && slots.Length == swapmap.nbits
      && swapmap.v as object != slots && swapmap.v as object != physmem && slots != physmem
    }

    ghost function Used(): set<nat>
      requires Valid()
      reads swapmap.v
    {
      swapmap.Contents()
    }

    /** swap_init; the file may hold anything. */
    constructor (swapsize: nat, physmem: array<SimPage>)
      ensures Valid() && fresh(swapmap.v) && fresh(slots) && this.physmem == physmem
      ensures slots.Length == swapsize && Used() == {}
    {
      swapmap := new Bitmaps.Bitmap(swapsize);
      slots := new SimPage[swapsize](_ => SimPage(0, 0));
      this.physmem := physmem;
    }

    /** swap_pagein: fills `frame` from the slot at byte `offset`. */
    method PageIn(frame: nat, offset: int)
      requires Valid() && frame < physmem.Length
      requires offset != INVALID_SWAP && offset % SIMPAGESIZE == 0 && 0 <= offset / SIMPAGESIZE < slots.Length
      modifies physmem
      ensures physmem[..] == old(physmem[..])[frame := slots[offset / SIMPAGESIZE]]
    {
      physmem[frame] := slots[offset / SIMPAGESIZE];
    }

    /** swap_pageout: writes `frame` to the slot at byte `offset`, or to the least free slot if the page has
        none; the slot's offset, or INVALID_SWAP if no slot is free. */
    method PageOut(frame: nat, offset: int) returns (r: int)
      requires Valid() && frame < physmem.Length
      requires offset != INVALID_SWAP ==> offset % SIMPAGESIZE == 0 && 0 <= offset / SIMPAGESIZE < slots.Length
      modifies slots, swapmap.v
      ensures Valid()
      ensures var slot := if offset == INVALID_SWAP then LeastFree(old(Used()), 0, slots.Length)
                          else offset / SIMPAGESIZE;
              if slot == slots.Length then
                r == INVALID_SWAP && slots[..] == old(slots[..]) && Used() == old(Used())
              else
                && r == slot * SIMPAGESIZE
                && slots[..] == old(slots[..])[slot := physmem[frame]]
                && (if offset == INVALID_SWAP then Used() == old(Used()) + {slot} else Used() == old(Used()))
    {
      r := offset;
      if r == INVALID_SWAP {
        var failed, idx := swapmap.Alloc();
        if failed {
          return INVALID_SWAP;
        }
        r := idx * SIMPAGESIZE;
      }
      slots[r / SIMPAGESIZE] := physmem[frame];
    }
  }
}
