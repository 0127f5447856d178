/** The two-level page table: entries packed into words, second-level tables allocated on first use. */
module PageTables {
  import opened Machine
  import opened Words

  const PAGE_SHIFT: nat := 12
  const PTRS_PER_PGDIR: nat := 4096
  const PTRS_PER_PGTBL: nat := 4096

  // flag bits of the frame word, by position
  const PG_VALID: nat := 0
  const PG_DIRTY: nat := 1
  const PG_REF: nat := 2
  const PG_ONSWAP: nat := 3

  /** pgtbl_entry_t: the flags share a 32-bit word with the frame number. */
  datatype PteWord = PteWord(frame: nat, swapOff: int)

  /** A pointer to a page table entry: which second-level table, and where in it. */
  datatype PtePtr = PtePtr(dir: nat, pti: nat)

  function PgdirIndex(vaddr: nat): nat { vaddr / 0x100_0000 }

  function PgtblIndex(vaddr: nat): nat { vaddr / PAGE_SIZE % PTRS_PER_PGTBL }

  /** The page number whose entry a pointer refers to. */
  function PageAt(p: PtePtr): nat { p.dir * PTRS_PER_PGTBL + p.pti }

  function FrameNumber(e: PteWord): nat { Right(e.frame, PAGE_SHIFT) }

  function Decode(e: PteWord): Pte {
    Pte(FrameNumber(e), Bit(e.frame, PG_VALID), Bit(e.frame, PG_DIRTY), Bit(e.frame, PG_REF),
        Bit(e.frame, PG_ONSWAP), e.swapOff)
  }

  /** The entry the table walk ends at. */
  function EntryOf(vaddr: nat): PtePtr { PtePtr(PgdirIndex(vaddr), PgtblIndex(vaddr)) }

  /** Splitting an address into two indices loses nothing. */
  lemma IndicesArePage(vaddr: nat)
    requires vaddr < VADDRS
    ensures PgdirIndex(vaddr) < PTRS_PER_PGDIR && PgtblIndex(vaddr) < PTRS_PER_PGTBL
    ensures PageAt(EntryOf(vaddr)) == PageOf(vaddr) < PAGES
  {
    assert vaddr / 0x100_0000 == vaddr / PAGE_SIZE / PTRS_PER_PGTBL;
  }

  /** Two addresses share an entry if and only if they lie on the same page. */
  lemma SameEntryIffSamePage(v: nat, w: nat)
    requires v < VADDRS && w < VADDRS
    ensures EntryOf(v) == EntryOf(w) <==> PageOf(v) == PageOf(w)
  {
    IndicesArePage(v);
    IndicesArePage(w);
  }

  // ---------------------------------------------------------------- the bit operations on an entry

  function WithFlag(e: Pte, k: nat): Pte
    requires k <= 3
  {
    if k == PG_VALID then e.(valid := true)
    else if k == PG_DIRTY then e.(dirty := true)
    else if k == PG_REF then e.(ref := true)
    else e.(onswap := true)
  }

  lemma DecodeSet(e: PteWord, k: nat)
    requires e.frame < WORDS && k <= 3
    ensures var e' := e.(frame := Set(e.frame, k));
            e'.frame < WORDS && Decode(e') == WithFlag(Decode(e), k)
  {
    SetWord(e.frame, k);
    HighBits(e.frame, k, PAGE_SHIFT);
  }

  /** ^ PG_VALID and ^ PG_REF are only used on entries that have the bit. */
  lemma DecodeFlip(e: PteWord, k: nat)
    requires e.frame < WORDS && (k == PG_VALID || k == PG_REF) && Bit(e.frame, k)
    ensures var e' := e.(frame := Flip(e.frame, k));
            && e'.frame < WORDS
            && Decode(e') == if k == PG_VALID then Decode(e).(valid := false) else Decode(e).(ref := false)
  {
    ClearWord(e.frame, k);
    HighBits(e.frame, k, PAGE_SHIFT);
  }

  /** Storing a frame number and shifting it into place clears every flag. */
  lemma DecodeFrame(e: PteWord, f: nat)
    requires f < 0x10_0000
    ensures var e' := e.(frame := Left(f, PAGE_SHIFT));
            e'.frame < WORDS && Decode(e') == Pte(f, false, false, false, false, e.swapOff)
  {
    Constants();
    LeftBound(f, 20, PAGE_SHIFT);
    RightOfLeft(f, PAGE_SHIFT);
    LeftBits(f, PAGE_SHIFT, PG_VALID);
    LeftBits(f, PAGE_SHIFT, PG_DIRTY);
    LeftBits(f, PAGE_SHIFT, PG_REF);
    LeftBits(f, PAGE_SHIFT, PG_ONSWAP);
  }

  const NEW_WORD := PteWord(0, INVALID_SWAP)

  lemma DecodeNew()
    ensures Decode(NEW_WORD) == EMPTY_PTE
  {
    BitOfZero(0);
    BitOfZero(1);
    BitOfZero(2);
    BitOfZero(3);
    assert Right(0, 4) == 0 && Right(0, 8) == 0;
  }

  // ---------------------------------------------------------------- the table

  class PageTable {
    /** A null entry is a page directory entry without PG_VALID. */
    const pgdir: array<array?<PteWord>>
    /** The decoded entry of every page, and the directory entries that are valid. */
    ghost var entries: seq<Pte>
    ghost var present: set<nat>
    ghost var Repr: set<object>

    ghost predicate Valid()
      reads this, Repr
      ensures Valid() ==> this in Repr
    {
      && this in Repr && pgdir in Repr && pgdir.Length == PTRS_PER_PGDIR && |entries| == PAGES
      && (forall d :: 0 <= d < PTRS_PER_PGDIR ==> (pgdir[d] != null <==> d in present))
      && (forall d :: 0 <= d < PTRS_PER_PGDIR && pgdir[d] != null ==>
            pgdir[d] in Repr && pgdir[d].Length == PTRS_PER_PGTBL)
      && (forall d, c :: 0 <= d < c < PTRS_PER_PGDIR && pgdir[d] != null ==> pgdir[d] != pgdir[c])
      && (forall d, i :: 0 <= d < PTRS_PER_PGDIR && pgdir[d] != null && 0 <= i < PTRS_PER_PGTBL ==>
            pgdir[d][i].frame < WORDS)
      && (forall p :: 0 <= p < PAGES ==>
            entries[p] == if pgdir[p / PTRS_PER_PGTBL] == null then EMPTY_PTE
                          else Decode(pgdir[p / PTRS_PER_PGTBL][p % PTRS_PER_PGTBL]))
    }

    ghost predicate Mapped(p: PtePtr)
      reads this
    {
      p.dir < PTRS_PER_PGDIR && p.dir in present && p.pti < PTRS_PER_PGTBL
    }

    /** init_pagetable */
    constructor ()
      ensures Valid() && fresh(Repr) && present == {}
      ensures forall p :: 0 <= p < PAGES ==> entries[p] == EMPTY_PTE
    {
      pgdir := new array?<PteWord>[PTRS_PER_PGDIR](_ => null);
      entries := seq(PAGES, _ => EMPTY_PTE);
      present := {};
      new;
      Repr := {this, pgdir};
    }

    /** The table walk of find_physpage, with init_second_level when the directory entry is not valid. */
    method Locate(vaddr: nat) returns (p: PtePtr)
      requires Valid() && vaddr < VADDRS
      modifies Repr
      ensures Valid() && fresh(Repr - old(Repr)) && old(present) <= present
      ensures entries == old(entries)
      ensures Mapped(p) && p == EntryOf(vaddr) && PageAt(p) == PageOf(vaddr) < PAGES
    {
      var idx, pti := PgdirIndex(vaddr), PgtblIndex(vaddr);
      IndicesArePage(vaddr);
      if pgdir[idx] == null {
        var pgtbl := new PteWord[PTRS_PER_PGTBL](_ => NEW_WORD);
        DecodeNew();
        pgdir[idx] := pgtbl;
        present := present + {idx};
        Repr := Repr + {pgtbl};
      }
      p := PtePtr(idx, pti);
    }

    /** The word a pointer refers to. */
    method Get(p: PtePtr) returns (e: PteWord)
      requires Valid() && Mapped(p)
      ensures PageAt(p) < PAGES && Decode(e) == entries[PageAt(p)] && e.frame < WORDS
    {
      e := pgdir[p.dir][p.pti];
    }

    /** The word a pointer refers to is overwritten. */
    method Put(p: PtePtr, e: PteWord)
      requires Valid() && Mapped(p) && e.frame < WORDS
      modifies Repr
      ensures Valid() && Repr == old(Repr) && present == old(present)
      ensures PageAt(p) < PAGES && entries == old(entries)[PageAt(p) := Decode(e)]
    {
      pgdir[p.dir][p.pti] := e;
      entries := entries[PageAt(p) := Decode(e)];
    }

    /** One flag of an entry is set. */
    method SetFlag(p: PtePtr, k: nat)
      requires Valid() && Mapped(p) && k <= 3
      modifies Repr
      ensures Valid() && Repr == old(Repr) && present == old(present)
      ensures PageAt(p) < PAGES && entries == old(entries)[PageAt(p) := WithFlag(old(entries)[PageAt(p)], k)]
    {
      var e := Get(p);
      DecodeSet(e, k);
      Put(p, e.(frame := Set(e.frame, k)));
    }

    /** Whether a flag of an entry is set. */
    method HasFlag(p: PtePtr, k: nat) returns (r: bool)
      requires Valid() && Mapped(p) && k <= 3
      ensures PageAt(p) < PAGES
      ensures var e := entries[PageAt(p)];
              r == (if k == PG_VALID then e.valid else if k == PG_DIRTY then e.dirty
                    else if k == PG_REF then e.ref else e.onswap)
    {
      var e := Get(p);
      r := Bit(e.frame, k);
    }
  }
}
