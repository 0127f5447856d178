/** The index that opt.c builds over the trace: a hash table from page numbers to the list of trace
    positions still to come.  First the table as a value, with the code's own probe sequences. */
module OptIndex {
  import opened Machine
  import Belady

  const HSIZE: nat := 0x100_0000  // PTRS_PER_PGDIR * PTRS_PER_PGTBL

  function Hash(v: nat): (h: nat)
    ensures h < HSIZE
  {
    v * 16000057 % 0x100_0000
  }

  lemma Remainder(x: int, k: int, v: int)
    requires x == k * 0x100_0000 + v && 0 <= v < 0x100_0000
    ensures x % 0x100_0000 == v
  {
  }

  /** Hashing permutes the page numbers: multiplying by the multiplier's inverse modulo 2^24 undoes it. */
  lemma HashInverse(v: nat)
    requires v < HSIZE
    ensures Hash(v) * 297481 % 0x100_0000 == v
  {
    // 16000057 * 297481 == 1 + 283701 * 2^24
    var q := v * 16000057 / 0x100_0000;
    Remainder(Hash(v) * 297481, v * 283701 - q * 297481, v);
  }

  lemma HashInjective(v: nat, w: nat)
    requires v < HSIZE && w < HSIZE && Hash(v) == Hash(w)
    ensures v == w
  {
    HashInverse(v);
    HashInverse(w);
  }

  /** A hash table entry: a page number and the positions on its list. */
  datatype Slot = Slot(page: nat, positions: seq<nat>)

  type Table = t: seq<Option<Slot>> | |t| == HSIZE witness seq(HSIZE, _ => None)

  datatype Found = At(index: nat) | Absent | NullDereference

  /** The probe loop of search(), whose index is taken modulo 4096 and then scaled by 4096, and whose test
      for an empty slot looks at the home slot. */
  function SearchFrom(t: Table, v: nat, i: nat): (r: Found)
    requires i <= HSIZE
    ensures r.At? ==> r.index < HSIZE
    decreases HSIZE - i
  {
    if i == HSIZE then Absent
    else
      var index := (Hash(v) + i) % 4096 * 4096;
      if t[Hash(v)].Some? then
        if t[index].None? then NullDereference
        else if t[index].value.page == v then At(index)
        else SearchFrom(t, v, i + 1)
      else if t[index].None? then Absent
      else SearchFrom(t, v, i + 1)
  }

  function Search(t: Table, v: nat): (r: Found)
    ensures r.At? ==> r.index < HSIZE
  {
    if t[Hash(v)].Some? && t[Hash(v)].value.page == v then At(Hash(v)) else SearchFrom(t, v, 0)
  }

  /** The probe loop of insert(): the first slot from the home slot on that is empty or holds the page. */
  function InsertFrom(t: Table, v: nat, i: nat): (r: Option<nat>)
    requires i <= HSIZE
    ensures r.Some? ==> r.value < HSIZE
    decreases HSIZE - i
  {
    if i == HSIZE then None
    else
      var index := (Hash(v) + i) % HSIZE;
      if t[index].None? || t[index].value.page == v then Some(index) else InsertFrom(t, v, i + 1)
  }

  /** The slot insert() appends to; None is the exit for a full table. */
  function InsertAt(t: Table, v: nat): (r: Option<nat>)
    ensures r.Some? ==> r.value < HSIZE
  {
    if t[Hash(v)].None? then Some(Hash(v)) else InsertFrom(t, v, 0)
  }

  function Appended(t: Table, k: nat, v: nat, position: nat): Table
    requires k < HSIZE
  {
    t[k := Some(if t[k].None? then Slot(v, [position])
                else t[k].value.(positions := t[k].value.positions + [position]))]
  }

  /** Every entry sits in the home slot of its page. */
  ghost predicate AtHome(t: Table) {
    forall i :: 0 <= i < HSIZE && t[i].Some? ==> t[i].value.page < HSIZE && Hash(t[i].value.page) == i
  }

  lemma HomeIsOwn(t: Table, v: nat)
    requires AtHome(t) && v < HSIZE && t[Hash(v)].Some?
    ensures t[Hash(v)].value.page == v
  {
    HashInjective(t[Hash(v)].value.page, v);
  }

  lemma {:induction false} EmptyHomeIsAbsent(t: Table, v: nat, i: nat)
    requires t[Hash(v)].None? && i <= HSIZE
    ensures SearchFrom(t, v, i) == Absent
    decreases HSIZE - i
  {
    if i < HSIZE { EmptyHomeIsAbsent(t, v, i + 1); }
  }

  /** On tables with entries at home, which are all that insert() builds, search() is exact and never
      dereferences an empty slot, for all its loop looks at the wrong ones. */
  lemma SearchIsExact(t: Table, v: nat)
    requires AtHome(t) && v < HSIZE
    ensures Search(t, v) == if t[Hash(v)].Some? then At(Hash(v)) else Absent
    ensures t[Hash(v)].Some? <==> exists i :: 0 <= i < HSIZE && t[i].Some? && t[i].value.page == v
  {
    if t[Hash(v)].Some? { HomeIsOwn(t, v); } else { EmptyHomeIsAbsent(t, v, 0); }
    if i :| 0 <= i < HSIZE && t[i].Some? && t[i].value.page == v { assert i == Hash(v); }
  }

  /** insert() always uses the home slot, and keeps entries at home. */
  lemma InsertIsAtHome(t: Table, v: nat, position: nat)
    requires AtHome(t) && v < HSIZE
    ensures InsertAt(t, v) == Some(Hash(v)) && AtHome(Appended(t, Hash(v), v, position))
  {
    if t[Hash(v)].Some? {
      HomeIsOwn(t, v);
      assert (Hash(v) + 0) % HSIZE == Hash(v);
    }
  }

  /** The loop of search() on its own is not a lookup: with two colliding pages it would read an empty slot.
      (Page 2^24 + 5 is no page number; it stands for any second page with the hash of page 5.) */
  lemma SearchNeedsHomeSlots()
    ensures exists t: Table, v: nat :: Search(t, v) == NullDereference
  {
    var h := Hash(5);
    var none: seq<Option<Slot>> := seq(HSIZE, _ => None);
    var t: Table := none[h := Some(Slot(5, []))];
    var v: nat := 5 + HSIZE;
    assert v * 16000057 == 5 * 16000057 + 16000057 * 0x100_0000;
    assert Hash(v) == h;
    assert h % 4096 != 0;
    assert SearchFrom(t, v, 0) == NullDereference;
    assert Search(t, v) == NullDereference;
  }

  // ---------------------------------------------------------------- the table of a trace

  /** The positions from `lo` below `hi` at which the trace names page `p`, in increasing order. */
  function Positions(trace: seq<nat>, lo: nat, hi: nat, p: nat): seq<nat>
    requires lo <= hi <= |trace|
    decreases hi - lo
  {
    if lo == hi then []
    else if trace[lo] == p then [lo] + Positions(trace, lo + 1, hi, p)
    else Positions(trace, lo + 1, hi, p)
  }

  lemma {:induction false} PositionsGrow(trace: seq<nat>, lo: nat, hi: nat, p: nat)
    requires lo <= hi < |trace|
    ensures Positions(trace, lo, hi + 1, p) ==
            if trace[hi] == p then Positions(trace, lo, hi, p) + [hi] else Positions(trace, lo, hi, p)
    decreases hi - lo
  {
    if lo < hi { PositionsGrow(trace, lo + 1, hi, p); }
  }

  /** The head of the list is the page's next use, and an empty list means it has none. */
  lemma {:induction false} HeadIsNextUse(trace: seq<nat>, t: nat, p: nat)
    requires t <= |trace|
    ensures var ps := Positions(trace, t, |trace|, p);
            Belady.NextUse(trace, t, p) == if ps == [] then |trace| else ps[0]
    ensures var ps := Positions(trace, t, |trace|, p);
            forall i :: 0 <= i < |ps| ==> t <= ps[i] < |trace|
    decreases |trace| - t
  {
    if t < |trace| { HeadIsNextUse(trace, t + 1, p); }
  }

  /** `ps` is the strictly increasing sequence of exactly the positions from `lo` below `hi` that name page `p`. */
  ghost predicate InOrder(trace: seq<nat>, lo: nat, hi: nat, p: nat, ps: seq<nat>)
    requires lo <= hi <= |trace|
  {
    && (forall i :: 0 <= i < |ps| ==> lo <= ps[i] < hi && trace[ps[i]] == p)
    && (forall i, j :: 0 <= i < j < |ps| ==> ps[i] < ps[j])
    && (forall x :: lo <= x < hi && trace[x] == p ==> x in ps)
  }

  lemma {:induction false} PositionsInOrder(trace: seq<nat>, lo: nat, hi: nat, p: nat)
    requires lo <= hi <= |trace|
    ensures InOrder(trace, lo, hi, p, Positions(trace, lo, hi, p))
    decreases hi - lo
  {
    if lo < hi { PositionsInOrder(trace, lo + 1, hi, p); }
  }

  /** The entry of page `p` lists its positions from `lo` below `hi`; there is one if it is named below `hi`. */
  ghost predicate Lists(t: Table, trace: seq<nat>, lo: nat, hi: nat, p: nat)
    requires lo <= hi <= |trace|
  {
    t[Hash(p)] == if p in trace[..hi] then Some(Slot(p, Positions(trace, lo, hi, p))) else None
  }

  /** `t` indexes the part of the trace from `lo` below `hi`. */
  ghost predicate Indexes(t: Table, trace: seq<nat>, lo: nat, hi: nat)
    requires lo <= hi <= |trace|
  {
    AtHome(t) && forall p: nat :: p < HSIZE ==> Lists(t, trace, lo, hi, p)
  }

  lemma {:induction false} NotNamed(trace: seq<nat>, lo: nat, hi: nat, p: nat)
    requires lo <= hi <= |trace| && forall i :: lo <= i < hi ==> trace[i] != p
    ensures Positions(trace, lo, hi, p) == []
    decreases hi - lo
  {
    if lo < hi { NotNamed(trace, lo + 1, hi, p); }
  }

  lemma NamedOneMore(trace: seq<nat>, hi: nat, p: nat)
    requires hi < |trace|
    ensures p in trace[..hi + 1] <==> p in trace[..hi] || p == trace[hi]
    ensures p !in trace[..hi] ==> Positions(trace, 0, hi, p) == []
  {
    assert trace[..hi + 1] == trace[..hi] + [trace[hi]];
    if p !in trace[..hi] {
      assert forall i :: 0 <= i < hi ==> trace[i] in trace[..hi];
      NotNamed(trace, 0, hi, p);
    }
  }

  lemma DifferentSlots(p: nat, v: nat)
    requires p < HSIZE && v < HSIZE && p != v
    ensures Hash(p) != Hash(v)
  {
    if Hash(p) == Hash(v) { HashInjective(p, v); }
  }

  lemma ListsAfterInsert(t: Table, trace: seq<nat>, hi: nat, p: nat)
    requires hi < |trace| && trace[hi] < HSIZE && p < HSIZE && Lists(t, trace, 0, hi, p)
    ensures Lists(Appended(t, Hash(trace[hi]), trace[hi], hi), trace, 0, hi + 1, p)
  {
    PositionsGrow(trace, 0, hi, p);
    NamedOneMore(trace, hi, p);
    if p != trace[hi] { DifferentSlots(p, trace[hi]); }
    assert [] + [hi] == [hi];
  }

  /** One iteration of opt_init's loop. */
  lemma InsertIndexes(t: Table, trace: seq<nat>, hi: nat)
    requires hi < |trace| && trace[hi] < HSIZE && Indexes(t, trace, 0, hi)
    ensures InsertAt(t, trace[hi]) == Some(Hash(trace[hi]))
    ensures Indexes(Appended(t, Hash(trace[hi]), trace[hi], hi), trace, 0, hi + 1)
  {
    InsertIsAtHome(t, trace[hi], hi);
    var t', next := Appended(t, Hash(trace[hi]), trace[hi], hi), hi + 1;
    forall p: nat | p < HSIZE
      ensures Lists(t', trace, 0, next, p)
    {
      ListsAfterInsert(t, trace, hi, p);
    }
  }

  function Popped(t: Table, k: nat): Table
    requires k < HSIZE && t[k].Some? && t[k].value.positions != []
  {
    t[k := Some(t[k].value.(positions := t[k].value.positions[1..]))]
  }

  lemma ListsAfterDelete(t: Table, trace: seq<nat>, lo: nat, p: nat)
    requires lo < |trace| && trace[lo] < HSIZE && p < HSIZE
    requires Lists(t, trace, lo, |trace|, trace[lo]) && Lists(t, trace, lo, |trace|, p)
    requires var k := Hash(trace[lo]); t[k].Some? && t[k].value.positions != []
    ensures Lists(Popped(t, Hash(trace[lo])), trace, lo + 1, |trace|, p)
  {
    assert trace[lo] in trace[..|trace|];
    assert Positions(trace, lo, |trace|, trace[lo])[1..] == Positions(trace, lo + 1, |trace|, trace[lo]);
    if p != trace[lo] { DifferentSlots(p, trace[lo]); }
  }

  /** What opt_ref does at reference `lo`: the head it deletes is position `lo` itself. */
  lemma DeleteIndexes(t: Table, trace: seq<nat>, lo: nat)
    requires lo < |trace| && trace[lo] < HSIZE && Indexes(t, trace, lo, |trace|)
    ensures Search(t, trace[lo]) == At(Hash(trace[lo]))
    ensures t[Hash(trace[lo])].Some? && t[Hash(trace[lo])].value.positions != []
    ensures t[Hash(trace[lo])].value.positions[0] == lo
    ensures Indexes(Popped(t, Hash(trace[lo])), trace, lo + 1, |trace|)
  {
    var v := trace[lo];
    assert Lists(t, trace, lo, |trace|, v);
    SearchIsExact(t, v);
    var t', next := Popped(t, Hash(v)), lo + 1;
    forall p: nat | p < HSIZE
      ensures Lists(t', trace, next, |trace|, p)
    {
      ListsAfterDelete(t, trace, lo, p);
    }
  }

  /** What opt_evict reads: the list found for a resident page gives its next use. */
  lemma LookupIsNextUse(t: Table, trace: seq<nat>, lo: nat, p: nat)
    requires lo <= |trace| && p < HSIZE && p in trace && Indexes(t, trace, lo, |trace|)
    ensures Search(t, p) == At(Hash(p)) && t[Hash(p)].Some?
    ensures var ps := t[Hash(p)].value.positions;
            Belady.NextUse(trace, lo, p) == if ps == [] then |trace| else ps[0]
    ensures var ps := t[Hash(p)].value.positions; ps != [] ==> ps[0] < |trace|
  {
    assert trace[..|trace|] == trace;
    assert Lists(t, trace, lo, |trace|, p);
    SearchIsExact(t, p);
    HeadIsNextUse(trace, lo, p);
  }
}
