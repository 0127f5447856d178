/** The bitmap that manages the slots of the swap file: 32-bit words set and cleared in place, proved
    against a finite set of slot numbers. */
module Bitmaps {
  import Machine
  import opened Words

  const BITS_PER_WORD: nat := 32
  const WORD_ALLBITS: nat := 0xffff_ffff

  function DivRoundUp(a: nat, b: nat): nat
    requires b > 0
  {
    (a + b - 1) / b
  }

  /** Bit `i` of the words `v` read as one long string of bits. */
  predicate BitOf(v: seq<nat>, i: nat)
    requires i / BITS_PER_WORD < |v|
  {
    Bit(v[i / BITS_PER_WORD], i % BITS_PER_WORD)
  }

  /** Every word fits in 32 bits, and the bits left over at the end are set. */
  ghost predicate GoodWords(v: seq<nat>, nbits: nat) {
    && |v| == DivRoundUp(nbits, BITS_PER_WORD)
    && (forall ix :: 0 <= ix < |v| ==> v[ix] < WORDS)
    && (forall i :: nbits <= i < |v| * BITS_PER_WORD ==> BitOf(v, i))
  }

  ghost function Marked(v: seq<nat>, nbits: nat): set<nat>
    requires GoodWords(v, nbits)
  {
    set i: nat | i < nbits && BitOf(v, i)
  }

  lemma SetInWords(v: seq<nat>, nbits: nat, ix: nat, offset: nat)
    requires GoodWords(v, nbits) && ix < |v| && offset < BITS_PER_WORD && ix * BITS_PER_WORD + offset < nbits
    ensures var v' := v[ix := Set(v[ix], offset)];
            GoodWords(v', nbits) && Marked(v', nbits) == Marked(v, nbits) + {ix * BITS_PER_WORD + offset}
  {
    SetWord(v[ix], offset);
    var v' := v[ix := Set(v[ix], offset)];
    forall i: nat | i < |v| * BITS_PER_WORD
      ensures BitOf(v', i) <==> i == ix * BITS_PER_WORD + offset || BitOf(v, i)
    {
    }
  }

  lemma ClearInWords(v: seq<nat>, nbits: nat, ix: nat, offset: nat)
    requires GoodWords(v, nbits) && ix < |v| && offset < BITS_PER_WORD && ix * BITS_PER_WORD + offset < nbits
    ensures var v' := v[ix := Clear(v[ix], offset)];
            GoodWords(v', nbits) && Marked(v', nbits) == Marked(v, nbits) - {ix * BITS_PER_WORD + offset}
  {
    ClearWord(v[ix], offset);
    var v' := v[ix := Clear(v[ix], offset)];
    forall i: nat | i < |v| * BITS_PER_WORD
      ensures BitOf(v', i) <==> i != ix * BITS_PER_WORD + offset && BitOf(v, i)
    {
    }
  }

  class Bitmap {
    const nbits: nat
    const v: array<nat>

    ghost predicate Valid()
      reads v
    {
      GoodWords(v[..], nbits)
    }

    /** The indices marked in use. */
    ghost function Contents(): set<nat>
      requires Valid()
      reads v
    {
      Marked(v[..], nbits)
    }

    /** bitmap_create: nothing is in use, and the two assertions on the leftover bits hold. */
    constructor (nbits: nat)
      ensures Valid() && fresh(v) && this.nbits == nbits && Contents() == {}
    {
      this.nbits := nbits;
      var words := DivRoundUp(nbits, BITS_PER_WORD);
      v := new nat[words](_ => 0);
      new;
      var partial := nbits / BITS_PER_WORD < words;
      if partial {
        var ix := words - 1;
        var overbits := nbits - ix * BITS_PER_WORD;
        assert nbits / BITS_PER_WORD == words - 1;
        assert 0 < overbits < BITS_PER_WORD;
        forall k: nat ensures !Bit(v[ix], k) { BitOfZero(k); }
        for j := overbits to BITS_PER_WORD
          invariant forall k :: 0 <= k < ix ==> v[k] == 0
          invariant v[ix] < WORDS
          invariant forall k: nat :: k < BITS_PER_WORD ==> (Bit(v[ix], k) <==> overbits <= k < j)
        {
          SetWord(v[ix], j);
          v[ix] := Set(v[ix], j);
        }
      }
      forall i: nat | i < words * BITS_PER_WORD
        ensures BitOf(v[..], i) <==> nbits <= i
      {
        BitOfZero(i % BITS_PER_WORD);
      }
    }

    /** bitmap_alloc: takes the least free index, and fails exactly when none is free. */
    method Alloc() returns (failed: bool, index: nat)
      requires Valid()
      modifies v
      ensures Valid()
      ensures var least := Machine.LeastFree(old(Contents()), 0, nbits);
              && (failed <==> least == nbits)
              && (if failed then Contents() == old(Contents())
                  else index == least && Contents() == old(Contents()) + {index})
    {
      var maxix := DivRoundUp(nbits, BITS_PER_WORD);
      for ix := 0 to maxix
        invariant v[..] == old(v[..])
        invariant forall i: nat :: i < ix * BITS_PER_WORD ==> BitOf(v[..], i)
      {
        AllSet(v[ix]);
        if v[ix] != WORD_ALLBITS {
          for offset := 0 to BITS_PER_WORD
            invariant v[..] == old(v[..])
            invariant forall k: nat :: k < offset ==> Bit(v[ix], k)
          {
            if !Bit(v[ix], offset) {
              FoundLeast(v[..], nbits, ix, offset);
              SetInWords(v[..], nbits, ix, offset);
              v[ix] := Set(v[ix], offset);
              assert v[..] == old(v[..])[ix := Set(old(v[..])[ix], offset)];
              return false, ix * BITS_PER_WORD + offset;
            }
          }
          assert false;
        }
        WordFull(v[..], nbits, ix);
      }
      return true, 0;
    }

    /** bitmap_mark; its callers must name a free slot. */
    method Mark(index: nat)
      requires Valid() && index < nbits && index !in Contents()
      modifies v
      ensures Valid() && Contents() == old(Contents()) + {index}
    {
      var ix, offset := index / BITS_PER_WORD, index % BITS_PER_WORD;
      SetInWords(v[..], nbits, ix, offset);
      v[ix] := Set(v[ix], offset);
      assert v[..] == old(v[..])[ix := Set(old(v[..])[ix], offset)];
    }

    /** bitmap_unmark; its callers must name a slot in use. */
    method Unmark(index: nat)
      requires Valid() && index < nbits && index in Contents()
      modifies v
      ensures Valid() && Contents() == old(Contents()) - {index}
    {
      var ix, offset := index / BITS_PER_WORD, index % BITS_PER_WORD;
      ClearInWords(v[..], nbits, ix, offset);
      v[ix] := Clear(v[ix], offset);
      assert v[..] == old(v[..])[ix := Clear(old(v[..])[ix], offset)];
    }

    /** bitmap_isset, which looks up any bit of the words: the ones past nbits read as set. */
    method IsSet(index: nat) returns (r: bool)
      requires Valid() && index < v.Length * BITS_PER_WORD
      ensures r <==> index in Contents() || nbits <= index
    {
      r := Bit(v[index / BITS_PER_WORD], index % BITS_PER_WORD);
      assert r == BitOf(v[..], index);
    }
  }

  /** The bit at which the scan stops is a real slot and the least one free. */
  lemma FoundLeast(v: seq<nat>, nbits: nat, ix: nat, offset: nat)
    requires GoodWords(v, nbits) && ix < |v| && offset < BITS_PER_WORD
    requires forall i: nat :: i < ix * BITS_PER_WORD ==> BitOf(v, i)
    requires (forall k: nat :: k < offset ==> Bit(v[ix], k)) && !Bit(v[ix], offset)
    ensures ix * BITS_PER_WORD + offset < nbits
    ensures Machine.LeastFree(Marked(v, nbits), 0, nbits) == ix * BITS_PER_WORD + offset
  {
    var index := ix * BITS_PER_WORD + offset;
    assert !BitOf(v, index) && index !in Marked(v, nbits);
    forall i: nat | i < index
      ensures i in Marked(v, nbits)
    {
      if i >= ix * BITS_PER_WORD { assert i / BITS_PER_WORD == ix; }
    }
    var least := Machine.LeastFree(Marked(v, nbits), 0, nbits);
  }

  lemma WordFull(v: seq<nat>, nbits: nat, ix: nat)
    requires GoodWords(v, nbits) && ix < |v| && forall k: nat :: k < BITS_PER_WORD ==> Bit(v[ix], k)
    requires forall i: nat :: i < ix * BITS_PER_WORD ==> BitOf(v, i)
    ensures forall i: nat :: i < (ix + 1) * BITS_PER_WORD ==> BitOf(v, i)
  {
    forall i: nat | i < (ix + 1) * BITS_PER_WORD
      ensures BitOf(v, i)
    {
      if i >= ix * BITS_PER_WORD { assert i / BITS_PER_WORD == ix; }
    }
  }
}
