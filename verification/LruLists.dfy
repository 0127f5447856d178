/** The doubly linked recency list that lru.c threads through the coremap. */
module LruLists {
  import opened Machine
  import opened Runs
  import opened PageTables
  import opened Coremaps
  import Words

  /** `s` is a doubly linked list, in order from bottom to top. */
  ghost predicate Linked(cm: seq<Frame>, s: seq<nat>) {
    && (forall i :: 0 <= i < |s| ==> s[i] < |cm|)
    && (forall i {:trigger cm[s[i]]} :: 0 <= i < |s| ==> cm[s[i]].next == if i + 1 < |s| then s[i + 1] else NULL)
    && (forall i {:trigger cm[s[i]]} :: 0 <= i < |s| ==> cm[s[i]].prev == if i > 0 then s[i - 1] else NULL)
  }

  /** What bottom, top, size and the links in the coremap say: the list is `stack`.  Right after an eviction
      the list is one shorter than `size`.  A memory of one frame keeps no list: bottom and top stay at the frame,
      whose prev is NULL at first and then the frame itself. */
  ghost predicate Threaded(cm: seq<Frame>, bottom: int, top: int, size: nat, stack: seq<nat>) {
    if size == 0 then stack == []
    else if |cm| == 1 then
      && size == 1 && bottom == top == 0 && (stack == [] || stack == [0])
      && cm[0].next == NULL && (cm[0].prev == NULL || cm[0].prev == 0)
    else
      && stack != [] && Distinct(stack) && Linked(cm, stack)
      && bottom == stack[0] && top == stack[|stack| - 1]
      && (size == |stack| || (size == |cm| && |stack| == |cm| - 1))
  }

  lemma WithoutAt(s: seq<nat>, i: nat)
    requires Distinct(s) && i < |s|
    ensures Without(s, s[i]) == s[..i] + s[i + 1..]
    decreases i
  {
    TailOf(s);
    if i == 0 {
      WithoutAbsent(s[1..], s[0]);
    } else {
      WithoutAt(s[1..], i - 1);
      assert s[..i] + s[i + 1..] == [s[0]] + (s[1..][..i - 1] + s[1..][i..]);
    }
  }

  class Lru {
    const memsize: nat
    const coremap: array<Frame>
    const pt: PageTable
    var bottom: int
    var top: int
    var size: nat
    /** The frames of the list, bottom first. */
    ghost var stack: seq<nat>

    ghost predicate Valid()
      reads this, coremap
    {
      memsize == coremap.Length >= 1 && Threaded(coremap[..], bottom, top, size, stack)
    }

    constructor (coremap: array<Frame>, pt: PageTable)
      requires coremap.Length >= 1
      ensures Valid() && fresh(this) && this.coremap == coremap && this.pt == pt && stack == [] && size == 0
    {
      memsize := coremap.Length;
      this.coremap := coremap;
      this.pt := pt;
      bottom, top, size, stack := NULL, NULL, 0, [];
    }

    method SetNext(f: int, next: int)
      requires 0 <= f < coremap.Length
      modifies coremap
      ensures coremap[..] == old(coremap[..])[f := old(coremap[f]).(next := next)]
    {
      coremap[f] := coremap[f].(next := next);
    }

    method SetPrev(f: int, prev: int)
      requires 0 <= f < coremap.Length
      modifies coremap
      ensures coremap[..] == old(coremap[..])[f := old(coremap[f]).(prev := prev)]
    {
      coremap[f] := coremap[f].(prev := prev);
    }

    /** Take the bottom frame off the list `s`. */
    method UnlinkBottom(ghost s: seq<nat>) returns (f: nat)
      requires |s| >= 2 && Distinct(s) && Linked(coremap[..], s) && bottom == s[0]
      modifies this`bottom, coremap
      ensures f == s[0] && Linked(coremap[..], s[1..]) && bottom == s[1]
      ensures OnlyLinks(old(coremap[..]), coremap[..])
    {
      ghost var cm := coremap[..];
      f := bottom;
      assert cm[s[0]].next == s[1] && s[0] != s[1];
      SetPrev(coremap[f].next, NULL);
      var temp := coremap[f].next;
      SetNext(f, NULL);
      assert coremap[..] == cm[s[1] := cm[s[1]].(prev := NULL)][s[0] := cm[s[0]].(next := NULL)];
      BottomOff(cm, coremap[..], s);
      bottom := temp;
    }

    /** Take a frame between bottom and top off the list `s`. */
    method UnlinkMiddle(f: nat, ghost s: seq<nat>, ghost i: nat, ghost rest: seq<nat>)
      requires Distinct(s) && Linked(coremap[..], s) && 0 < i < |s| - 1 && s[i] == f && rest == s[..i] + s[i + 1..]
      modifies coremap
      ensures Linked(coremap[..], rest)
      ensures OnlyLinks(old(coremap[..]), coremap[..])
    {
      ghost var cm := coremap[..];
      assert cm[s[i]].prev == s[i - 1] && cm[s[i]].next == s[i + 1];
      SetNext(coremap[f].prev, coremap[f].next);
      SetPrev(coremap[f].next, coremap[f].prev);
      MiddleOut(cm, coremap[..], s, i);
    }

    /** Put a frame above the top of the list `s`. */
    method LinkAboveTop(f: nat, ghost s: seq<nat>)
      requires f < coremap.Length && 0 <= top < coremap.Length
      modifies this`top, coremap
      ensures top == f && coremap[f].prev == old(top) && coremap[f].next == NULL
      ensures OnlyLinks(old(coremap[..]), coremap[..])
      ensures s != [] && Distinct(s) && old(Linked(coremap[..], s)) && old(top) == s[|s| - 1] && f !in s ==>
                Linked(coremap[..], s + [f])
    {
      ghost var cm := coremap[..];
      SetNext(top, f);
      SetPrev(f, top);
      SetNext(f, NULL);
      if s != [] && Distinct(s) && Linked(cm, s) && top == s[|s| - 1] && f !in s {
        OnTop(cm, coremap[..], s, f);
      }
      top := f;
    }

    /** The relinking in lru_evict: the bottom of the list is taken off it. */
    method TakeBottom() returns (f: nat)
      requires Valid() && |stack| == memsize == size && 1 < memsize
      modifies this, coremap
      ensures Valid() && f == old(bottom) == old(stack)[0] && stack == old(stack)[1..]
      ensures OnlyLinks(old(coremap[..]), coremap[..])
    {
      f := UnlinkBottom(stack);
      TailOf(stack);
      stack := stack[1..];
    }

    /** lru_evict, in a full memory whose page table entries know their frames. */
    method Evict() returns (frame: nat)
      requires Valid() && |stack| == memsize == size
      requires pt.Valid() && coremap as object !in pt.Repr && this !in pt.Repr
      requires memsize > 1 ==>
                 && pt.Mapped(coremap[bottom].pte) && PageAt(coremap[bottom].pte) < PAGES
                 && pt.entries[PageAt(coremap[bottom].pte)].frame == bottom
      modifies this, coremap
      ensures Valid() && frame == old(stack)[0] && stack == old(stack)[1..]
      ensures OnlyLinks(old(coremap[..]), coremap[..])
    {
      if size == 1 {
        stack := stack[1..];
        return 0;
      }
      var f := TakeBottom();
      var e := pt.Get(coremap[f].pte);
      frame := FrameNumber(e);
    }

    /** The branch of lru_ref for a page just loaded into a frame off the list. */
    method PushLoaded(f: nat)
      requires Valid() && size > 0 && f < memsize && f !in stack && |stack| < memsize
      modifies this, coremap
      ensures Valid() && stack == old(stack) + [f]
      ensures memsize == 1 ==> coremap[0].prev == 0 && coremap[0].next == NULL
      ensures OnlyLinks(old(coremap[..]), coremap[..])
    {
      if size < memsize {
        size := size + 1;
      }
      LinkAboveTop(f, stack);
      stack := stack + [f];
    }

    /** The branch of lru_ref for a hit on the bottom of the list. */
    method RaiseBottom()
      requires Valid() && size > 0 && memsize > 1 && bottom != top
      modifies this, coremap
      ensures Valid() && stack == old(stack)[1..] + [old(stack)[0]]
      ensures OnlyLinks(old(coremap[..]), coremap[..])
    {
      TailOf(stack);
      ghost var rest := stack[1..];
      var f := UnlinkBottom(stack);
      LinkAboveTop(f, rest);
      stack := rest + [f];
    }

    /** The branch of lru_ref for a hit between bottom and top. */
    method RaiseMiddle(f: nat, ghost i: nat)
      requires Valid() && size > 0 && memsize > 1 && 0 < i < |stack| - 1 && stack[i] == f
      modifies this, coremap
      ensures Valid() && stack == old(stack)[..i] + old(stack)[i + 1..] + [f]
      ensures OnlyLinks(old(coremap[..]), coremap[..])
    {
      ghost var rest := stack[..i] + stack[i + 1..];
      assert bottom == rest[0] && top == rest[|rest| - 1];
      assert size == |rest| + 1 || (size == memsize && |rest| + 1 == memsize - 1);
      UnlinkMiddle(f, stack, i, rest);
      LinkAboveTop(f, rest);
      stack := rest + [f];
    }

    /** lru_ref's hit branches. */
    method Raise(f: nat)
      requires Valid() && size > 0 && f in stack
      modifies this, coremap
      ensures Valid() && stack == Without(old(stack), f) + [f]
      ensures OnlyLinks(old(coremap[..]), coremap[..])
    {
      ghost var i :| 0 <= i < |stack| && stack[i] == f;
      if memsize > 1 { WithoutAt(stack, i); }
      if top == f {
        assert memsize > 1 ==> i == |stack| - 1 && stack == stack[..i] + stack[i + 1..] + [f];
      } else if bottom == f {
        RaiseBottom();
      } else {
        RaiseMiddle(f, i);
      }
    }

    /** The branch of lru_ref for the very first page. */
    method StartList(f: nat)
      requires Valid() && size == 0 && f < memsize
      modifies this, coremap
      ensures Valid() && stack == [f] && coremap[bottom].prev == coremap[bottom].next == NULL && size == 1
      ensures OnlyLinks(old(coremap[..]), coremap[..])
    {
      bottom, top := f, f;
      SetPrev(f, NULL);
      SetNext(f, NULL);
      size := 1;
      stack := [f];
    }

    /** lru_ref on the entry of the page being accessed, before it is marked valid. */
    method Ref(p: PtePtr)
      requires Valid() && pt.Valid() && pt.Mapped(p) && PageAt(p) < PAGES
      requires var e := pt.entries[PageAt(p)];
               && e.frame < memsize
               && (if e.valid then e.frame in stack else e.frame !in stack && |stack| < memsize)
      modifies this, coremap
      ensures Valid()
      ensures var e := pt.entries[PageAt(p)];
              stack == (if e.valid then Without(old(stack), e.frame) else old(stack)) + [e.frame]
      ensures old(size) == 0 ==> coremap[bottom].prev == coremap[bottom].next == NULL
      ensures memsize == 1 && old(size) == 1 && !pt.entries[PageAt(p)].valid ==> coremap[0].prev == 0
      ensures OnlyLinks(old(coremap[..]), coremap[..])
    {
      var e := pt.Get(p);
      var f := FrameNumber(e);
      if size == 0 {
        StartList(f);
      } else if !Words.Bit(e.frame, PG_VALID) {
        PushLoaded(f);
      } else {
        Raise(f);
      }
    }
  }

  /** Unlinking the bottom leaves a list of the rest. */
  lemma BottomOff(cm: seq<Frame>, cm': seq<Frame>, s: seq<nat>)
    requires |s| >= 2 && Distinct(s) && Linked(cm, s) && |cm'| == |cm|
    requires cm' == cm[s[1] := cm[s[1]].(prev := NULL)][s[0] := cm[s[0]].(next := NULL)]
    ensures Linked(cm', s[1..])
  {
  }

  /** `f` linked in above the top. */
  lemma OnTop(cm: seq<Frame>, cm': seq<Frame>, s: seq<nat>, f: nat)
    requires s != [] && Distinct(s) && Linked(cm, s) && f !in s && f < |cm| == |cm'|
    requires var t := s[|s| - 1];
             && cm'[t].prev == cm[t].prev && cm'[t].next == f
             && cm'[f].prev == t && cm'[f].next == NULL
             && forall g :: 0 <= g < |cm| && g != t && g != f ==> cm'[g].prev == cm[g].prev && cm'[g].next == cm[g].next
    ensures Linked(cm', s + [f]) && Distinct(s + [f])
  {
    assert forall i :: 0 <= i < |s| ==> s[i] in s;
  }

  /** The two neighbours of a frame in the middle linked to each other. */
  lemma MiddleOut(cm: seq<Frame>, cm': seq<Frame>, s: seq<nat>, i: nat)
    requires Distinct(s) && Linked(cm, s) && 0 < i < |s| - 1 && |cm'| == |cm|
    requires cm' == cm[s[i - 1] := cm[s[i - 1]].(next := s[i + 1])][s[i + 1] := cm[s[i + 1]].(prev := s[i - 1])]
    ensures Linked(cm', s[..i] + s[i + 1..])
  {
    var rest := s[..i] + s[i + 1..];
    forall j | 0 <= j < |rest|
      ensures rest[j] < |cm|
      ensures cm'[rest[j]].next == if j + 1 < |rest| then rest[j + 1] else NULL
      ensures cm'[rest[j]].prev == if j > 0 then rest[j - 1] else NULL
    {
      var k := if j < i then j else j + 1;
      assert rest[j] == s[k];
    }
  }

}
