/** The coremap: one record per physical frame.  Pointers to frames are indices into it. */
module Coremaps {
  import opened Machine
  import opened PageTables

  /** A null frame pointer. */
  const NULL: int := -1

  /** struct frame */
  datatype Frame = Frame(prev: int, next: int, inUse: bool, pte: PtePtr)

  /** Which page each frame holds. */
  function FramesOf(cm: seq<Frame>): (r: seq<Option<nat>>)
    ensures |r| == |cm|
    ensures forall f :: 0 <= f < |r| ==> r[f] == if cm[f].inUse then Some(PageAt(cm[f].pte)) else None
  {
    seq(|cm|, f requires 0 <= f < |cm| => if cm[f].inUse then Some(PageAt(cm[f].pte)) else None)
  }

  /** Relinking changes no frame's page. */
  ghost predicate OnlyLinks(cm: seq<Frame>, cm': seq<Frame>) {
    |cm'| == |cm| && forall f :: 0 <= f < |cm| ==> cm'[f].inUse == cm[f].inUse && cm'[f].pte == cm[f].pte
  }

  ghost predicate OnlyPages(cm: seq<Frame>, cm': seq<Frame>) {
    |cm'| == |cm| && forall f :: 0 <= f < |cm| ==> cm'[f].prev == cm[f].prev && cm'[f].next == cm[f].next
  }
}
