/** The blocked product itself, and its equality with the simple one. */
module BlockedProduct {
  import opened BlockLayout
  import opened Matmul
  import BlockedMatmul

  /** The first `k` terms of entry `e` of the product of two matrices in blocked storage, accumulated in order. */
  function BlockDot<V>(ar: Arith<V>, A: seq<V>, B: seq<V>, nb: nat, b: nat, e: Entry, k: nat): V
    requires nb > 0 && b > 0 && |A| == |B| == nb * b * (nb * b) && InRange(e, nb, b) && k <= nb * b
  {
    if k == 0 then ar.zero
    else
      var (ea, eb) := Factors(e, k - 1, nb, b);
      BlockedInverse(ea, nb, b);
      BlockedInverse(eb, nb, b);
      ar.add(BlockDot(ar, A, B, nb, b, e, k - 1), ar.mul(A[Blocked(ea, nb, b)], B[Blocked(eb, nb, b)]))
  }

  /** The entries multiplied in term `k`. */
  function Factors(e: Entry, k: nat, nb: nat, b: nat): (r: (Entry, Entry))
    requires nb > 0 && b > 0 && InRange(e, nb, b) && k < nb * b
    ensures InRange(r.0, nb, b) && InRange(r.1, nb, b)
  {
    DivBelow(k, nb, b);
    (Entry(e.ib, k / b, e.i, k % b), Entry(k / b, e.jb, k % b, e.j))
  }

  /** The entry at position `x` of blocked storage. */
  function At<V>(ar: Arith<V>, A: seq<V>, B: seq<V>, nb: nat, b: nat, x: nat, k: nat): V
    requires nb > 0 && b > 0 && |A| == |B| == nb * b * (nb * b) && x < nb * b * (nb * b) && k <= nb * b
  {
    FromBlockedInverse(x, nb, b);
    BlockDot(ar, A, B, nb, b, FromBlocked(x, nb, b), k)
  }

  /** Positions from `lo` below `hi` of blocked storage hold the first `k` terms of their entries. */
  ghost predicate Holds<V>(ar: Arith<V>, A: seq<V>, B: seq<V>, C: seq<V>, nb: nat, b: nat, lo: nat, hi: nat, k: nat)
    requires nb > 0 && b > 0
  {
    && |A| == |B| == |C| == nb * b * (nb * b) && hi <= |C| && k <= nb * b
    && forall x :: lo <= x < hi ==> C[x] == At(ar, A, B, nb, b, x, k)
  }

  /** Start of block (ib, jb). */
  function Base(ib: nat, jb: nat, nb: nat, b: nat): nat { (ib * nb + jb) * (b * b) }

  lemma BaseBelow(ib: nat, jb: nat, nb: nat, b: nat)
    requires ib < nb && jb < nb
    ensures Base(ib, jb, nb, b) + b * b == Base(ib, jb + 1, nb, b) <= nb * b * (nb * b)
  {
    Below(ib, nb, nb, jb);
    MulMono(ib * nb + jb + 1, nb * nb, b * b);
    assert (ib * nb + jb + 1) * (b * b) == (ib * nb + jb) * (b * b) + b * b;
    Regroup(nb, b);
    assert nb * nb * (b * b) == nb * nb * b * b;
  }

  class Product<V> {
    const ar: Arith<V>
    const nBar: nat
    const b: nat
    const A: array<V>
    const B: array<V>
    const C: array<V>
    /** C_p, as an offset into C. */
    var cP: nat

    ghost predicate Valid() {
      && nBar > 0 && b > 0 && A.Length == B.Length == C.Length == nBar * b * (nBar * b) && A != C && B != C
    }

    constructor (ar: Arith<V>, nBar: nat, b: nat, A: array<V>, B: array<V>, C: array<V>)
      requires nBar > 0 && b > 0 && A.Length == B.Length == C.Length == nBar * b * (nBar * b) && A != C && B != C
      ensures Valid() && this.ar == ar && this.nBar == nBar && this.b == b && this.A == A && this.B == B && this.C == C
    {
      this.ar, this.nBar, this.b, this.A, this.B, this.C := ar, nBar, b, A, B, C;
      cP := 0;
    }

    /** The entries from `lo` below `hi` of C hold their first `k` terms. */
    ghost predicate Done(lo: nat, hi: nat, k: nat)
      requires Valid()
      reads A, B, C
    {
      Holds(ar, A[..], B[..], C[..], nBar, b, lo, hi, k)
    }

    /** memset of `count` entries from position `start`. */
    method Clear(start: nat, count: nat)
      requires start + count <= C.Length
      modifies C
      ensures forall x :: start <= x < start + count ==> C[x] == ar.zero
      ensures forall x :: 0 <= x < C.Length && !(start <= x < start + count) ==> C[x] == old(C[x])
    {
      for y := 0 to count
        invariant forall x :: start <= x < start + y ==> C[x] == ar.zero
        invariant forall x :: 0 <= x < C.Length && !(start <= x < start + y) ==> C[x] == old(C[x])
      {
        C[start + y] := ar.zero;
      }
    }

    /** Zero_C */
    method ZeroC(ib: nat, jb: nat)
      requires Valid() && ib < nBar && jb < nBar
      modifies this, C
      ensures cP == Base(ib, jb, nBar, b) && Done(cP, cP + b * b, 0)
      ensures forall x :: 0 <= x < C.Length && !(cP <= x < cP + b * b) ==> C[x] == old(C[x])
    {
      BaseBelow(ib, jb, nBar, b);
      cP := (ib * nBar + jb) * (b * b);
      Clear(cP, b * b);
    }

    /** The innermost loop of Mult_add, for the entry `e` at position `x`: `b` more terms, from term `k0` = kb * b
        on. */
    method AddTerms(ghost e: Entry, kb: nat, i: nat, j: nat, ap: nat, bp: nat, x: nat, ghost k0: nat)
      requires Valid() && InRange(e, nBar, b) && e.i == i && e.j == j && kb < nBar && x < C.Length
      requires ap == Base(e.ib, kb, nBar, b) && bp == Base(kb, e.jb, nBar, b) && k0 == kb * b && k0 + b <= nBar * b
      requires C[x] == BlockDot(ar, A[..], B[..], nBar, b, e, k0)
      modifies C
      ensures C[x] == BlockDot(ar, A[..], B[..], nBar, b, e, k0 + b)
      ensures forall y :: 0 <= y < C.Length && y != x ==> C[y] == old(C[y])
    {
      ghost var sa, sb := A[..], B[..];
      for k := 0 to b
        invariant A[..] == sa && B[..] == sb
        invariant C[x] == BlockDot(ar, sa, sb, nBar, b, e, k0 + k)
        invariant forall y :: 0 <= y < C.Length && y != x ==> C[y] == old(C[y])
      {
        NextTerm(ar, sa, sb, nBar, b, e, kb, k, k0 + k);
        C[x] := ar.add(C[x], ar.mul(A[ap + i * b + k], B[bp + k * b + j]));
      }
    }

    /** The middle loop of Mult_add: row `i` of the block. */
    method AddRow(ib: nat, jb: nat, kb: nat, i: nat, ap: nat, bp: nat, row: nat, ghost k0: nat)
      requires Valid() && ib < nBar && jb < nBar && kb < nBar && i < b
      requires ap == Base(ib, kb, nBar, b) && bp == Base(kb, jb, nBar, b) && row == Base(ib, jb, nBar, b) + i * b
      requires k0 == kb * b && k0 + b <= nBar * b && Done(row, row + b, k0)
      modifies C
      ensures Done(row, row + b, k0 + b)
      ensures forall x :: 0 <= x < C.Length && !(row <= x < row + b) ==> C[x] == old(C[x])
    {
      ghost var sa, sb := A[..], B[..];
      for j := 0 to b
        invariant A[..] == sa && B[..] == sb
        invariant forall x :: row <= x < row + j ==> C[x] == At(ar, sa, sb, nBar, b, x, k0 + b)
        invariant forall x :: 0 <= x < C.Length && !(row <= x < row + j) ==> C[x] == old(C[x])
      {
        ghost var e := Entry(ib, jb, i, j);
        BlockedInverse(e, nBar, b);
        assert old(C[..])[row + j] == At(ar, sa, sb, nBar, b, row + j, k0);
        AddTerms(e, kb, i, j, ap, bp, row + j, k0);
      }
    }

    /** Mult_add: `b` more terms for every entry of the block. */
    method MultAdd(ib: nat, jb: nat, kb: nat, ghost k0: nat)
      requires Valid() && ib < nBar && jb < nBar && kb < nBar && cP == Base(ib, jb, nBar, b)
      requires k0 == kb * b && k0 + b <= nBar * b && Done(cP, cP + b * b, k0)
      modifies C
      ensures Done(cP, cP + b * b, k0 + b)
      ensures forall x :: 0 <= x < C.Length && !(cP <= x < cP + b * b) ==> C[x] == old(C[x])
    {
      ghost var sa, sb, sc := A[..], B[..], C[..];
      var ap: nat, bp: nat, row: nat := Base(ib, kb, nBar, b), Base(kb, jb, nBar, b), cP;
      var end := cP + b * b;
      for i := 0 to b
        invariant A[..] == sa && B[..] == sb && row == cP + i * b <= end
        invariant forall x :: cP <= x < row ==> C[x] == At(ar, sa, sb, nBar, b, x, k0 + b)
        invariant forall x :: 0 <= x < C.Length && !(cP <= x < row) ==> C[x] == sc[x]
      {
        RowsFit(i, b);
        RestHolds(ar, sa, sb, sc, C[..], nBar, b, cP, row, end, k0);
        AddRow(ib, jb, kb, i, ap, bp, row, k0);
        row := row + b;
      }
    }

    /** One block of the product: Zero_C and the loop over k_bar. */
    method OneBlock(ib: nat, jb: nat)
      requires Valid() && ib < nBar && jb < nBar
      modifies this, C
      ensures var lo := Base(ib, jb, nBar, b); Done(lo, lo + b * b, nBar * b)
      ensures var lo := Base(ib, jb, nBar, b);
              forall x :: 0 <= x < C.Length && !(lo <= x < lo + b * b) ==> C[x] == old(C[x])
    {
      ZeroC(ib, jb);
      ghost var k0 := 0;
      for kb := 0 to nBar
        invariant cP == Base(ib, jb, nBar, b) && k0 == kb * b && Done(cP, cP + b * b, k0)
        invariant forall x :: 0 <= x < C.Length && !(cP <= x < cP + b * b) ==> C[x] == old(C[x])
      {
        TermsFit(kb, nBar, b);
        MultAdd(ib, jb, kb, k0);
        k0 := k0 + b;
      }
    }

    /** One row of blocks. */
    method OneBlockRow(ib: nat)
      requires Valid() && ib < nBar && Done(0, Base(ib, 0, nBar, b), nBar * b)
      modifies this, C
      ensures Done(0, Base(ib + 1, 0, nBar, b), nBar * b)
    {
      for jb := 0 to nBar
        invariant Done(0, Base(ib, jb, nBar, b), nBar * b)
      {
        BaseBelow(ib, jb, nBar, b);
        OneBlock(ib, jb);
      }
    }

    /** Blocked_mat_mult: every entry of C ends with all its terms, added in order. */
    method BlockedMatMult()
      requires Valid()
      modifies this, C
      ensures Done(0, C.Length, nBar * b)
    {
      BaseEnds(nBar, b);
      for ib := 0 to nBar
        invariant Done(0, Base(ib, 0, nBar, b), nBar * b)
      {
        OneBlockRow(ib);
      }
    }
  }

  lemma TermsFit(kb: nat, nb: nat, b: nat)
    requires kb < nb
    ensures (kb + 1) * b == kb * b + b <= nb * b
  {
    MulMono(kb + 1, nb, b);
  }

  lemma BaseEnds(nb: nat, b: nat)
    ensures Base(0, 0, nb, b) == 0 && Base(nb, 0, nb, b) == nb * b * (nb * b)
  {
    Regroup(nb, b);
    assert nb * nb * (b * b) == nb * nb * b * b;
  }

  lemma RowsFit(i: nat, b: nat)
    requires i < b
    ensures (i + 1) * b == i * b + b <= b * b
  {
    MulMono(i + 1, b, b);
  }

  /** Positions not written yet still hold what they held. */
  lemma RestHolds<V>(ar: Arith<V>, A: seq<V>, B: seq<V>, C0: seq<V>, C: seq<V>,
                    nb: nat, b: nat, lo: nat, mid: nat, hi: nat, k: nat)
    requires nb > 0 && b > 0 && Holds(ar, A, B, C0, nb, b, lo, hi, k) && |C| == |C0| && lo <= mid
    requires forall x :: 0 <= x < |C| && !(lo <= x < mid) ==> C[x] == C0[x]
    ensures Holds(ar, A, B, C, nb, b, mid, hi, k)
  {
  }

  lemma NextTerm<V>(ar: Arith<V>, A: seq<V>, B: seq<V>, nb: nat, b: nat, e: Entry, kb: nat, k: nat, kk: nat)
    requires nb > 0 && b > 0 && |A| == |B| == nb * b * (nb * b) && InRange(e, nb, b) && kb < nb && k < b
    requires kk == kb * b + k && kk < nb * b
    ensures Blocked(Entry(e.ib, kb, e.i, k), nb, b) < |A| && Blocked(Entry(kb, e.jb, k, e.j), nb, b) < |B|
    ensures BlockDot(ar, A, B, nb, b, e, kk + 1) ==
            ar.add(BlockDot(ar, A, B, nb, b, e, kk),
                   ar.mul(A[Blocked(Entry(e.ib, kb, e.i, k), nb, b)], B[Blocked(Entry(kb, e.jb, k, e.j), nb, b)]))
  {
    Term(e, kb, k, nb, b);
  }

  /** The addresses Mult_add reads are those of the factors of the term. */
  lemma Term(e: Entry, kb: nat, k: nat, nb: nat, b: nat)
    requires InRange(e, nb, b) && kb < nb && k < b
    ensures kb * b + k < nb * b
    ensures Factors(e, kb * b + k, nb, b) == (Entry(e.ib, kb, e.i, k), Entry(kb, e.jb, k, e.j))
    ensures (e.ib * nb + kb) * (b * b) + e.i * b + k < nb * b * (nb * b)
    ensures (kb * nb + e.jb) * (b * b) + k * b + e.j < nb * b * (nb * b)
  {
    Below(kb, nb, b, k);
    Digits(kb, b, k);
    BlockedInverse(Entry(e.ib, kb, e.i, k), nb, b);
    BlockedInverse(Entry(kb, e.jb, k, e.j), nb, b);
  }

  // ---------------------------------------------------------------- against the simple product

  lemma InBlocksAt<V>(s: seq<V>, e: Entry, nb: nat, b: nat)
    requires nb > 0 && b > 0 && |s| == nb * b * (nb * b) && InRange(e, nb, b)
    ensures Blocked(e, nb, b) < |s| && RowMajor(e, nb, b) < |s|
    ensures BlockedMatmul.InBlocks(s, nb, b)[Blocked(e, nb, b)] == s[RowMajor(e, nb, b)]
  {
    BlockedInverse(e, nb, b);
    RowMajorInverse(e, nb, b);
  }

  /** Entry by entry and term by term, the two products do the same sums. */
  lemma {:induction false} SameSums<V>(ar: Arith<V>, A: seq<V>, B: seq<V>, nb: nat, b: nat, e: Entry, k: nat)
    requires nb > 0 && b > 0 && |A| == |B| == nb * b * (nb * b) && InRange(e, nb, b) && k <= nb * b
    ensures e.ib * b + e.i < nb * b && e.jb * b + e.j < nb * b
    ensures BlockDot(ar, BlockedMatmul.InBlocks(A, nb, b), BlockedMatmul.InBlocks(B, nb, b), nb, b, e, k) ==
            Dot(ar, A, B, nb * b, e.ib * b + e.i, e.jb * b + e.j, k)
  {
    Below(e.ib, nb, b, e.i);
    Below(e.jb, nb, b, e.j);
    if k > 0 {
      SameSums(ar, A, B, nb, b, e, k - 1);
      var (ea, eb) := Factors(e, k - 1, nb, b);
      InBlocksAt(A, ea, nb, b);
      InBlocksAt(B, eb, nb, b);
      FactorPositions(e, k - 1, nb, b);
    }
  }

  lemma FactorPositions(e: Entry, k: nat, nb: nat, b: nat)
    requires nb > 0 && b > 0 && InRange(e, nb, b) && k < nb * b
    ensures var (ea, eb) := Factors(e, k, nb, b);
            && RowMajor(ea, nb, b) == (e.ib * b + e.i) * (nb * b) + k
            && RowMajor(eb, nb, b) == k * (nb * b) + (e.jb * b + e.j)
  {
    DivBelow(k, nb, b);
  }

  /** The blocked product converted back is the simple product of the row-major matrices. */
  lemma BlockedIsSimple<V>(ar: Arith<V>, A: seq<V>, B: seq<V>, C: seq<V>, nb: nat, b: nat)
    requires nb > 0 && b > 0 && |A| == |B| == nb * b * (nb * b)
    requires Holds(ar, BlockedMatmul.InBlocks(A, nb, b), BlockedMatmul.InBlocks(B, nb, b), C, nb, b, 0, |C|, nb * b)
    ensures BlockedMatmul.InRows(C, nb, b) == Matmul.Product(ar, A, B, nb * b)
  {
    var rows, simple := BlockedMatmul.InRows(C, nb, b), Matmul.Product(ar, A, B, nb * b);
    forall y | 0 <= y < |C|
      ensures rows[y] == simple[y]
    {
      var e := FromRowMajor(y, nb, b);
      FromRowMajorInverse(y, nb, b);
      BlockedInverse(e, nb, b);
      SameSums(ar, A, B, nb, b, e, nb * b);
      Digits(e.ib * b + e.i, nb * b, e.jb * b + e.j);
    }
  }

  /** The sequence main runs: both factors into blocks, the blocked product, the result back into rows. */
  method MultiplyInBlocks<V(0)>(ar: Arith<V>, A: array<V>, B: array<V>, C: array<V>, n: nat, b: nat)
    requires n > 0 && b > 0 && n % b == 0 && A.Length == B.Length == C.Length == n * n
    requires A != B && A != C && B != C
    modifies A, B, C
    ensures C[..] == Matmul.Product(ar, old(A[..]), old(B[..]), n)
  {
    BlockedMatmul.ToBlocked(A, n, b);
    BlockedMatmul.ToBlocked(B, n, b);
    var product := new Product(ar, n / b, b, A, B, C);
    product.BlockedMatMult();
    BlockedIsSimple(ar, old(A[..]), old(B[..]), C[..], n / b, b);
    BlockedMatmul.FromBlocked(C, n, b);
  }
}
