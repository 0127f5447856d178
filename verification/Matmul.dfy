/** The product of matmul.c, over any type of entries with any addition and multiplication.  Nothing is assumed
    about the two, so whatever equals it must add each entry's terms in the very same order. */
module Matmul {
  import opened BlockLayout

  /** The arithmetic on entries. */
  datatype Arith<!V> = Arith(zero: V, add: (V, V) -> V, mul: (V, V) -> V)

  /** The first `k` terms of an entry of the product, accumulated in order. */
  function Dot<V>(ar: Arith<V>, A: seq<V>, B: seq<V>, n: nat, i: nat, j: nat, k: nat): V
    requires |A| == |B| == n * n && i < n && j < n && k <= n
  {
    if k == 0 then ar.zero
    else
      Below(i, n, n, k - 1);
      Below(k - 1, n, n, j);
      ar.add(Dot(ar, A, B, n, i, j, k - 1), ar.mul(A[i * n + (k - 1)], B[(k - 1) * n + j]))
  }

  /** The entry of the product at row-major position `x`. */
  function ProductAt<V>(ar: Arith<V>, A: seq<V>, B: seq<V>, n: nat, x: nat): V
    requires |A| == |B| == n * n && x < n * n
  {
    DivBelow(x, n, n);
    Dot(ar, A, B, n, x / n, x % n, n)
  }

  function Product<V>(ar: Arith<V>, A: seq<V>, B: seq<V>, n: nat): (C: seq<V>)
    requires |A| == |B| == n * n
    ensures |C| == n * n
  {
    seq(n * n, x requires 0 <= x < n * n => ProductAt(ar, A, B, n, x))
  }

  /** The innermost loop of Mat_mult, for the entry at position `x`. */
  method Sum<V>(ar: Arith<V>, A: array<V>, B: array<V>, C: array<V>, n: nat, i: nat, j: nat, x: nat)
    requires A.Length == B.Length == C.Length == n * n && C != A && C != B && i < n && j < n && x == i * n + j < n * n
    modifies C
    ensures C[x] == Dot(ar, A[..], B[..], n, i, j, n)
    ensures forall y :: 0 <= y < C.Length && y != x ==> C[y] == old(C[y])
  {
    ghost var a, b := A[..], B[..];
    C[x] := ar.zero;
    for k := 0 to n
      invariant A[..] == a && B[..] == b && C[x] == Dot(ar, a, b, n, i, j, k)
      invariant forall y :: 0 <= y < C.Length && y != x ==> C[y] == old(C[y])
    {
      Below(i, n, n, k);
      Below(k, n, n, j);
      var p, q := i * n + k, k * n + j;
      assert A[p] == a[p] && B[q] == b[q];
      C[x] := ar.add(C[x], ar.mul(A[p], B[q]));
    }
  }

  /** Mat_mult */
  method MatMult<V>(ar: Arith<V>, A: array<V>, B: array<V>, C: array<V>, n: nat)
    requires A.Length == B.Length == C.Length == n * n && C != A && C != B
    modifies C
    ensures C[..] == Product(ar, A[..], B[..], n)
  {
    ghost var a, b := A[..], B[..];
    for i := 0 to n
      invariant A[..] == a && B[..] == b && i * n <= n * n
      invariant forall x :: 0 <= x < i * n ==> C[x] == ProductAt(ar, a, b, n, x)
    {
      for j := 0 to n
        invariant A[..] == a && B[..] == b && i * n + j <= n * n
        invariant forall x :: 0 <= x < i * n + j ==> C[x] == ProductAt(ar, a, b, n, x)
      {
        Below(i, n, n, j);
        Digits(i, n, j);
        Sum(ar, A, B, C, n, i, j, i * n + j);
      }
      assert (i + 1) * n == i * n + n;
      MulMono(i + 1, n, n);
    }
  }
}
