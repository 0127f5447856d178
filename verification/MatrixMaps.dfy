/** What the product of matmul.c is for: in exact arithmetic it is the composition of the linear maps that the two
    matrices stand for. */
module MatrixMaps {
  import opened BlockLayout
  import opened Matmul

  /** The laws of a semiring, for three entries. */
  ghost predicate Laws<V>(ar: Arith<V>, x: V, y: V, z: V) {
    && ar.add(x, y) == ar.add(y, x) && ar.add(ar.add(x, y), z) == ar.add(x, ar.add(y, z)) && ar.add(ar.zero, x) == x
    && ar.mul(ar.mul(x, y), z) == ar.mul(x, ar.mul(y, z)) && ar.mul(ar.zero, x) == ar.zero == ar.mul(x, ar.zero)
    && ar.mul(x, ar.add(y, z)) == ar.add(ar.mul(x, y), ar.mul(x, z))
    && ar.mul(ar.add(x, y), z) == ar.add(ar.mul(x, z), ar.mul(y, z))
  }

  ghost predicate Exact<V(!new)>(ar: Arith<V>) { forall x, y, z :: Laws(ar, x, y, z) }

  /** The first `k` terms of entry `i` of the image of a vector. */
  function RowSum<V>(ar: Arith<V>, A: seq<V>, v: seq<V>, n: nat, i: nat, k: nat): V
    requires |A| == n * n && |v| == n && i < n && k <= n
  {
    if k == 0 then ar.zero
    else
      Below(i, n, n, k - 1);
      ar.add(RowSum(ar, A, v, n, i, k - 1), ar.mul(A[i * n + (k - 1)], v[k - 1]))
  }

  /** The image of a vector under the map a matrix stands for. */
  function Image<V>(ar: Arith<V>, A: seq<V>, v: seq<V>, n: nat): (w: seq<V>)
    requires |A| == n * n && |v| == n
    ensures |w| == n && forall i :: 0 <= i < n ==> w[i] == RowSum(ar, A, v, n, i, n)
  {
    seq(n, i requires 0 <= i < n => RowSum(ar, A, v, n, i, n))
  }

  /** The first `k` terms of the image under `A` of a vector whose entries are those of the image of `v` under `B` cut
      after `m` terms. */
  function Nested<V>(ar: Arith<V>, A: seq<V>, B: seq<V>, v: seq<V>, n: nat, i: nat, k: nat, m: nat): V
    requires |A| == |B| == n * n && |v| == n && i < n && k <= n && m <= n
  {
    if k == 0 then ar.zero
    else
      Below(i, n, n, k - 1);
      ar.add(Nested(ar, A, B, v, n, i, k - 1, m), ar.mul(A[i * n + (k - 1)], RowSum(ar, B, v, n, k - 1, m)))
  }

  /** The law used in one step: p, s and d are sums so far. */
  lemma Regroup<V(!new)>(ar: Arith<V>, p: V, d: V, s: V, a: V, b: V, x: V)
    requires Exact(ar)
    ensures ar.add(ar.add(p, ar.mul(d, x)), ar.mul(a, ar.add(s, ar.mul(b, x)))) ==
            ar.add(ar.add(p, ar.mul(a, s)), ar.mul(ar.add(d, ar.mul(a, b)), x))
  {
    var dx, ps, abx := ar.mul(d, x), ar.mul(a, s), ar.mul(ar.mul(a, b), x);
    assert Laws(ar, a, s, ar.mul(b, x)) && Laws(ar, a, b, x) && Laws(ar, d, ar.mul(a, b), x);
    assert Laws(ar, p, dx, ar.add(ps, abx)) && Laws(ar, dx, ps, abx) && Laws(ar, ps, dx, abx);
    assert Laws(ar, p, ps, ar.add(dx, abx));
  }

  /** One more entry of `v` adds one entry of the product times it. */
  lemma {:induction false} NestedGrows<V(!new)>(ar: Arith<V>, A: seq<V>, B: seq<V>, v: seq<V>, n: nat,
                                                i: nat, k: nat, m: nat)
    requires Exact(ar) && |A| == |B| == n * n && |v| == n && i < n && k <= n && m < n
    ensures Nested(ar, A, B, v, n, i, k, m + 1) ==
            ar.add(Nested(ar, A, B, v, n, i, k, m), ar.mul(Dot(ar, A, B, n, i, m, k), v[m]))
  {
    if k == 0 {
      assert Laws(ar, v[m], v[m], v[m]) && Laws(ar, ar.zero, ar.zero, ar.zero);
    } else {
      NestedGrows(ar, A, B, v, n, i, k - 1, m);
      Below(i, n, n, k - 1);
      Below(k - 1, n, n, m);
      var a, b, s := A[i * n + (k - 1)], B[(k - 1) * n + m], RowSum(ar, B, v, n, k - 1, m);
      assert RowSum(ar, B, v, n, k - 1, m + 1) == ar.add(s, ar.mul(b, v[m]));
      Regroup(ar, Nested(ar, A, B, v, n, i, k - 1, m), Dot(ar, A, B, n, i, m, k - 1), s, a, b, v[m]);
    }
  }

  lemma {:induction false} NestedOfNothing<V(!new)>(ar: Arith<V>, A: seq<V>, B: seq<V>, v: seq<V>, n: nat,
                                                    i: nat, k: nat)
    requires Exact(ar) && |A| == |B| == n * n && |v| == n && i < n && k <= n
    ensures Nested(ar, A, B, v, n, i, k, 0) == ar.zero
  {
    if k > 0 {
      NestedOfNothing(ar, A, B, v, n, i, k - 1);
      Below(i, n, n, k - 1);
      var a := A[i * n + (k - 1)];
      assert Laws(ar, a, a, a) && Laws(ar, ar.zero, ar.zero, ar.zero);
    }
  }

  lemma ProductEntry<V>(ar: Arith<V>, A: seq<V>, B: seq<V>, n: nat, i: nat, j: nat)
    requires |A| == |B| == n * n && i < n && j < n
    ensures i * n + j < n * n && Product(ar, A, B, n)[i * n + j] == Dot(ar, A, B, n, i, j, n)
  {
    Below(i, n, n, j);
    Digits(i, n, j);
  }

  /** Summing by columns is summing by rows. */
  lemma {:induction false} SumsExchange<V(!new)>(ar: Arith<V>, A: seq<V>, B: seq<V>, v: seq<V>, n: nat, i: nat, m: nat)
    requires Exact(ar) && |A| == |B| == n * n && |v| == n && i < n && m <= n
    ensures RowSum(ar, Product(ar, A, B, n), v, n, i, m) == Nested(ar, A, B, v, n, i, n, m)
  {
    if m == 0 {
      NestedOfNothing(ar, A, B, v, n, i, n);
    } else {
      SumsExchange(ar, A, B, v, n, i, m - 1);
      NestedGrows(ar, A, B, v, n, i, n, m - 1);
      ProductEntry(ar, A, B, n, i, m - 1);
    }
  }

  lemma {:induction false} NestedIsImage<V>(ar: Arith<V>, A: seq<V>, B: seq<V>, v: seq<V>, n: nat, i: nat, k: nat)
    requires |A| == |B| == n * n && |v| == n && i < n && k <= n
    ensures Nested(ar, A, B, v, n, i, k, n) == RowSum(ar, A, Image(ar, B, v, n), n, i, k)
  {
    if k > 0 { NestedIsImage(ar, A, B, v, n, i, k - 1); }
  }

  /** Applying the product is applying the second matrix and then the first. */
  lemma ProductComposes<V(!new)>(ar: Arith<V>, A: seq<V>, B: seq<V>, v: seq<V>, n: nat)
    requires Exact(ar) && |A| == |B| == n * n && |v| == n
    ensures Image(ar, Product(ar, A, B, n), v, n) == Image(ar, A, Image(ar, B, v, n), n)
  {
    forall i | 0 <= i < n
      ensures Image(ar, Product(ar, A, B, n), v, n)[i] == Image(ar, A, Image(ar, B, v, n), n)[i]
    {
      SumsExchange(ar, A, B, v, n, i, n);
      NestedIsImage(ar, A, B, v, n, i, n);
    }
  }

  /** The arithmetic of the program, without rounding. */
  const REALS: Arith<real> := Arith(0.0, (x, y) => x + y, (x, y) => x * y)

  lemma RealsAreExact()
    ensures Exact(REALS)
  {
    forall x, y, z
      ensures Laws(REALS, x, y, z)
    {
    }
  }

}
