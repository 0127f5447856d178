/** The conversions of blocked.c between row-major and blocked storage. */
module BlockedMatmul {
  import opened BlockLayout

  /** Row-major entries laid out in blocks. */
  function InBlocks<V>(s: seq<V>, nb: nat, b: nat): (t: seq<V>)
    requires nb > 0 && b > 0 && |s| == nb * b * (nb * b)
    ensures |t| == |s|
  {
    seq(|s|, x requires 0 <= x < |s| => (SourceDest(x, nb, b); s[Source(x, nb, b)]))
  }

  /** Blocked entries laid out in rows. */
  function InRows<V>(s: seq<V>, nb: nat, b: nat): (t: seq<V>)
    requires nb > 0 && b > 0 && |s| == nb * b * (nb * b)
    ensures |t| == |s|
  {
    seq(|s|, y requires 0 <= y < |s| => (SourceDest(y, nb, b); s[Dest(y, nb, b)]))
  }

  /** From_blocked undoes To_blocked and the other way around. */
  lemma LayoutsInverse<V>(s: seq<V>, nb: nat, b: nat)
    requires nb > 0 && b > 0 && |s| == nb * b * (nb * b)
    ensures InRows(InBlocks(s, nb, b), nb, b) == s && InBlocks(InRows(s, nb, b), nb, b) == s
  {
    forall x | 0 <= x < |s|
      ensures InRows(InBlocks(s, nb, b), nb, b)[x] == s[x] && InBlocks(InRows(s, nb, b), nb, b)[x] == s[x]
    {
      SourceDest(x, nb, b);
    }
  }

  // The walking pointers move from one row of a block, one block and one row of blocks to the next.

  lemma NextRow(ib: nat, jb: nat, i: nat, nb: nat, b: nat)
    ensures Blocked(Entry(ib, jb, i, b), nb, b) == Blocked(Entry(ib, jb, i + 1, 0), nb, b)
    ensures RowMajor(Entry(ib, jb, i, b), nb, b) + (nb * b - b) == RowMajor(Entry(ib, jb, i + 1, 0), nb, b)
  {
    assert (i + 1) * b == i * b + b;
    assert (ib * b + (i + 1)) * (nb * b) == (ib * b + i) * (nb * b) + nb * b;
  }

  lemma NextBlock(ib: nat, jb: nat, nb: nat, b: nat)
    ensures Blocked(Entry(ib, jb, b, 0), nb, b) == Blocked(Entry(ib, jb + 1, 0, 0), nb, b)
  {
    assert (ib * nb + (jb + 1)) * (b * b) == (ib * nb + jb) * (b * b) + b * b;
  }

  lemma NextBlockRow(ib: nat, nb: nat, b: nat)
    ensures Blocked(Entry(ib, nb, 0, 0), nb, b) == Blocked(Entry(ib + 1, 0, 0, 0), nb, b)
  {
    assert (ib + 1) * nb == ib * nb + nb;
  }

  lemma LastBlock(nb: nat, b: nat)
    ensures Blocked(Entry(nb, 0, 0, 0), nb, b) == nb * b * (nb * b)
  {
    Regroup(nb, b);
    assert nb * nb * (b * b) == nb * nb * b * b;
  }

  function SourceOf<V>(s: seq<V>, x: nat, nb: nat, b: nat): V
    requires nb > 0 && b > 0 && |s| == nb * b * (nb * b) && x < |s|
  {
    SourceDest(x, nb, b);
    s[Source(x, nb, b)]
  }

  /** The first `t` positions of `T` hold their entries of the row-major `s`. */
  ghost predicate OutUpTo<V>(T: seq<V>, s: seq<V>, t: nat, nb: nat, b: nat)
    requires nb > 0 && b > 0
  {
    |T| == |s| == nb * b * (nb * b) && t <= |T| && forall x :: 0 <= x < t ==> T[x] == SourceOf(s, x, nb, b)
  }

  lemma OutOne<V>(T: seq<V>, s: seq<V>, e: Entry, nb: nat, b: nat)
    requires nb > 0 && b > 0 && InRange(e, nb, b) && OutUpTo(T, s, Blocked(e, nb, b), nb, b)
    ensures Blocked(e, nb, b) < |T| && RowMajor(e, nb, b) < |s|
    ensures OutUpTo(T[Blocked(e, nb, b) := s[RowMajor(e, nb, b)]], s, Blocked(e, nb, b) + 1, nb, b)
  {
    BlockedInverse(e, nb, b);
    RowMajorInverse(e, nb, b);
  }

  /** The copying of one block of the row-major `a` into contiguous places of `T`. */
  method BlockOut<V>(a: array<V>, T: array<V>, ib: nat, jb: nat, nb: nat, b: nat, t0: nat) returns (t: nat)
    requires ib < nb && jb < nb && b > 0 && a != T
    requires t0 == Blocked(Entry(ib, jb, 0, 0), nb, b) && OutUpTo(T[..], a[..], t0, nb, b)
    modifies T
    ensures t == Blocked(Entry(ib, jb + 1, 0, 0), nb, b) && OutUpTo(T[..], a[..], t, nb, b)
  {
    t := t0;
    var n := nb * b;
    var ap := ib * b * n + jb * b;
    for i := 0 to b
      invariant t == Blocked(Entry(ib, jb, i, 0), nb, b) && ap == RowMajor(Entry(ib, jb, i, 0), nb, b)
      invariant OutUpTo(T[..], a[..], t, nb, b)
    {
      for j := 0 to b
        invariant t == Blocked(Entry(ib, jb, i, j), nb, b) && ap == RowMajor(Entry(ib, jb, i, j), nb, b)
        invariant OutUpTo(T[..], a[..], t, nb, b)
      {
        OutOne(T[..], a[..], Entry(ib, jb, i, j), nb, b);
        T[t] := a[ap];
        t := t + 1;
        ap := ap + 1;
      }
      NextRow(ib, jb, i, nb, b);
      MulMono(1, nb, b);
      ap := ap + (n - b);
    }
    NextBlock(ib, jb, nb, b);
  }

  /** One row of blocks. */
  method BlockOutRow<V>(a: array<V>, T: array<V>, ib: nat, nb: nat, b: nat, start: nat) returns (t: nat)
    requires ib < nb && b > 0 && a != T
    requires start == Blocked(Entry(ib, 0, 0, 0), nb, b) && OutUpTo(T[..], a[..], start, nb, b)
    modifies T
    ensures t == Blocked(Entry(ib + 1, 0, 0, 0), nb, b) && OutUpTo(T[..], a[..], t, nb, b)
  {
    t := start;
    for jb := 0 to nb
      invariant t == Blocked(Entry(ib, jb, 0, 0), nb, b) && OutUpTo(T[..], a[..], t, nb, b)
    {
      t := BlockOut(a, T, ib, jb, nb, b, t);
    }
    NextBlockRow(ib, nb, b);
  }

  /** The loops over the blocks of a matrix of `nb` x `nb` blocks, through a temporary. */
  method ToBlockedLoops<V(0)>(a: array<V>, nb: nat, b: nat)
    requires nb > 0 && b > 0 && a.Length == nb * b * (nb * b)
    modifies a
    ensures a[..] == InBlocks(old(a[..]), nb, b)
  {
    ghost var s := a[..];
    var T := new V[a.Length];
    var t := 0;
    for ib := 0 to nb
      invariant a[..] == s
      invariant t == Blocked(Entry(ib, 0, 0, 0), nb, b) && OutUpTo(T[..], a[..], t, nb, b)
    {
      t := BlockOutRow(a, T, ib, nb, b, t);
    }
    LastBlock(nb, b);
    CopyBack(a, T);
  }

  /** To_blocked */
  method ToBlocked<V(0)>(a: array<V>, n: nat, b: nat)
    requires b > 0 && n > 0 && n % b == 0 && a.Length == n * n
    modifies a
    ensures n == n / b * b && n / b > 0
    ensures a[..] == InBlocks(old(a[..]), n / b, b)
  {
    ToBlockedLoops(a, n / b, b);
  }

  /** The row-major `T` holds the first `c` entries of the blocked `s`. */
  ghost predicate InUpTo<V>(T: seq<V>, s: seq<V>, c: nat, nb: nat, b: nat)
    requires nb > 0 && b > 0
  {
    && |T| == |s| == nb * b * (nb * b) && c <= |T|
    && forall x {:trigger Source(x, nb, b)} :: 0 <= x < c ==> Source(x, nb, b) < |T| && T[Source(x, nb, b)] == s[x]
  }

  lemma InOne<V>(T: seq<V>, s: seq<V>, e: Entry, nb: nat, b: nat)
    requires nb > 0 && b > 0 && InRange(e, nb, b) && InUpTo(T, s, Blocked(e, nb, b), nb, b)
    ensures Blocked(e, nb, b) < |s| && RowMajor(e, nb, b) < |T|
    ensures InUpTo(T[RowMajor(e, nb, b) := s[Blocked(e, nb, b)]], s, Blocked(e, nb, b) + 1, nb, b)
  {
    BlockedInverse(e, nb, b);
    RowMajorInverse(e, nb, b);
    var c := Blocked(e, nb, b);
    forall x | 0 <= x < c
      ensures Source(x, nb, b) != Source(c, nb, b)
    {
      SourceDest(x, nb, b);
      SourceDest(c, nb, b);
    }
  }

  /** The copying of one contiguous block of `c` into its places in the row-major `T`. */
  method BlockIn<V>(c: array<V>, T: array<V>, ib: nat, jb: nat, nb: nat, b: nat, c0: nat) returns (cp: nat)
    requires ib < nb && jb < nb && b > 0 && c != T
    requires c0 == Blocked(Entry(ib, jb, 0, 0), nb, b) && InUpTo(T[..], c[..], c0, nb, b)
    modifies T
    ensures cp == Blocked(Entry(ib, jb + 1, 0, 0), nb, b) && InUpTo(T[..], c[..], cp, nb, b)
  {
    cp := c0;
    var n := nb * b;
    var tp := ib * b * n + jb * b;
    for i := 0 to b
      invariant cp == Blocked(Entry(ib, jb, i, 0), nb, b) && tp == RowMajor(Entry(ib, jb, i, 0), nb, b)
      invariant InUpTo(T[..], c[..], cp, nb, b)
    {
      for j := 0 to b
        invariant cp == Blocked(Entry(ib, jb, i, j), nb, b) && tp == RowMajor(Entry(ib, jb, i, j), nb, b)
        invariant InUpTo(T[..], c[..], cp, nb, b)
      {
        InOne(T[..], c[..], Entry(ib, jb, i, j), nb, b);
        T[tp] := c[cp];
        tp := tp + 1;
        cp := cp + 1;
      }
      NextRow(ib, jb, i, nb, b);
      MulMono(1, nb, b);
      tp := tp + (n - b);
    }
    NextBlock(ib, jb, nb, b);
  }

  /** One row of blocks. */
  method BlockInRow<V>(c: array<V>, T: array<V>, ib: nat, nb: nat, b: nat, start: nat) returns (cp: nat)
    requires ib < nb && b > 0 && c != T
    requires start == Blocked(Entry(ib, 0, 0, 0), nb, b) && InUpTo(T[..], c[..], start, nb, b)
    modifies T
    ensures cp == Blocked(Entry(ib + 1, 0, 0, 0), nb, b) && InUpTo(T[..], c[..], cp, nb, b)
  {
    cp := start;
    for jb := 0 to nb
      invariant cp == Blocked(Entry(ib, jb, 0, 0), nb, b) && InUpTo(T[..], c[..], cp, nb, b)
    {
      cp := BlockIn(c, T, ib, jb, nb, b, cp);
    }
    NextBlockRow(ib, nb, b);
  }

  /** The loops over the blocks of a matrix of `nb` x `nb` blocks, through a temporary. */
  method FromBlockedLoops<V(0)>(c: array<V>, nb: nat, b: nat)
    requires nb > 0 && b > 0 && c.Length == nb * b * (nb * b)
    modifies c
    ensures c[..] == InRows(old(c[..]), nb, b)
  {
    ghost var s := c[..];
    var T := new V[c.Length];
    var cp := 0;
    for ib := 0 to nb
      invariant c[..] == s
      invariant cp == Blocked(Entry(ib, 0, 0, 0), nb, b) && InUpTo(T[..], c[..], cp, nb, b)
    {
      cp := BlockInRow(c, T, ib, nb, b, cp);
    }
    LastBlock(nb, b);
    AllIn(T[..], s, nb, b);
    CopyBack(c, T);
  }

  /** From_blocked */
  method FromBlocked<V(0)>(c: array<V>, n: nat, b: nat)
    requires b > 0 && n > 0 && n % b == 0 && c.Length == n * n
    modifies c
    ensures n == n / b * b && n / b > 0
    ensures c[..] == InRows(old(c[..]), n / b, b)
  {
    FromBlockedLoops(c, n / b, b);
  }

  lemma AllIn<V>(T: seq<V>, s: seq<V>, nb: nat, b: nat)
    requires nb > 0 && b > 0 && InUpTo(T, s, |s|, nb, b)
    ensures T == InRows(s, nb, b)
  {
    forall y | 0 <= y < |s|
      ensures T[y] == InRows(s, nb, b)[y]
    {
      SourceDest(y, nb, b);
    }
  }

  /** memcpy of the whole temporary. */
  method CopyBack<V>(a: array<V>, T: array<V>)
    requires a.Length == T.Length && a != T
    modifies a
    ensures a[..] == T[..]
  {
    for i := 0 to a.Length
      invariant forall x :: 0 <= x < i ==> a[x] == T[x]
    {
      a[i] := T[i];
    }
  }

}
