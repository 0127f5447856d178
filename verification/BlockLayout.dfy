/** Where the entries of an n x n matrix lie in row-major and in blocked storage, n = nb * b. */
module BlockLayout {
  lemma MulMono(x: nat, y: nat, m: nat)
    requires x <= y
    ensures x * m <= y * m
  {
  }

  lemma Digits(x: nat, m: nat, y: nat)
    requires y < m
    ensures (x * m + y) / m == x && (x * m + y) % m == y
  {
    var n := x * m + y;
    var q, r := n / m, n % m;
    assert q * m + r == x * m + y;
    assert (q + 1) * m == q * m + m && (x + 1) * m == x * m + m;
    if q < x { MulMono(q + 1, x, m); }
    if x < q { MulMono(x + 1, q, m); }
  }

  lemma Below(x: nat, limit: nat, m: nat, y: nat)
    requires x < limit && y < m
    ensures x * m + y < limit * m
  {
    MulMono(x + 1, limit, m);
    assert (x + 1) * m == x * m + m;
  }

  /** Row and column of an entry by block row, block column, and row and column in the block. */
  datatype Entry = Entry(ib: nat, jb: nat, i: nat, j: nat)

  predicate InRange(e: Entry, nb: nat, b: nat) {
    e.ib < nb && e.jb < nb && e.i < b && e.j < b
  }

  /** Position in blocked storage. */
  function Blocked(e: Entry, nb: nat, b: nat): nat {
    (e.ib * nb + e.jb) * (b * b) + e.i * b + e.j
  }

  /** Position in row-major storage. */
  function RowMajor(e: Entry, nb: nat, b: nat): nat {
    (e.ib * b + e.i) * (nb * b) + e.jb * b + e.j
  }

  function FromRowMajor(y: nat, nb: nat, b: nat): Entry
    requires nb > 0 && b > 0
  {
    MulPositive(nb, b);
    var r, c := y / (nb * b), y % (nb * b);
    Entry(r / b, c / b, r % b, c % b)
  }

  function FromBlocked(x: nat, nb: nat, b: nat): Entry
    requires nb > 0 && b > 0
  {
    Entry(x / b / b / nb, x / b / b % nb, x / b % b, x % b)
  }

  lemma MulPositive(x: nat, y: nat)
    requires x > 0 && y > 0
    ensures x * y > 0
  {
  }

  lemma BlockedNested(e: Entry, nb: nat, b: nat)
    ensures Blocked(e, nb, b) == ((e.ib * nb + e.jb) * b + e.i) * b + e.j
  {
    var q := e.ib * nb + e.jb;
    assert q * (b * b) == (q * b) * b;
    assert (q * b + e.i) * b == (q * b) * b + e.i * b;
  }

  /** Blocked storage is a bijection between entries and positions. */
  lemma BlockedInverse(e: Entry, nb: nat, b: nat)
    requires InRange(e, nb, b)
    ensures FromBlocked(Blocked(e, nb, b), nb, b) == e
    ensures Blocked(e, nb, b) < nb * b * (nb * b)
  {
    BlockedNested(e, nb, b);
    var q := e.ib * nb + e.jb;
    Digits(e.ib, nb, e.jb);
    Digits(q, b, e.i);
    Digits(q * b + e.i, b, e.j);
    Below(e.ib, nb, nb, e.jb);
    Below(q, nb * nb, b, e.i);
    Below(q * b + e.i, nb * nb * b, b, e.j);
    Regroup(nb, b);
  }

  lemma Regroup(nb: nat, b: nat)
    ensures nb * nb * b * b == nb * b * (nb * b)
  {
    assert nb * b * (nb * b) == nb * (b * (nb * b));
    assert b * (nb * b) == nb * (b * b);
    assert nb * (nb * (b * b)) == nb * nb * (b * b);
    assert nb * nb * (b * b) == nb * nb * b * b;
  }

  /** Row-major storage is a bijection between entries and positions. */
  lemma RowMajorInverse(e: Entry, nb: nat, b: nat)
    requires InRange(e, nb, b)
    ensures FromRowMajor(RowMajor(e, nb, b), nb, b) == e
    ensures RowMajor(e, nb, b) < nb * b * (nb * b)
  {
    var r, c := e.ib * b + e.i, e.jb * b + e.j;
    Below(e.ib, nb, b, e.i);
    Below(e.jb, nb, b, e.j);
    Digits(e.ib, b, e.i);
    Digits(e.jb, b, e.j);
    Digits(r, nb * b, c);
    Below(r, nb * b, nb * b, c);
  }

  lemma DivBelow(x: nat, limit: nat, m: nat)
    requires m > 0 && x < limit * m
    ensures x / m < limit && x % m < m && x == x / m * m + x % m
  {
    if limit <= x / m { MulMono(limit, x / m, m); }
  }

  lemma FromBlockedInverse(x: nat, nb: nat, b: nat)
    requires nb > 0 && b > 0 && x < nb * b * (nb * b)
    ensures InRange(FromBlocked(x, nb, b), nb, b) && Blocked(FromBlocked(x, nb, b), nb, b) == x
  {
    Regroup(nb, b);
    DivBelow(x, nb * nb * b, b);
    DivBelow(x / b, nb * nb, b);
    DivBelow(x / b / b, nb, nb);
    BlockedNested(FromBlocked(x, nb, b), nb, b);
  }

  lemma FromRowMajorInverse(y: nat, nb: nat, b: nat)
    requires nb > 0 && b > 0 && y < nb * b * (nb * b)
    ensures InRange(FromRowMajor(y, nb, b), nb, b) && RowMajor(FromRowMajor(y, nb, b), nb, b) == y
  {
    MulPositive(nb, b);
    DivBelow(y, nb * b, nb * b);
    DivBelow(y / (nb * b), nb, b);
    DivBelow(y % (nb * b), nb, b);
  }

  /** The row-major position whose entry lies at blocked position `x`. */
  function Source(x: nat, nb: nat, b: nat): nat
    requires nb > 0 && b > 0
  {
    RowMajor(FromBlocked(x, nb, b), nb, b)
  }

  /** The blocked position of the entry at row-major position `y`. */
  function Dest(y: nat, nb: nat, b: nat): nat
    requires nb > 0 && b > 0
  {
    Blocked(FromRowMajor(y, nb, b), nb, b)
  }

  /** The two conversions are mutually inverse permutations of the n * n positions. */
  lemma SourceDest(x: nat, nb: nat, b: nat)
    requires nb > 0 && b > 0 && x < nb * b * (nb * b)
    ensures Source(x, nb, b) < nb * b * (nb * b) && Dest(Source(x, nb, b), nb, b) == x
    ensures Dest(x, nb, b) < nb * b * (nb * b) && Source(Dest(x, nb, b), nb, b) == x
  {
    FromBlockedInverse(x, nb, b);
    RowMajorInverse(FromBlocked(x, nb, b), nb, b);
    FromRowMajorInverse(x, nb, b);
    BlockedInverse(FromRowMajor(x, nb, b), nb, b);
  }
}
