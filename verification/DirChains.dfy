/** Records chained by their lengths: each starts where the one before ends. A layout tells the record read at
    each offset. */
module DirChains {
  import opened DirRecords

  type Layout = nat -> Record

  predicate Fine(f: Layout, o: nat, end: nat) { Placed(f(o)) && o + f(o).len <= end }

  /** The records from offset `o` on tile the space up to `end`. */
  predicate Tiled(f: Layout, o: nat, end: nat)
    decreases end - o
  {
    o == end || (o < end && Fine(f, o, end) && Tiled(f, o + f(o).len, end))
  }

  function Records(f: Layout, o: nat, end: nat): seq<Record>
    requires Tiled(f, o, end)
    decreases end - o
  {
    if o == end then [] else [f(o)] + Records(f, o + f(o).len, end)
  }

  /** The two layouts read the same wherever the first reads a record between `a` and `b`. */
  ghost predicate Same(f: Layout, g: Layout, a: nat, b: nat) {
    forall x: nat :: a <= x && Fine(f, x, b) ==> g(x) == f(x)
  }

  lemma Regrouped<T>(x: seq<T>, y: seq<T>, z: seq<T>)
    ensures x + (y + z) == x + y + z
  {
  }

  lemma {:induction false} Join(f: Layout, a: nat, m: nat, b: nat)
    requires Tiled(f, a, m) && Tiled(f, m, b)
    ensures Tiled(f, a, b) && Records(f, a, b) == Records(f, a, m) + Records(f, m, b)
    decreases m - a
  {
    if a < m {
      Join(f, a + f(a).len, m, b);
      Regrouped([f(a)], Records(f, a + f(a).len, m), Records(f, m, b));
    }
  }

  lemma {:induction false} Frame(f: Layout, g: Layout, a: nat, b: nat)
    requires Tiled(f, a, b) && Same(f, g, a, b)
    ensures Tiled(g, a, b) && Records(g, a, b) == Records(f, a, b)
    decreases b - a
  {
    if a < b { Frame(f, g, a + f(a).len, b); }
  }

  /** Whatever tiles a space satisfies what the directory results ask for, but for names being unique. */
  lemma {:induction false} TiledIsPlaced(f: Layout, a: nat, b: nat)
    requires Tiled(f, a, b)
    ensures AllPlaced(Records(f, a, b)) && Total(Records(f, a, b)) == b - a && (a < b ==> |Records(f, a, b)| > 0)
    decreases b - a
  {
    if a < b {
      TiledIsPlaced(f, a + f(a).len, b);
      assert Records(f, a, b)[1..] == Records(f, a + f(a).len, b);
    }
  }

  lemma Prepend(f: Layout, o: nat, end: nat)
    requires Fine(f, o, end) && Tiled(f, o + f(o).len, end)
    ensures Tiled(f, o, end) && Records(f, o, end) == [f(o)] + Records(f, o + f(o).len, end)
  {
  }

  lemma Append(f: Layout, a: nat, o: nat)
    requires Tiled(f, a, o) && Placed(f(o))
    ensures Tiled(f, a, o + f(o).len) && Records(f, a, o + f(o).len) == Records(f, a, o) + [f(o)]
  {
    Prepend(f, o, o + f(o).len);
    Join(f, a, o, o + f(o).len);
  }

  /** Two stretches and one record between them. */
  lemma ThreeParts(f: Layout, o: nat, end: nat)
    requires Tiled(f, 0, o) && Fine(f, o, end) && Tiled(f, o + f(o).len, end)
    ensures Tiled(f, 0, end)
    ensures Records(f, 0, end) == Records(f, 0, o) + [f(o)] + Records(f, o + f(o).len, end)
  {
    Append(f, 0, o);
    Join(f, 0, o + f(o).len, end);
  }

  /** The records before offset `o` are `a`, and those from offset `next` to the end of the block are `b`. */
  predicate Around(f: Layout, a: seq<Record>, o: nat, next: nat, b: seq<Record>) {
    && next <= BLOCK_SIZE
    && Tiled(f, 0, o) && Records(f, 0, o) == a && Tiled(f, next, BLOCK_SIZE) && Records(f, next, BLOCK_SIZE) == b
  }

  /** The records are `a`, then `r` at offset `at`, then `b`. */
  predicate Cut(f: Layout, a: seq<Record>, at: nat, r: Record, b: seq<Record>) {
    r == f(at) && Placed(r) && Around(f, a, at, at + r.len, b)
  }

  /** The start of a walk along the records `whole`. */
  lemma Start(f: Layout, whole: seq<Record>)
    requires Tiled(f, 0, BLOCK_SIZE) && Records(f, 0, BLOCK_SIZE) == whole
    ensures Around(f, [], 0, 0, whole) && [] + whole == whole
  {
  }

  /** One step of a walk, from behind the records `a` to behind the record `r`, at offset `next`. */
  lemma Walk(f: Layout, a: seq<Record>, o: nat, rest: seq<Record>) returns (r: Record, b: seq<Record>, next: nat)
    requires Around(f, a, o, o, rest) && o < BLOCK_SIZE
    ensures Cut(f, a, o, r, b) && a + rest == a + [r] + b && next == o + r.len && Around(f, a + [r], next, next, b)
  {
    r, next := f(o), o + f(o).len;
    b := Records(f, next, BLOCK_SIZE);
    Append(f, 0, o);
    Regrouped(a, [r], b);
  }

  lemma TwoParts(f: Layout, o: nat, mid: nat, next: nat, end: nat)
    requires Tiled(f, 0, o) && Tiled(f, next, end) && next <= end
    requires Placed(f(o)) && o + f(o).len == mid && Placed(f(mid)) && mid + f(mid).len == next
    ensures Tiled(f, 0, end) && Records(f, 0, end) == Records(f, 0, o) + [f(o)] + [f(mid)] + Records(f, next, end)
  {
    Append(f, 0, o);
    ThreeParts(f, mid, end);
  }

  /** `prev` is the offset of the last of the records `a` before offset `curr`, and `before` the others; it is -1,
      the NULL of prev_de, if there is none. */
  predicate Behind(f: Layout, before: seq<Record>, prev: int, a: seq<Record>, curr: nat) {
    if a == [] then prev == -1
    else
      && 0 <= prev && Tiled(f, 0, prev) && Records(f, 0, prev) == before
      && Placed(f(prev)) && prev + f(prev).len == curr && a == before + [f(prev)]
  }

  lemma LastBehind(f: Layout, before: seq<Record>, prev: int, a: seq<Record>, curr: nat, r: Record, b: seq<Record>)
    returns (p: Record, m: nat)
    requires Behind(f, before, prev, a, curr) && Cut(f, a, curr, r, b) && prev != -1
    ensures prev >= 0 && p == f(prev) && Placed(p) && a == before + [p] && m == p.len + r.len && m % 4 == 0
    ensures Around(f, before, prev, prev + m, b)
  {
    p, m := f(prev), f(prev).len + r.len;
  }

}
