/** The bytes of an ext2 directory block, and the loops over its records. */
module DirBlocks {
  import opened DirRecords
  import opened DirChains

  // ---------------------------------------------------------------- reading

  function Le16(lo: int, hi: int): int { lo + 256 * hi }

  /** The little-endian fields of the record at offset `o`, and its name. */
  function RecordAt(s: seq<Byte>, o: nat): Record {
    if o + HEADER <= |s| && o + HEADER + s[o + 6] <= |s| then
      Record(Le16(s[o], s[o + 1]) + 65536 * Le16(s[o + 2], s[o + 3]), Le16(s[o + 4], s[o + 5]), s[o + 7],
             s[o + HEADER..o + HEADER + s[o + 6]])
    else
      Record(0, 0, 0, [])
  }

  function View(s: seq<Byte>): Layout { (o: nat) => RecordAt(s, o) }

  /** A block read as a directory. */
  ghost predicate IsDirectory(s: seq<Byte>) { |s| == BLOCK_SIZE && Tiled(View(s), 0, BLOCK_SIZE) }

  ghost function Entries(s: seq<Byte>): seq<Record>
    requires IsDirectory(s)
  {
    Records(View(s), 0, BLOCK_SIZE)
  }

  predicate Agree(s: seq<Byte>, t: seq<Byte>, a: nat, b: nat) {
    |s| == |t| && forall k :: a <= k < b && k < |s| ==> s[k] == t[k]
  }

  lemma RecordFrame(s: seq<Byte>, t: seq<Byte>, o: nat)
    requires Placed(RecordAt(s, o)) && Agree(s, t, o, o + RecordAt(s, o).len)
    ensures RecordAt(t, o) == RecordAt(s, o)
  {
    var m := o + HEADER + s[o + 6];
    assert s[o + HEADER..m] == t[o + HEADER..m];
  }

  lemma SameView(s: seq<Byte>, t: seq<Byte>, a: nat, b: nat)
    requires Agree(s, t, a, b)
    ensures Same(View(s), View(t), a, b)
  {
    forall x: nat | a <= x && Fine(View(s), x, b)
      ensures View(t)(x) == View(s)(x)
    {
      RecordFrame(s, t, x);
    }
  }

  // ---------------------------------------------------------------- writing

  method PutNumber(block: array<Byte>, o: nat, v: nat)
    requires o + HEADER <= block.Length && v < 0x1_0000_0000
    modifies block
    ensures Le16(block[o], block[o + 1]) + 65536 * Le16(block[o + 2], block[o + 3]) == v
    ensures forall k :: 0 <= k < block.Length && !(o <= k < o + 4) ==> block[k] == old(block[k])
  {
    var lo, hi := v % 65536, v / 65536;
    block[o], block[o + 1], block[o + 2], block[o + 3] := lo % 256, lo / 256, hi % 256, hi / 256;
  }

  method PutRecLen(block: array<Byte>, o: nat, v: nat)
    requires o + HEADER <= block.Length && v < 65536
    modifies block
    ensures Le16(block[o + 4], block[o + 5]) == v
    ensures Agree(old(block[..]), block[..], 0, o + 4) && Agree(old(block[..]), block[..], o + 6, block.Length)
  {
    block[o + 4], block[o + 5] := v % 256, v / 256;
  }

  /** strncpy of all the characters */
  method PutName(block: array<Byte>, at: nat, name: seq<Byte>)
    requires at + |name| <= block.Length
    modifies block
    ensures block[at..at + |name|] == name
    ensures forall k :: 0 <= k < block.Length && !(at <= k < at + |name|) ==> block[k] == old(block[k])
  {
    for i := 0 to |name|
      invariant forall k :: 0 <= k < i ==> block[at + k] == name[k]
      invariant forall k :: 0 <= k < block.Length && !(at <= k < at + i) ==> block[k] == old(block[k])
    {
      block[at + i] := name[i];
    }
  }

  /** The fields of a record, in the order in which they are assigned. The length of the name is cut to a byte. */
  method PutRecord(block: array<Byte>, o: nat, inode: nat, len: nat, kind: Byte, name: seq<Byte>)
    requires o + HEADER + |name| <= block.Length && inode < 0x1_0000_0000 && len < 65536
    modifies block
    ensures RecordAt(block[..], o) == Record(inode, len, kind, Stored(name))
    ensures Agree(old(block[..]), block[..], 0, o)
    ensures Agree(old(block[..]), block[..], o + HEADER + |name|, block.Length)
  {
    PutNumber(block, o, inode);
    PutRecLen(block, o, len);
    block[o + 6] := |name| % 256;
    block[o + 7] := kind;
    PutName(block, o + HEADER, name);
  }

  /** Only the length field of the record at `o` is written. */
  lemma NewLength(s: seq<Byte>, t: seq<Byte>, o: nat, m: nat)
    requires Placed(RecordAt(s, o)) && |t| == |s| && Le16(t[o + 4], t[o + 5]) == m
    requires HEADER + |RecordAt(s, o).name| <= m
    requires Agree(s, t, o, o + 4) && Agree(s, t, o + 6, o + m)
    ensures RecordAt(t, o) == RecordAt(s, o).(len := m)
  {
    var e := o + HEADER + s[o + 6];
    assert s[o + HEADER..e] == t[o + HEADER..e];
  }

  // ---------------------------------------------------------------- create_entry

  /** Writing the new record `x` behind the first `m` bytes of the one at `o`, and then `m` as its length. */
  lemma TwoHalves(s: seq<Byte>, u: seq<Byte>, t: seq<Byte>, o: nat, m: nat, r: Record, x: Record)
    requires |t| == |s| && r == RecordAt(s, o) && Placed(r) && HEADER + |r.name| <= m && o + r.len <= |s|
    requires RecordAt(u, o + m) == x && Placed(x) && x.len == r.len - m
    requires Agree(s, u, 0, o + m) && Agree(s, u, o + r.len, |s|)
    requires Agree(u, t, 0, o + 4) && Agree(u, t, o + 6, |s|) && Le16(t[o + 4], t[o + 5]) == m
    ensures RecordAt(t, o) == r.(len := m) && RecordAt(t, o + m) == x
    ensures Agree(s, t, 0, o) && Agree(s, t, o + r.len, |s|)
  {
    NewLength(s, t, o, m);
    RecordFrame(u, t, o + m);
  }

  /** The assignments of the branch for a live entry. */
  method WriteHalves(block: array<Byte>, at: nat, m: nat, inode: nat, kind: Byte, name: seq<Byte>, ghost r: Record)
    requires inode < 0x1_0000_0000 && r == RecordAt(block[..], at) && Placed(r) && at + r.len <= block.Length
    requires m == Size(r) && r.len - m >= HEADER + |name|
    modifies block
    ensures RecordAt(block[..], at) == r.(len := Size(r))
    ensures RecordAt(block[..], at + m) == NewRecord(inode, kind, name, Slack(r))
    ensures Agree(old(block[..]), block[..], 0, at) && Agree(old(block[..]), block[..], at + r.len, block.Length)
  {
    ghost var s, x := block[..], NewRecord(inode, kind, name, Slack(r));
    var prev, curr := at, at + m;
    var prevLen := Le16(block[prev + 4], block[prev + 5]);
    assert prevLen == r.len;
    PutRecord(block, curr, inode, prevLen - m, kind, name);
    ghost var u := block[..];
    assert RecordAt(u, curr) == x;
    PutRecLen(block, prev, m);
    HalvesPlaced(r, inode, kind, name);
    TwoHalves(s, u, block[..], at, m, r, x);
  }

  lemma Changed(s: seq<Byte>, t: seq<Byte>, a: seq<Record>, o: nat, next: nat, b: seq<Record>)
    requires Around(View(s), a, o, next, b) && Agree(s, t, 0, o) && Agree(s, t, next, BLOCK_SIZE)
    ensures Around(View(t), a, o, next, b)
  {
    SameView(s, t, 0, o);
    SameView(s, t, next, BLOCK_SIZE);
    Frame(View(s), View(t), 0, o);
    Frame(View(s), View(t), next, BLOCK_SIZE);
  }

  lemma Filled(f: Layout, o: nat, x: Record, y: Record, a: seq<Record>, next: nat, b: seq<Record>)
    requires Around(f, a, o, next, b)
    requires f(o) == x && f(o + x.len) == y && Placed(x) && Placed(y) && o + x.len + y.len == next
    ensures Tiled(f, 0, BLOCK_SIZE) && Records(f, 0, BLOCK_SIZE) == a + [x] + [y] + b
  {
    TwoParts(f, o, o + x.len, next, BLOCK_SIZE);
  }

  lemma SplitView(s: seq<Byte>, t: seq<Byte>, o: nat, x: Record, y: Record, a: seq<Record>, r: Record, b: seq<Record>)
    requires Cut(View(s), a, o, r, b) && |s| == BLOCK_SIZE && Agree(s, t, 0, o) && Agree(s, t, o + r.len, BLOCK_SIZE)
    requires RecordAt(t, o) == x && RecordAt(t, o + x.len) == y && Placed(x) && Placed(y) && x.len + y.len == r.len
    ensures IsDirectory(t) && Entries(t) == a + [x] + [y] + b
  {
    Changed(s, t, a, o, o + r.len, b);
    Filled(View(t), o, x, y, a, o + r.len, b);
  }

  /** The branch for a live entry: the old record keeps the bytes it needs, and the new one gets the rest. */
  method SplitEntry(block: array<Byte>, at: nat, m: nat, inode: nat, kind: Byte, name: seq<Byte>,
                    ghost a: seq<Record>, ghost r: Record, ghost b: seq<Record>)
    requires Cut(View(block[..]), a, at, r, b) && block.Length == BLOCK_SIZE && inode < 0x1_0000_0000
    requires m == Size(r) && r.len - m >= HEADER + |name|
    modifies block
    ensures IsDirectory(block[..])
    ensures Entries(block[..]) == a + [r.(len := Size(r))] + [NewRecord(inode, kind, name, Slack(r))] + b
  {
    ghost var s, x := block[..], NewRecord(inode, kind, name, Slack(r));
    HalvesPlaced(r, inode, kind, name);
    WriteHalves(block, at, m, inode, kind, name, r);
    SplitView(s, block[..], at, r.(len := Size(r)), x, a, r, b);
  }

  /** The length of a record and the bytes it needs for itself. */
  method Sizes(block: array<Byte>, at: nat, ghost r: Record) returns (len: nat, m: nat)
    requires r == RecordAt(block[..], at) && Placed(r)
    ensures len == r.len && m == Size(r)
  {
    len := Le16(block[at + 4], block[at + 5]);
    m := RoundUp(HEADER + block[at + 6], 4);
  }

  /** The body of the loop of create_entry, at the record `r`. */
  method TryEntry(block: array<Byte>, at: nat, inode: nat, kind: Byte, name: seq<Byte>,
                  ghost a: seq<Record>, ghost r: Record, ghost b: seq<Record>) returns (isfound: bool, len: nat)
    requires Cut(View(block[..]), a, at, r, b) && block.Length == BLOCK_SIZE && inode < 0x1_0000_0000
    requires forall x :: x in a ==> Slack(x) < HEADER + |name|
    modifies block
    ensures len == r.len && isfound == (Slack(r) >= HEADER + |name|)
    ensures !isfound ==> block[..] == old(block[..])
    ensures isfound ==> IsDirectory(block[..]) && Entries(block[..]) == Insert(a + [r] + b, inode, kind, name)
  {
    var m;
    len, m := Sizes(block, at, r);
    isfound := len - m >= HEADER + |name|;
    if isfound {
      InsertIs(a, r, b, inode, kind, name);
      SplitEntry(block, at, m, inode, kind, name, a, r, b);
    }
  }

  /** The walk of create_entry over one block of the directory, in which the first record with the slack is live:
      the code tests its `dtime`, the i_dtime of the inode table entry at the record's inode number. */
  method CreateEntry(block: array<Byte>, ghost dtime: nat -> nat, inodeSrc: nat, symlink: bool, name: seq<Byte>)
    returns (isfound: bool)
    requires IsDirectory(block[..]) && inodeSrc + 1 < 0x1_0000_0000
    requires var rs := Entries(block[..]);
             var k := SplitAt(rs, name); k < |rs| ==> dtime(rs[k].inode) == 0
    modifies block
    ensures IsDirectory(block[..]) && isfound == Fits(old(Entries(block[..])), name)
    ensures Entries(block[..]) ==
            Insert(old(Entries(block[..])), inodeSrc + 1, if symlink then 7 else 1, name)
  {
    isfound := false;
    ghost var s, f, whole := block[..], View(block[..]), Entries(block[..]);
    ghost var a, rest := [], whole;
    Start(f, whole);
    var curr, len := 0, 0;
    while curr < BLOCK_SIZE
      invariant curr <= BLOCK_SIZE && !isfound && block[..] == s && Around(f, a, curr, curr, rest) && a + rest == whole
      invariant forall r :: r in a ==> Slack(r) < HEADER + |name|
    {
      ghost var r, b, next := Walk(f, a, curr, rest);
      isfound, len := TryEntry(block, curr, inodeSrc + 1, if symlink then SYMLINK else REG_FILE, name, a, r, b);
      if isfound {
        SplitAtIs(a, r, b, name);
        // The branch for a record that is not live is not modelled.
        assert dtime(r.inode) == 0;
        break;
      }
      a, rest, curr := a + [r], b, curr + len;
      assert curr == next;
    }
    if !isfound {
      InsertNowhere(whole, inodeSrc + 1, if symlink then SYMLINK else REG_FILE, name);
    }
  }

  lemma SplitAtIs(a: seq<Record>, r: Record, b: seq<Record>, name: seq<Byte>)
    requires (forall x :: x in a ==> Slack(x) < HEADER + |name|) && Slack(r) >= HEADER + |name|
    ensures SplitAt(a + [r] + b, name) == |a| && (a + [r] + b)[|a|] == r && Fits(a + [r] + b, name)
  {
    var rs := a + [r] + b;
    assert rs[|a|] == r && forall i :: 0 <= i < |a| ==> rs[i] == a[i] && a[i] in a;
  }

  // ---------------------------------------------------------------- delete_entry

  lemma Lengthened(s: seq<Byte>, t: seq<Byte>, a: seq<Record>, o: nat, p: Record, m: nat, b: seq<Record>)
    requires |s| == |t| == BLOCK_SIZE && Around(View(s), a, o, o + m, b) && RecordAt(s, o) == p && Placed(p)
    requires Agree(s, t, 0, o + 4) && Agree(s, t, o + 6, BLOCK_SIZE) && Le16(t[o + 4], t[o + 5]) == m
    requires p.len <= m && m % 4 == 0
    ensures IsDirectory(t) && Entries(t) == a + [p.(len := m)] + b
  {
    NewLength(s, t, o, m);
    Changed(s, t, a, o, o + m, b);
    ThreeParts(View(t), o, BLOCK_SIZE);
  }

  /** The length of the record `r`. */
  method ReadLen(block: array<Byte>, at: nat, ghost r: Record) returns (len: nat)
    requires r == RecordAt(block[..], at) && Placed(r)
    ensures len == r.len && at + HEADER <= block.Length
  {
    len := Le16(block[at + 4], block[at + 5]);
  }

  /** The inode number of the record `r`. */
  method ReadInode(block: array<Byte>, at: nat, ghost r: Record) returns (number: nat)
    requires r == RecordAt(block[..], at) && Placed(r)
    ensures number == r.inode
  {
    number := Le16(block[at], block[at + 1]) + 65536 * Le16(block[at + 2], block[at + 3]);
  }

  /** The record before the deleted one gets its length as well. */
  method MergeEntry(block: array<Byte>, prev: nat, len: nat,
                    ghost a: seq<Record>, ghost p: Record, ghost m: nat, ghost b: seq<Record>)
    requires block.Length == BLOCK_SIZE && RecordAt(block[..], prev) == p && Placed(p) && m == p.len + len && m % 4 == 0
    requires Around(View(block[..]), a, prev, prev + m, b)
    modifies block
    ensures IsDirectory(block[..]) && Entries(block[..]) == a + [p.(len := m)] + b
  {
    ghost var s := block[..];
    var prevLen := ReadLen(block, prev, p);
    PutRecLen(block, prev, prevLen + len);
    ghost var t := block[..];
    assert Le16(t[prev + 4], t[prev + 5]) == m;
    Lengthened(s, t, a, prev, p, m, b);
  }

  lemma RemoveLast(before: seq<Record>, p: Record, m: nat, a: seq<Record>, r: Record, b: seq<Record>)
    requires a == before + [p] && m == p.len + r.len && forall x :: x in a ==> x.inode != r.inode
    ensures Remove(a + [r] + b, r.inode) == before + [p.(len := m)] + b
  {
    assert p in a;
    RemoveIs(before, p, r, b);
  }

  /** The body of the loop of delete_entry, at the record `r`. */
  method TryDelete(block: array<Byte>, prev: int, curr: nat, inode: nat,
                   ghost f: Layout, ghost before: seq<Record>, ghost a: seq<Record>, ghost r: Record,
                   ghost b: seq<Record>)
    returns (isfound: bool, len: nat)
    requires f == View(block[..]) && Cut(f, a, curr, r, b) && block.Length == BLOCK_SIZE
    requires forall x :: x in a ==> x.inode != inode
    requires Behind(f, before, prev, a, curr)
    modifies block
    ensures len == r.len && isfound == (r.inode == inode)
    ensures !isfound ==> block[..] == old(block[..])
    ensures isfound ==> IsDirectory(block[..]) && Entries(block[..]) == Remove(a + [r] + b, inode)
  {
    len := ReadLen(block, curr, r);
    var number := ReadInode(block, curr, r);
    isfound := number == inode;
    if isfound {
      if prev != -1 {
        ghost var p, m := LastBehind(f, before, prev, a, curr, r, b);
        RemoveLast(before, p, m, a, r, b);
        MergeEntry(block, prev, len, before, p, m, b);
      } else {
        Found(a, r, b, inode);
      }
    }
  }

  /** The walk of delete_entry over one block of the directory. */
  method DeleteEntry(block: array<Byte>, inodeI: nat) returns (isfound: bool)
    requires IsDirectory(block[..])
    modifies block
    ensures IsDirectory(block[..])
    ensures isfound == (Holder(old(Entries(block[..])), inodeI + 1) < |old(Entries(block[..]))|)
    ensures Entries(block[..]) == Remove(old(Entries(block[..])), inodeI + 1)
  {
    isfound := false;
    ghost var s, f, whole := block[..], View(block[..]), Entries(block[..]);
    ghost var before, a, rest := [], [], whole;
    Start(f, whole);
    var curr, prev: int, len := 0, -1, 0;
    while curr < BLOCK_SIZE
      invariant curr <= BLOCK_SIZE && !isfound && block[..] == s && Around(f, a, curr, curr, rest) && a + rest == whole
      invariant forall r :: r in a ==> r.inode != inodeI + 1
      invariant Behind(f, before, prev, a, curr)
    {
      ghost var r, b, next := Walk(f, a, curr, rest);
      isfound, len := TryDelete(block, prev, curr, inodeI + 1, f, before, a, r, b);
      if isfound {
        Found(a, r, b, inodeI + 1);
        break;
      }
      before, prev := a, curr;
      a, rest, curr := a + [r], b, curr + len;
      assert curr == next;
    }
    if !isfound {
      NotFound(whole, inodeI + 1);
    }
  }

  lemma Found(a: seq<Record>, r: Record, b: seq<Record>, inode: nat)
    requires r.inode == inode && forall x :: x in a ==> x.inode != inode
    ensures Holder(a + [r] + b, inode) == |a| && (a == [] ==> Remove(a + [r] + b, inode) == a + [r] + b)
  {
    assert a + [r] + b == a + ([r] + b);
    HolderIs(a, [r] + b, inode);
    if a == [] { RemoveNowhere(a + [r] + b, inode); }
  }

  lemma NotFound(rs: seq<Record>, inode: nat)
    requires forall x :: x in rs ==> x.inode != inode
    ensures Holder(rs, inode) == |rs| && Remove(rs, inode) == rs
  {
    assert rs + [] == rs;
    HolderIs(rs, [], inode);
    RemoveNowhere(rs, inode);
  }

  // ---------------------------------------------------------------- check_entries_for_path

  const SLASH: Byte := 47

  predicate OccursAt(path: seq<Byte>, token: seq<Byte>, i: nat) {
    i + |token| <= |path| && path[i..i + |token|] == token
  }

  ghost predicate Occurs(path: seq<Byte>, token: seq<Byte>, from: nat) {
    exists k: nat :: from <= k && OccursAt(path, token, k)
  }

  /** strstr from position `from` on: the first occurrence */
  function StrStr(path: seq<Byte>, token: seq<Byte>, from: nat): (i: nat)
    requires Occurs(path, token, from)
    ensures from <= i && OccursAt(path, token, i) && forall k: nat :: from <= k < i ==> !OccursAt(path, token, k)
    decreases |path| - from
  {
    if OccursAt(path, token, from) then from else StrStr(path, token, from + 1)
  }

  /** The code's test for a slash: it looks behind the first occurrence of the token in the path. */
  predicate SlashFollows(path: seq<Byte>, token: seq<Byte>)
    requires Occurs(path, token, 0)
  {
    var end := StrStr(path, token, 0) + |token|;
    end < |path| && path[end] == SLASH
  }

  /** strncmp of the token with the name in the record, and the test of their lengths */
  method SameName(block: array<Byte>, at: nat, token: seq<Byte>, ghost r: Record) returns (same: bool)
    requires r == RecordAt(block[..], at) && Placed(r)
    ensures same == (r.name == token)
  {
    var size := block[at + 6];
    assert |r.name| == size && r.name == block[at + HEADER..at + HEADER + size];
    var i := 0;
    while i < |token| && i < size && token[i] == block[at + HEADER + i]
      invariant 0 <= i <= |token| && i <= size
      invariant forall k :: 0 <= k < i ==> token[k] == block[at + HEADER + k]
    {
      i := i + 1;
    }
    same := i == |token| && |token| == size;
    assert i < |token| && i < size ==> r.name[i] != token[i];
  }

  /** What the walk returns, and what it leaves in inode_ind. */
  function Answer(rs: seq<Record>, token: seq<Byte>, path: seq<Byte>, inodeInd: int): (int, int)
    requires Occurs(path, token, 0)
  {
    var k := FirstNamed(rs, token);
    if k == |rs| then (0, inodeInd)
    else (if rs[k].kind != DIRECTORY && SlashFollows(path, token) then -1 else 1, rs[k].inode - 1)
  }

  // What the comment on check_entries_for_path promises is about the component of the path that is being looked up.

  /** Position `i` of the path is a slash. */
  predicate SlashAt(path: seq<Byte>, i: nat) { i < |path| && path[i] == SLASH }

  /** The token is the component of the path that starts at `i`. */
  predicate IsComponent(path: seq<Byte>, token: seq<Byte>, i: nat) {
    i > 0 && OccursAt(path, token, i) && SlashAt(path, i - 1)
    && (i + |token| == |path| || SlashAt(path, i + |token|))
  }

  /** The promised result for a record found for the token at `i`: -1 exactly for a file used as a directory. */
  function Promised(r: Record, path: seq<Byte>, token: seq<Byte>, i: nat): int {
    if r.kind != DIRECTORY && SlashAt(path, i + |token|) then -1 else 1
  }

  /** The walk finds what the directory holds, whatever the code it returns. */
  lemma AnswerFinds(rs: seq<Record>, token: seq<Byte>, path: seq<Byte>, inodeInd: int)
    requires Occurs(path, token, 0)
    ensures token in Directory(rs) <==> Answer(rs, token, path, inodeInd).0 != 0
    ensures Answer(rs, token, path, inodeInd).1 == if token in Directory(rs) then Directory(rs)[token] - 1 else inodeInd
  {
    LookupIsDirectory(rs, token);
  }

  /** The promise is kept if and only if the record is a directory, or a slash follows the first place where the
      token occurs in the path as text exactly when one follows the token at `i`. */
  lemma PromiseKeptIff(rs: seq<Record>, path: seq<Byte>, token: seq<Byte>, i: nat, inodeInd: int)
    requires OccursAt(path, token, i) && FirstNamed(rs, token) < |rs|
    ensures Occurs(path, token, 0)
    ensures var r := rs[FirstNamed(rs, token)];
            Answer(rs, token, path, inodeInd).0 == Promised(r, path, token, i) <==>
              (r.kind == DIRECTORY ||
               (SlashAt(path, StrStr(path, token, 0) + |token|) <==> SlashAt(path, i + |token|)))
  {
  }

  /** In particular it is kept when the token does not occur before `i`. */
  lemma PromiseKeptAtFirst(rs: seq<Record>, path: seq<Byte>, token: seq<Byte>, i: nat, inodeInd: int)
    requires OccursAt(path, token, i) && FirstNamed(rs, token) < |rs|
    requires forall k: nat :: k < i ==> !OccursAt(path, token, k)
    ensures Occurs(path, token, 0)
    ensures Answer(rs, token, path, inodeInd).0 == Promised(rs[FirstNamed(rs, token)], path, token, i)
  {
    assert StrStr(path, token, 0) == i;
  }

  // Two paths on which it is broken, both for a file "a" in the directory named first; 47 is '/', 97 to 99 are letters.

  const LAST_COMPONENT: seq<Byte> := [47, 97, 47, 97]               // /a/a
  const INNER_COMPONENT: seq<Byte> := [47, 97, 98, 47, 97, 47, 99]  // /ab/a/c

  lemma WhereTheNameOccurs()
    ensures IsComponent(LAST_COMPONENT, [97], 3)
    ensures Occurs(LAST_COMPONENT, [97], 0) && StrStr(LAST_COMPONENT, [97], 0) == 1
    ensures IsComponent(INNER_COMPONENT, [97], 4)
    ensures Occurs(INNER_COMPONENT, [97], 0) && StrStr(INNER_COMPONENT, [97], 0) == 1
  {
    var p, q, a: seq<Byte> := LAST_COMPONENT, INNER_COMPONENT, [97];
    assert p[0..1][0] != a[0] && q[0..1][0] != a[0];
    assert p[1..2] == a && p[3..4] == a && q[1..2] == a && q[4..5] == a;
    assert OccursAt(p, a, 1) && OccursAt(q, a, 1);
  }

  /** The file is the last component and is taken for a directory, so its path cannot be resolved. */
  lemma FileTakenForDirectory(rs: seq<Record>, name: seq<Byte>, inodeInd: int)
    requires var k := FirstNamed(rs, name); name == [97] && k < |rs| && rs[k].kind == REG_FILE
    ensures IsComponent(LAST_COMPONENT, name, 3) && Occurs(LAST_COMPONENT, name, 0)
    ensures Answer(rs, name, LAST_COMPONENT, inodeInd).0 == -1
    ensures Promised(rs[FirstNamed(rs, name)], LAST_COMPONENT, name, 3) == 1
  {
    WhereTheNameOccurs();
  }

  /** The file is used as a directory and the walk does not say so. */
  lemma FileUsedAsDirectory(rs: seq<Record>, name: seq<Byte>, inodeInd: int)
    requires var k := FirstNamed(rs, name); name == [97] && k < |rs| && rs[k].kind == REG_FILE
    ensures IsComponent(INNER_COMPONENT, name, 4) && Occurs(INNER_COMPONENT, name, 0)
    ensures Answer(rs, name, INNER_COMPONENT, inodeInd).0 == 1
    ensures Promised(rs[FirstNamed(rs, name)], INNER_COMPONENT, name, 4) == -1
  {
    WhereTheNameOccurs();
  }

  /** The body of the loop of check_entries_for_path, at the record `r`. */
  method TryName(block: array<Byte>, at: nat, token: seq<Byte>, path: seq<Byte>, ghost r: Record)
    returns (same: bool, isfound: int, inodeInd: int, len: nat)
    requires r == RecordAt(block[..], at) && Placed(r) && Occurs(path, token, 0)
    ensures len == r.len && same == (r.name == token)
    ensures same ==> inodeInd == r.inode - 1
    ensures same ==> isfound == if r.kind != DIRECTORY && SlashFollows(path, token) then -1 else 1
  {
    isfound, inodeInd := 0, 0;
    len := ReadLen(block, at, r);
    same := SameName(block, at, token, r);
    if same {
      var number: int := ReadInode(block, at, r);
      inodeInd := number - 1;
      isfound := if block[at + 7] != DIRECTORY && SlashFollows(path, token) then -1 else 1;
    }
  }

  /** The walk of check_entries_for_path over one block, for a token of a path. */
  method CheckEntries(block: array<Byte>, token: seq<Byte>, path: seq<Byte>, inodeInd0: int)
    returns (isfound: int, inodeInd: int)
    requires IsDirectory(block[..]) && Occurs(path, token, 0)
    ensures (isfound, inodeInd) == Answer(Entries(block[..]), token, path, inodeInd0)
  {
    ghost var f, whole := View(block[..]), Entries(block[..]);
    ghost var a, rest := [], whole;
    Start(f, whole);
    var curr := 0;
    while curr < BLOCK_SIZE
      invariant curr <= BLOCK_SIZE && Around(f, a, curr, curr, rest) && a + rest == whole
      invariant forall r :: r in a ==> r.name != token
    {
      ghost var r, b, next := Walk(f, a, curr, rest);
      var same, found, ind, len := TryName(block, curr, token, path, r);
      if same {
        AnswerHere(a, r, b, token, path, inodeInd0);
        return found, ind;
      }
      a, rest, curr := a + [r], b, curr + len;
      assert curr == next;
    }
    return 0, inodeInd0;
  }

  lemma AnswerHere(a: seq<Record>, r: Record, b: seq<Record>, token: seq<Byte>, path: seq<Byte>, inodeInd: int)
    requires Occurs(path, token, 0) && r.name == token && forall x :: x in a ==> x.name != token
    ensures Answer(a + [r] + b, token, path, inodeInd) ==
            (if r.kind != DIRECTORY && SlashFollows(path, token) then -1 else 1, r.inode - 1)
  {
    assert a + [r] + b == a + ([r] + b);
    FirstNamedIs(a, [r] + b, token);
    assert (a + [r] + b)[|a|] == r;
  }

  // ---------------------------------------------------------------- create_dir

  /** The first two records of a new directory; `newI` and `parI` are indices of the inode table. */
  method LayDots(block: array<Byte>, newI: nat, parI: nat)
    requires block.Length == BLOCK_SIZE && newI + 1 < 0x1_0000_0000 && parI + 1 < 0x1_0000_0000
    modifies block
    ensures IsDirectory(block[..]) && Entries(block[..]) == Dots(newI + 1, parI + 1)
  {
    var me := RoundUp(HEADER + 1, 4);
    PutRecord(block, 0, newI + 1, me, DIRECTORY, [46]);
    ghost var s := block[..];
    PutRecord(block, me, parI + 1, BLOCK_SIZE - me, DIRECTORY, [46, 46]);
    ghost var f := View(block[..]);
    RecordFrame(s, block[..], 0);
    assert f(0) == Dots(newI + 1, parI + 1)[0] && f(12) == Dots(newI + 1, parI + 1)[1];
    TwoParts(f, 0, 12, BLOCK_SIZE, BLOCK_SIZE);
  }

  /** A block whose records tile it and have different names is what the results about runs start from. */
  lemma DistinctNamesSound(s: seq<Byte>)
    requires IsDirectory(s) && Unique(Entries(s))
    ensures Sound(Entries(s))
  {
    TiledIsPlaced(View(s), 0, BLOCK_SIZE);
  }
}
