/** The records of an ext2 directory block, in the order in which they lie in it: what create_entry and
    delete_entry do to them and to the names that can be looked up. */
module DirRecords {
  import opened BlockLayout

  const BLOCK_SIZE := 1024
  const HEADER := 8
  const REG_FILE := 1
  const DIRECTORY := 2
  const SYMLINK := 7

  /** unsigned char */
  type Byte = x: int | 0 <= x < 256

  datatype Record = Record(inode: nat, len: nat, kind: Byte, name: seq<Byte>)

  /** round_up: the least multiple of `mult` not below `num` */
  function RoundUp(num: nat, mult: nat): (r: nat)
    requires mult > 0
    ensures num <= r < num + mult && r % mult == 0
  {
    var r := num % mult;
    if r == 0 then num
    else
      Digits(num / mult + 1, mult, 0);
      assert num + mult - r == (num / mult + 1) * mult;
      num + mult - r
  }

  /** The bytes a record needs for itself: the least multiple of 4 that covers its header and name. */
  function Size(r: Record): (n: nat)
    ensures n % 4 == 0 && 8 + |r.name| <= n < 12 + |r.name|
  {
    RoundUp(HEADER + |r.name|, 4)
  }

  /** The bytes after it that it could give away. */
  function Slack(r: Record): int { r.len - Size(r) }

  predicate Placed(r: Record) {
    r.len % 4 == 0 && HEADER + |r.name| <= r.len && |r.name| < 256
  }

  function Total(rs: seq<Record>): nat {
    if rs == [] then 0 else rs[0].len + Total(rs[1..])
  }

  predicate AllPlaced(rs: seq<Record>) {
    rs == [] || (Placed(rs[0]) && AllPlaced(rs[1..]))
  }

  /** The names that a lookup from the start of the block finds, with their inode numbers. */
  function Directory(rs: seq<Record>): map<seq<Byte>, nat> {
    if rs == [] then map[] else Directory(rs[1..])[rs[0].name := rs[0].inode]
  }

  /** No name is there twice. */
  predicate Unique(rs: seq<Record>) {
    rs == [] || (rs[0].name !in Directory(rs[1..]) && Unique(rs[1..]))
  }

  /** What every directory block keeps: its records tile it, each is aligned and covers its name, and no name
      is there twice. */
  predicate Sound(rs: seq<Record>) {
    |rs| > 0 && AllPlaced(rs) && Total(rs) == BLOCK_SIZE && Unique(rs)
  }

  // ---------------------------------------------------------------- the two updates

  /** The first record of an inode. */
  function Holder(rs: seq<Record>, inode: nat): (k: nat)
    ensures k <= |rs| && (k < |rs| ==> rs[k].inode == inode) && forall i :: 0 <= i < k ==> rs[i].inode != inode
  {
    if rs == [] || rs[0].inode == inode then 0 else 1 + Holder(rs[1..], inode)
  }

  /** The part of a name that the one-byte length field leaves. */
  function Stored(name: seq<Byte>): (s: seq<Byte>)
    ensures |s| < 256 && (s == name <==> |name| < 256)
  {
    name[..|name| % 256]
  }

  function NewRecord(inode: nat, kind: Byte, name: seq<Byte>, slack: nat): Record {
    Record(inode, slack, kind, Stored(name))
  }

  /** The first record with slack for the whole name is cut down to its size, and the new one gets the rest. */
  function Insert(rs: seq<Record>, inode: nat, kind: Byte, name: seq<Byte>): seq<Record> {
    if rs == [] then []
    else if Slack(rs[0]) >= HEADER + |name| then
      [rs[0].(len := Size(rs[0]))] + [NewRecord(inode, kind, name, Slack(rs[0]))] + rs[1..]
    else [rs[0]] + Insert(rs[1..], inode, kind, name)
  }

  /** The first record of the inode becomes slack of the one before; the first of the block stays. */
  function Remove(rs: seq<Record>, inode: nat): seq<Record> {
    if |rs| < 2 || rs[0].inode == inode then rs
    else if rs[1].inode == inode then [rs[0].(len := rs[0].len + rs[1].len)] + rs[2..]
    else [rs[0]] + Remove(rs[1..], inode)
  }

  predicate Fits(rs: seq<Record>, name: seq<Byte>) {
    exists i :: 0 <= i < |rs| && Slack(rs[i]) >= HEADER + |name|
  }

  // ---------------------------------------------------------------- where the updates act

  /** Insertion splits the first record with slack. */
  lemma {:induction false} InsertIs(a: seq<Record>, r: Record, b: seq<Record>, inode: nat, kind: Byte, name: seq<Byte>)
    requires (forall x :: x in a ==> Slack(x) < HEADER + |name|) && Slack(r) >= HEADER + |name|
    ensures Insert(a + [r] + b, inode, kind, name) ==
            a + [r.(len := Size(r))] + [NewRecord(inode, kind, name, Slack(r))] + b
  {
    var rs := a + [r] + b;
    if a == [] {
      assert rs[0] == r && rs[1..] == b;
      assert a + [r.(len := Size(r))] == [r.(len := Size(r))];
    } else {
      assert a[0] in a;
      InsertIs(a[1..], r, b, inode, kind, name);
      assert rs[1..] == a[1..] + [r] + b;
    }
  }

  lemma {:induction false} InsertNowhere(rs: seq<Record>, inode: nat, kind: Byte, name: seq<Byte>)
    requires forall x :: x in rs ==> Slack(x) < HEADER + |name|
    ensures !Fits(rs, name) && Insert(rs, inode, kind, name) == rs
  {
    if rs != [] {
      assert rs[0] in rs;
      InsertNowhere(rs[1..], inode, kind, name);
      assert [rs[0]] + rs[1..] == rs;
    }
  }

  /** Removal joins a record to the one before. */
  lemma {:induction false} RemoveIs(a: seq<Record>, p: Record, r: Record, b: seq<Record>)
    requires p.inode != r.inode && forall x :: x in a ==> x.inode != r.inode
    ensures Remove(a + [p] + [r] + b, r.inode) == a + [p.(len := p.len + r.len)] + b
  {
    var rs := a + [p] + [r] + b;
    if a == [] {
      assert rs[0] == p && rs[1] == r && rs[2..] == b;
      assert a + [p.(len := p.len + r.len)] == [p.(len := p.len + r.len)];
    } else {
      assert a[0] in a;
      RemoveIs(a[1..], p, r, b);
      assert rs[1..] == a[1..] + [p] + [r] + b;
      assert |a| > 1 ==> a[1] in a;
      assert rs[1].inode != r.inode;
      assert [a[0]] + (a[1..] + [p.(len := p.len + r.len)] + b) == a + [p.(len := p.len + r.len)] + b;
    }
  }

  lemma {:induction false} HolderIs(a: seq<Record>, b: seq<Record>, inode: nat)
    requires (forall x :: x in a ==> x.inode != inode) && (b == [] || b[0].inode == inode)
    ensures Holder(a + b, inode) == |a|
  {
    if a == [] {
      assert a + b == b;
    } else {
      assert a[0] in a;
      HolderIs(a[1..], b, inode);
      assert (a + b)[1..] == a[1..] + b;
    }
  }

  lemma {:induction false} RemoveNowhere(rs: seq<Record>, inode: nat)
    requires Holder(rs, inode) == 0 || Holder(rs, inode) == |rs|
    ensures Remove(rs, inode) == rs
  {
    if |rs| >= 2 && rs[0].inode != inode {
      assert Holder(rs[1..], inode) == |rs[1..]|;
      RemoveNowhere(rs[1..], inode);
      assert [rs[0]] + rs[1..] == rs;
    }
  }

  // ---------------------------------------------------------------- lookup

  /** The first record of a name: the one a lookup stops at. */
  function FirstNamed(rs: seq<Record>, q: seq<Byte>): (k: nat)
    ensures k <= |rs| && (k < |rs| ==> rs[k].name == q) && forall i :: 0 <= i < k ==> rs[i].name != q
  {
    if rs == [] || rs[0].name == q then 0 else 1 + FirstNamed(rs[1..], q)
  }

  /** What a lookup finds. */
  lemma {:induction false} LookupIsDirectory(rs: seq<Record>, q: seq<Byte>)
    ensures q in Directory(rs) <==> FirstNamed(rs, q) < |rs|
    ensures q in Directory(rs) ==> Directory(rs)[q] == rs[FirstNamed(rs, q)].inode
  {
    if rs != [] { LookupIsDirectory(rs[1..], q); }
  }

  lemma {:induction false} FirstNamedIs(a: seq<Record>, b: seq<Record>, q: seq<Byte>)
    requires (forall x :: x in a ==> x.name != q) && (b == [] || b[0].name == q)
    ensures FirstNamed(a + b, q) == |a|
  {
    if a == [] {
      assert a + b == b;
    } else {
      assert a[0] in a;
      FirstNamedIs(a[1..], b, q);
      assert (a + b)[1..] == a[1..] + b;
    }
  }

  /** A record of the name with that inode is there, if not necessarily the first of the name. */
  predicate HasRecord(rs: seq<Record>, q: seq<Byte>, inode: nat) {
    rs != [] && ((rs[0].name == q && rs[0].inode == inode) || HasRecord(rs[1..], q, inode))
  }

  lemma {:induction false} DirectoryRecords(rs: seq<Record>, q: seq<Byte>)
    ensures q in Directory(rs) ==> HasRecord(rs, q, Directory(rs)[q])
    ensures Unique(rs) ==> forall n: nat :: HasRecord(rs, q, n) ==> q in Directory(rs) && Directory(rs)[q] == n
    ensures forall n: nat :: HasRecord(rs, q, n) ==> q in Directory(rs)
  {
    if rs != [] { DirectoryRecords(rs[1..], q); }
  }

  lemma {:induction false} UniqueAfter(rs: seq<Record>, k: nat)
    requires Unique(rs) && k < |rs|
    ensures rs[k].name !in Directory(rs[k + 1..]) && FirstNamed(rs, rs[k].name) == k
  {
    if k > 0 {
      UniqueAfter(rs[1..], k - 1);
      LookupIsDirectory(rs[1..], rs[0].name);
      assert rs[1..][k..] == rs[k + 1..];
      assert rs[1..][k - 1] == rs[k];
    }
  }

  /** The "." and ".." records that create_dir lays out; 46 is '.'. */
  function Dots(self: nat, parent: nat): seq<Record> {
    [Record(self, 12, DIRECTORY, [46]), Record(parent, 1012, DIRECTORY, [46, 46])]
  }

  lemma DotsSound(self: nat, parent: nat)
    ensures Sound(Dots(self, parent)) && Directory(Dots(self, parent)) == map[[46] := self, [46, 46] := parent]
    ensures |Dots(self, parent)| == 2 && Dots(self, parent)[0].len == 12 && Dots(self, parent)[1].len == 1024 - 12
    ensures Dots(self, parent)[0].kind == Dots(self, parent)[1].kind == 2
  {
    var a, b := Dots(self, parent)[0], Dots(self, parent)[1];
    assert Dots(self, parent) == [a] + [b] + [];
    TwoInFront(a, b, []);
    assert |a.name| == 1 && |b.name| == 2;
  }

  // ---------------------------------------------------------------- one insertion

  /** The index of the first record with slack for the name. */
  function SplitAt(rs: seq<Record>, name: seq<Byte>): (k: nat)
    ensures k <= |rs| && (k < |rs| ==> Slack(rs[k]) >= HEADER + |name|)
    ensures forall i :: 0 <= i < k ==> Slack(rs[i]) < HEADER + |name|
    ensures Fits(rs, name) <==> k < |rs|
  {
    if rs == [] || Slack(rs[0]) >= HEADER + |name| then 0
    else
      1 + SplitAt(rs[1..], name)
  }

  /** What insertion does to the names, whatever they are: the stored part of the name gets the inode unless an
      earlier record, up to the one that is split, has that name. */
  lemma {:induction false} InsertAddsName(rs: seq<Record>, inode: nat, kind: Byte, name: seq<Byte>)
    ensures Directory(Insert(rs, inode, kind, name)) ==
            if Fits(rs, name) && SplitAt(rs, name) < FirstNamed(rs, Stored(name))
            then Directory(rs)[Stored(name) := inode] else Directory(rs)
  {
    if rs != [] {
      var r, tail, q := rs[0], rs[1..], Stored(name);
      if Slack(r) >= HEADER + |name| {
        TwoInFront(r.(len := Size(r)), NewRecord(inode, kind, name, Slack(r)), tail);
        Reorder(Directory(tail), q, inode, r.name, r.inode);
      } else {
        InsertAddsName(tail, inode, kind, name);
        Reorder(Directory(tail), q, inode, r.name, r.inode);
      }
    }
  }

  lemma Reorder(d: map<seq<Byte>, nat>, q: seq<Byte>, n: nat, p: seq<Byte>, m: nat)
    ensures d[q := n][p := m] == if q == p then d[p := m] else d[p := m][q := n]
  {
  }

  lemma TwoInFront(x: Record, y: Record, b: seq<Record>)
    ensures Directory([x] + [y] + b) == Directory(b)[y.name := y.inode][x.name := x.inode]
    ensures Total([x] + [y] + b) == x.len + y.len + Total(b)
    ensures AllPlaced([x] + [y] + b) <==> Placed(x) && Placed(y) && AllPlaced(b)
    ensures Unique([x] + [y] + b) <==>
            y.name !in Directory(b) && x.name !in Directory(b) && x.name != y.name && Unique(b)
  {
    assert ([x] + [y] + b)[1..] == [y] + b;
  }

  lemma LongIsAbsent(rs: seq<Record>, name: seq<Byte>)
    requires AllPlaced(rs) && |name| >= 256
    ensures name !in Directory(rs)
  {
    if rs != [] { LongIsAbsent(rs[1..], name); }
  }

  /** The created name can be looked up exactly if its length fits the length field. */
  lemma CreatedIffShort(rs: seq<Record>, inode: nat, kind: Byte, name: seq<Byte>)
    requires Sound(rs) && Fits(rs, name)
    ensures name in Directory(Insert(rs, inode, kind, name)) <==> |name| < 256
  {
    InsertAddsName(rs, inode, kind, name);
    LookupIsDirectory(rs, Stored(name));
    if |name| >= 256 { LongIsAbsent(rs, name); }
  }

  /** Whether another name found before keeps its inode: insertion takes it away exactly if the stored part of the
      new name is that name and lands in front of its record. */
  lemma KeptIffNotShadowed(rs: seq<Record>, inode: nat, kind: Byte, name: seq<Byte>, q: seq<Byte>)
    requires q in Directory(rs)
    ensures var d := Directory(Insert(rs, inode, kind, name));
            && q in d
            && (d[q] == Directory(rs)[q] <==> !Shadows(rs, name, q) || inode == Directory(rs)[q])
  {
    InsertAddsName(rs, inode, kind, name);
  }

  /** The name is entered and its stored part is `q`, in front of any record of `q`. */
  predicate Shadows(rs: seq<Record>, name: seq<Byte>, q: seq<Byte>) {
    Stored(name) == q && Fits(rs, name) && SplitAt(rs, name) < FirstNamed(rs, q)
  }

  lemma HalvesPlaced(r: Record, inode: nat, kind: Byte, name: seq<Byte>)
    requires Placed(r) && Slack(r) >= HEADER + |name|
    ensures Placed(r.(len := Size(r))) && Placed(NewRecord(inode, kind, name, Slack(r)))
  {
  }

  /** Tiling, alignment and cover are kept by every insertion. */
  lemma {:induction false} InsertKeeps(rs: seq<Record>, inode: nat, kind: Byte, name: seq<Byte>)
    requires AllPlaced(rs)
    ensures AllPlaced(Insert(rs, inode, kind, name)) && Total(Insert(rs, inode, kind, name)) == Total(rs)
  {
    if rs != [] {
      if Slack(rs[0]) >= HEADER + |name| {
        HalvesPlaced(rs[0], inode, kind, name);
        TwoInFront(rs[0].(len := Size(rs[0])), NewRecord(inode, kind, name, Slack(rs[0])), rs[1..]);
      } else {
        InsertKeeps(rs[1..], inode, kind, name);
      }
    }
  }

  lemma {:induction false} InsertUniqueIff(rs: seq<Record>, inode: nat, kind: Byte, name: seq<Byte>)
    requires Unique(rs)
    ensures Unique(Insert(rs, inode, kind, name)) <==> !Fits(rs, name) || Stored(name) !in Directory(rs)
  {
    if rs != [] {
      if Slack(rs[0]) >= HEADER + |name| {
        TwoInFront(rs[0].(len := Size(rs[0])), NewRecord(inode, kind, name, Slack(rs[0])), rs[1..]);
      } else {
        InsertUniqueIff(rs[1..], inode, kind, name);
        InsertAddsName(rs[1..], inode, kind, name);
        LookupIsDirectory(rs[1..], Stored(name));
      }
    }
  }

  /** A sound block stays sound if and only if nothing is entered or the stored part of the name is new. */
  lemma InsertSoundIff(rs: seq<Record>, inode: nat, kind: Byte, name: seq<Byte>)
    requires Sound(rs)
    ensures Sound(Insert(rs, inode, kind, name)) <==> !Fits(rs, name) || Stored(name) !in Directory(rs)
  {
    InsertKeeps(rs, inode, kind, name);
    InsertUniqueIff(rs, inode, kind, name);
  }

  /** A name of 256 characters is entered and lost. */
  lemma LongNameLost(self: nat, parent: nat, inode: nat)
    ensures var rs, name: seq<Byte> := Dots(self, parent), seq(256, _ => 97);
            && Sound(rs) && Fits(rs, name) && name !in Directory(rs)
            && name !in Directory(Insert(rs, inode, REG_FILE, name))
  {
    var rs, name: seq<Byte> := Dots(self, parent), seq(256, _ => 97);
    DotsSound(self, parent);
    assert Slack(rs[1]) >= HEADER + |name|;
    CreatedIffShort(rs, inode, REG_FILE, name);
    LongIsAbsent(rs, name);
  }

  /** A directory with the file "a" of inode 11 and room in front of it; 97 is 'a'. */
  const ROOM_IN_FRONT: seq<Record> :=
    [Record(2, 12, DIRECTORY, [46]), Record(2, 600, DIRECTORY, [46, 46]), Record(11, 412, REG_FILE, [97])]

  lemma RoomInFrontSound()
    ensures Sound(ROOM_IN_FRONT) && Directory(ROOM_IN_FRONT) == map[[46] := 2, [46, 46] := 2, [97] := 11]
    ensures FirstNamed(ROOM_IN_FRONT, [97]) == 2
  {
    var rs := ROOM_IN_FRONT;
    assert rs == [rs[0]] + [rs[1]] + [rs[2]];
    TwoInFront(rs[0], rs[1], [rs[2]]);
    assert [rs[2]][1..] == [];
    assert |rs[0].name| == 1 && |rs[1].name| == 2 && rs[0].name[0] != rs[2].name[0];
  }

  const LONG_NAME: seq<Byte> := seq(257, _ => 97)

  /** A name of 257 characters is not found there and is entered, and the file "a" is another one from then on. */
  lemma LongNameShadows(inode: nat)
    ensures Sound(ROOM_IN_FRONT) && LONG_NAME !in Directory(ROOM_IN_FRONT)
    ensures [97] in Directory(ROOM_IN_FRONT) && Directory(ROOM_IN_FRONT)[[97]] == 11
    ensures var after := Insert(ROOM_IN_FRONT, inode, REG_FILE, LONG_NAME);
            && !Sound(after) && LONG_NAME !in Directory(after)
            && [97] in Directory(after) && Directory(after)[[97]] == inode
  {
    RoomInFrontSound();
    InsertAddsName(ROOM_IN_FRONT, inode, REG_FILE, LONG_NAME);
    InsertSoundIff(ROOM_IN_FRONT, inode, REG_FILE, LONG_NAME);
    CreatedIffShort(ROOM_IN_FRONT, inode, REG_FILE, LONG_NAME);
    LongIsAbsent(ROOM_IN_FRONT, LONG_NAME);
  }

  // ---------------------------------------------------------------- one removal

  /** The names without record `k`: those of its name that come before it or after it are found instead. */
  function NamesWithout(rs: seq<Record>, k: nat): map<seq<Byte>, nat>
    requires k < |rs|
  {
    var q := rs[k].name;
    if FirstNamed(rs, q) < k then Directory(rs)
    else if q in Directory(rs[k + 1..]) then Directory(rs)[q := Directory(rs[k + 1..])[q]]
    else Directory(rs) - {q}
  }

  /** What removal does to the names, whatever they are. */
  lemma {:induction false} RemoveNames(rs: seq<Record>, inode: nat)
    ensures var k := Holder(rs, inode);
            Directory(Remove(rs, inode)) == if k == 0 || k == |rs| then Directory(rs) else NamesWithout(rs, k)
  {
    var k := Holder(rs, inode);
    if k == 0 || k == |rs| {
      RemoveNowhere(rs, inode);
    } else {
      var r, tail := rs[0], rs[1..];
      assert rs == [r] + tail;
      if k == 1 {
        assert tail == [tail[0]] + tail[1..] && rs == [r] + [tail[0]] + tail[1..];
        WithoutSecond(r, tail[0], tail[1..]);
      } else {
        RemoveNames(tail, inode);
        RemoveLater(r, tail, inode);
        WithoutLater(rs, k);
      }
    }
  }

  lemma WithoutSecond(p: Record, r: Record, b: seq<Record>)
    ensures NamesWithout([p] + [r] + b, 1) == Directory(b)[p.name := p.inode]
  {
    var rs := [p] + [r] + b;
    assert rs[2..] == b && rs[1] == r && rs[0] == p;
    TwoInFront(p, r, b);
  }

  lemma WithoutLater(rs: seq<Record>, k: nat)
    requires 0 < k < |rs|
    ensures NamesWithout(rs, k) == NamesWithout(rs[1..], k - 1)[rs[0].name := rs[0].inode]
  {
    assert rs[1..][k..] == rs[k + 1..];
    LookupIsDirectory(rs[1..], rs[k].name);
  }

  /** With no name there twice, the name of the removed record goes and nothing else changes. */
  lemma RemoveDropsName(rs: seq<Record>, inode: nat)
    requires Unique(rs)
    ensures var k := Holder(rs, inode);
            if k == 0 || k == |rs| then Directory(Remove(rs, inode)) == Directory(rs)
            else
              && rs[k].name in Directory(rs) && Directory(rs)[rs[k].name] == inode
              && Directory(Remove(rs, inode)) == Directory(rs) - {rs[k].name}
  {
    var k := Holder(rs, inode);
    RemoveNames(rs, inode);
    if k < |rs| {
      UniqueAfter(rs, k);
      LookupIsDirectory(rs, rs[k].name);
    }
  }

  /** Tiling, alignment, cover and the first record are kept by every removal. */
  lemma {:induction false} RemoveKeeps(rs: seq<Record>, inode: nat)
    ensures var after := Remove(rs, inode);
            && (AllPlaced(rs) ==> AllPlaced(after)) && Total(after) == Total(rs)
            && (rs != [] ==> after != [] && after[0].name == rs[0].name && after[0].inode == rs[0].inode)
  {
    if |rs| >= 2 && rs[0].inode != inode {
      if rs[1].inode == inode {
        assert rs == [rs[0]] + [rs[1]] + rs[2..];
        TwoInFront(rs[0], rs[1], rs[2..]);
      } else {
        RemoveKeeps(rs[1..], inode);
      }
    }
  }

  /** Distinct names are kept. */
  lemma {:induction false} RemoveKeepsUnique(rs: seq<Record>, inode: nat)
    requires Unique(rs)
    ensures Unique(Remove(rs, inode))
  {
    if |rs| >= 2 && rs[0].inode != inode {
      var r, tail := rs[0], rs[1..];
      if tail[0].inode == inode {
        assert rs == [r] + [tail[0]] + tail[1..];
        TwoInFront(r, tail[0], tail[1..]);
        assert tail[1..] == rs[2..];
      } else {
        RemoveKeepsUnique(tail, inode);
        RemoveDropsName(tail, inode);
        RemoveLater(r, tail, inode);
      }
    }
  }

  lemma RemoveKeepsSound(rs: seq<Record>, inode: nat)
    requires Sound(rs)
    ensures Sound(Remove(rs, inode))
  {
    RemoveKeeps(rs, inode);
    RemoveKeepsUnique(rs, inode);
  }

  lemma RemoveLater(r: Record, tail: seq<Record>, inode: nat)
    requires r.inode != inode && (tail != [] ==> tail[0].inode != inode)
    ensures Remove([r] + tail, inode) == [r] + Remove(tail, inode)
  {
    assert ([r] + tail)[1..] == tail;
  }
}
