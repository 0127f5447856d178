/** Directory blocks in numbers: where a name fits, what insertion and deletion do there by position, and what a lookup
    makes of the type byte. */
module DirLayout {
  import opened DirRecords
  import opened DirBlocks

  // ---------------------------------------------------------------- insertion and deletion

  /** With its first `m` bytes the record keeps its own header and name, aligned, and what is left of it is enough for
      a header and a name of `n` bytes. */
  predicate Room(r: Record, n: nat, m: nat) {
    m % 4 == 0 && 8 + |r.name| <= m && m + 8 + n <= r.len
  }

  lemma RoomIsSlack(r: Record, n: nat, m: nat)
    ensures Slack(r) >= HEADER + n ==> Room(r, n, Size(r)) && Size(r) < 12 + |r.name|
    ensures Room(r, n, m) ==> Slack(r) >= HEADER + n
  {
  }

  /** A name fits if and only if some record has room for it. */
  lemma FitsIffRoom(rs: seq<Record>, name: seq<Byte>)
    ensures Fits(rs, name) <==> exists i, m :: 0 <= i < |rs| && Room(rs[i], |name|, m)
  {
    if i, m :| 0 <= i < |rs| && Room(rs[i], |name|, m) {
      RoomIsSlack(rs[i], |name|, m);
    }
    if i :| 0 <= i < |rs| && Slack(rs[i]) >= HEADER + |name| {
      RoomIsSlack(rs[i], |name|, 0);
    }
  }

  /** The first record with room keeps the least aligned number of bytes that holds its header and name.  The rest is
      the new record, with the type given and the name cut to its length modulo 256; all others stay. */
  lemma InsertSplits(rs: seq<Record>, inode: nat, kind: Byte, name: seq<Byte>) returns (k: nat, m: nat)
    requires Fits(rs, name)
    ensures k < |rs| && Room(rs[k], |name|, m) && m < 12 + |rs[k].name|
    ensures forall i, x :: 0 <= i < k ==> !Room(rs[i], |name|, x)
    ensures Insert(rs, inode, kind, name) ==
            rs[..k] + [rs[k].(len := m)] + [Record(inode, rs[k].len - m, kind, name[..|name| % 256])] + rs[k + 1..]
  {
    k := SplitAt(rs, name);
    m := Size(rs[k]);
    RoomIsSlack(rs[k], |name|, m);
    forall i, x | 0 <= i < k
      ensures !Room(rs[i], |name|, x)
    {
      if Room(rs[i], |name|, x) { RoomIsSlack(rs[i], |name|, x); }
    }
    assert rs == rs[..k] + [rs[k]] + rs[k + 1..];
    InsertIs(rs[..k], rs[k], rs[k + 1..], inode, kind, name);
  }

  lemma AroundTwo(rs: seq<Record>, k: nat)
    requires 0 < k < |rs|
    ensures rs == rs[..k - 1] + [rs[k - 1]] + [rs[k]] + rs[k + 1..]
  {
  }

  /** The first record of the inode, if it is not the first of the block, becomes a part of the one before it; else
      nothing changes. */
  lemma RemoveMerges(rs: seq<Record>, inode: nat, k: nat)
    requires k <= |rs| && (forall i :: 0 <= i < k ==> rs[i].inode != inode) && (k < |rs| ==> rs[k].inode == inode)
    ensures Remove(rs, inode) ==
            if k == 0 || k == |rs| then rs
            else rs[..k - 1] + [rs[k - 1].(len := rs[k - 1].len + rs[k].len)] + rs[k + 1..]
  {
    assert rs == rs[..k] + rs[k..];
    HolderIs(rs[..k], rs[k..], inode);
    if k == 0 || k == |rs| {
      RemoveNowhere(rs, inode);
    } else {
      AroundTwo(rs, k);
      RemoveIs(rs[..k - 1], rs[k - 1], rs[k], rs[k + 1..]);
    }
  }

  // ---------------------------------------------------------------- lookup

  /** The first place where the token occurs in the path. */
  predicate FirstAt(path: seq<Byte>, token: seq<Byte>, i: nat) {
    OccursAt(path, token, i) && forall k: nat :: k < i ==> !OccursAt(path, token, k)
  }

  /** What the walk returns when record `k` is the first of the name: 1 for a directory, which has type 2, on every
      path; for any other type -1 if a slash, character 47, follows the first place of the name in the path. */
  lemma AnswerByType(rs: seq<Record>, token: seq<Byte>, path: seq<Byte>, inodeInd: int, k: nat, i: nat)
    requires k < |rs| && rs[k].name == token && forall j :: 0 <= j < k ==> rs[j].name != token
    requires FirstAt(path, token, i)
    ensures Occurs(path, token, 0)
    ensures var end := i + |token|;
            Answer(rs, token, path, inodeInd) ==
            (if rs[k].kind != 2 && end < |path| && path[end] == 47 then -1 else 1, rs[k].inode - 1)
  {
    assert rs == rs[..k] + rs[k..];
    FirstNamedIs(rs[..k], rs[k..], token);
    assert StrStr(path, token, 0) == i;
  }

  /** A new directory: "." takes 12 bytes and ".." the rest of the 1024, both have type 2, and both are found as
      directories on every path. */
  lemma DotsFound(self: nat, parent: nat, token: seq<Byte>, path: seq<Byte>, inodeInd: int)
    requires Occurs(path, token, 0)
    ensures Dots(self, parent) == [Record(self, 12, 2, [46]), Record(parent, 1024 - 12, 2, [46, 46])]
    ensures token == [46] ==> Answer(Dots(self, parent), token, path, inodeInd) == (1, self - 1)
    ensures token == [46, 46] ==> Answer(Dots(self, parent), token, path, inodeInd) == (1, parent - 1)
    ensures token != [46] && token != [46, 46] ==> Answer(Dots(self, parent), token, path, inodeInd) == (0, inodeInd)
  {
    var rs, i := Dots(self, parent), StrStr(path, token, 0);
    assert |rs[0].name| == 1 && |rs[1].name| == 2;
    if token == [46] {
      AnswerByType(rs, token, path, inodeInd, 0, i);
    } else if token == [46, 46] {
      AnswerByType(rs, token, path, inodeInd, 1, i);
    }
  }
}
