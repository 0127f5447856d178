/** Insertion and deletion together: a name is entered and looked up by itself, but deleted by its inode. */
module DirLinks {
  import opened DirRecords

  /** An inode with no record up to the split is found in the new record, and its deletion joins what was split. */
  lemma {:induction false} RemoveJoinsSplit(rs: seq<Record>, inode: nat, kind: Byte, name: seq<Byte>)
    requires SplitAt(rs, name) < |rs| && SplitAt(rs, name) < Holder(rs, inode)
    ensures Remove(Insert(rs, inode, kind, name), inode) == rs
  {
    var r, tail := rs[0], rs[1..];
    assert rs == [r] + tail;
    if Slack(r) < HEADER + |name| {
      RemoveJoinsSplit(tail, inode, kind, name);
      RemoveLater(r, Insert(tail, inode, kind, name), inode);
    }
  }

  /** A record of the inode up to the split is still the first one after it. */
  lemma {:induction false} HolderBeforeSplit(rs: seq<Record>, inode: nat, kind: Byte, name: seq<Byte>)
    requires Holder(rs, inode) <= SplitAt(rs, name) < |rs|
    ensures var k, after := Holder(rs, inode), Insert(rs, inode, kind, name);
            k < |after| && Holder(after, inode) == k && after[k].name == rs[k].name && rs[k].name in Directory(rs)
  {
    if rs[0].inode != inode {
      HolderBeforeSplit(rs[1..], inode, kind, name);
    }
  }

  lemma {:induction false} NewRecordAt(rs: seq<Record>, inode: nat, kind: Byte, name: seq<Byte>)
    requires SplitAt(rs, name) < |rs|
    ensures var k, after := SplitAt(rs, name) + 1, Insert(rs, inode, kind, name);
            k < |after| && after[k].name == Stored(name)
  {
    if Slack(rs[0]) < HEADER + |name| { NewRecordAt(rs[1..], inode, kind, name); }
  }

  lemma NamedAt(rs: seq<Record>, i: nat)
    requires i < |rs|
    ensures rs[i].name in Directory(rs)
  {
    LookupIsDirectory(rs, rs[i].name);
  }

  lemma NewNameBehind(rs: seq<Record>, inode: nat, kind: Byte, name: seq<Byte>, k: nat)
    requires k <= SplitAt(rs, name) < |rs|
    ensures k < |Insert(rs, inode, kind, name)| && Stored(name) in Directory(Insert(rs, inode, kind, name)[k + 1..])
  {
    var after, i := Insert(rs, inode, kind, name), SplitAt(rs, name) + 1;
    NewRecordAt(rs, inode, kind, name);
    var behind := after[k + 1..];
    assert behind[i - (k + 1)] == after[i];
    NamedAt(behind, i - (k + 1));
  }

  lemma {:induction false} OldNameOnce(rs: seq<Record>, inode: nat, kind: Byte, name: seq<Byte>, k: nat)
    requires Unique(rs) && k <= SplitAt(rs, name) < |rs| && rs[k].name != Stored(name)
    ensures var after := Insert(rs, inode, kind, name);
            k < |after| && FirstNamed(after, rs[k].name) == k && rs[k].name !in Directory(after[k + 1..])
  {
    var after, tail := Insert(rs, inode, kind, name), rs[1..];
    if Slack(rs[0]) >= HEADER + |name| {
      assert after[1..] == [NewRecord(inode, kind, name, Slack(rs[0]))] + tail;
    } else {
      assert after[1..] == Insert(tail, inode, kind, name);
      if k == 0 {
        InsertAddsName(tail, inode, kind, name);
      } else {
        OldNameOnce(tail, inode, kind, name, k - 1);
        UniqueAfter(rs, k);
        assert after[k + 1..] == after[1..][k..];
      }
    }
  }

  /** Then the new name stays when that inode is deleted.  The older name goes, unless its record is the first of
      the block or the stored part of the new name is the same. */
  lemma NewNameSurvives(rs: seq<Record>, inode: nat, kind: Byte, name: seq<Byte>)
    requires Holder(rs, inode) <= SplitAt(rs, name) < |rs|
    ensures var k, after := Holder(rs, inode), Directory(Remove(Insert(rs, inode, kind, name), inode));
            && Stored(name) in after
            && (Unique(rs) && k > 0 && rs[k].name != Stored(name) ==> rs[k].name !in after)
  {
    var k := Holder(rs, inode);
    HolderBeforeSplit(rs, inode, kind, name);
    NewNameBehind(rs, inode, kind, name, k);
    RemoveNames(Insert(rs, inode, kind, name), inode);
    if Unique(rs) && rs[k].name != Stored(name) { OldNameOnce(rs, inode, kind, name, k); }
  }

  lemma {:induction false} RemoveJoins(rs: seq<Record>, inode: nat)
    requires 0 < Holder(rs, inode) < |rs|
    ensures var k, after := Holder(rs, inode), Remove(rs, inode);
            |after| == |rs| - 1 && after[k - 1].len == rs[k - 1].len + rs[k].len
  {
    if rs[1].inode != inode { RemoveJoins(rs[1..], inode); }
  }

  /** With a record of the inode up to the split, the deletion does not join what was split. */
  lemma RemoveJoinsOther(rs: seq<Record>, inode: nat, kind: Byte, name: seq<Byte>)
    requires AllPlaced(rs) && Holder(rs, inode) <= SplitAt(rs, name) < |rs|
    ensures Remove(Insert(rs, inode, kind, name), inode) != rs
  {
    var k, after := Holder(rs, inode), Insert(rs, inode, kind, name);
    HolderBeforeSplit(rs, inode, kind, name);
    if k == 0 {
      InsertLengthens(rs, inode, kind, name);
      RemoveNowhere(after, inode);
    } else {
      InsertKeeps(rs, inode, kind, name);
      RemoveJoins(after, inode);
    }
  }

  lemma {:induction false} InsertLengthens(rs: seq<Record>, inode: nat, kind: Byte, name: seq<Byte>)
    requires Fits(rs, name)
    ensures |Insert(rs, inode, kind, name)| == |rs| + 1
  {
    if Slack(rs[0]) < HEADER + |name| {
      InsertLengthens(rs[1..], inode, kind, name);
    }
  }

  /** Deleting the inode of the entry just made gives back the block as it was, slack included, if and only if
      the inode has no record up to the one that was split.  If none was split there is nothing to undo, and the
      deletion must find nothing to remove. */
  lemma RemoveUndoesInsert(rs: seq<Record>, inode: nat, kind: Byte, name: seq<Byte>)
    requires AllPlaced(rs)
    ensures Remove(Insert(rs, inode, kind, name), inode) == rs <==>
            if Fits(rs, name) then SplitAt(rs, name) < Holder(rs, inode)
            else Holder(rs, inode) == 0 || Holder(rs, inode) == |rs|
  {
    if !Fits(rs, name) {
      InsertNowhere(rs, inode, kind, name);
      if 0 < Holder(rs, inode) < |rs| { RemoveJoins(rs, inode); } else { RemoveNowhere(rs, inode); }
    } else if SplitAt(rs, name) < Holder(rs, inode) {
      RemoveJoinsSplit(rs, inode, kind, name);
    } else {
      RemoveJoinsOther(rs, inode, kind, name);
    }
  }

  /** remove_file looks a name up and deletes its inode.  The name is gone afterwards if and only if its record is
      the first of that inode, is not the first of the block, and is the only one of the name. */
  lemma RemovedByNameIff(rs: seq<Record>, q: seq<Byte>)
    requires q in Directory(rs)
    ensures FirstNamed(rs, q) < |rs|
    ensures var inode, k := Directory(rs)[q], FirstNamed(rs, q);
            q !in Directory(Remove(rs, inode)) <==>
              k > 0 && Holder(rs, inode) == k && q !in Directory(rs[k + 1..])
    ensures Unique(rs) ==> q !in Directory(rs[FirstNamed(rs, q) + 1..])
  {
    LookupIsDirectory(rs, q);
    RemoveNames(rs, Directory(rs)[q]);
    if Unique(rs) { UniqueAfter(rs, FirstNamed(rs, q)); }
  }

  /** A directory of inode 2 with the names "a" and "b" for inode 11; 97 and 98 are the letters. */
  const TWO_LINKS: seq<Record> :=
    [Record(2, 12, DIRECTORY, [46]), Record(2, 12, DIRECTORY, [46, 46]),
     Record(11, 12, REG_FILE, [97]), Record(11, 988, REG_FILE, [98])]

  /** There, removing "b" removes "a". */
  lemma WrongLinkRemoved()
    ensures Sound(TWO_LINKS) && Directory(TWO_LINKS) == map[[46] := 2, [46, 46] := 2, [97] := 11, [98] := 11]
    ensures Directory(Remove(TWO_LINKS, 11)) == map[[46] := 2, [46, 46] := 2, [98] := 11]
  {
    var rs := TWO_LINKS;
    assert rs[1..][1..] == [rs[2]] + [rs[3]] + [];
    TwoInFront(rs[2], rs[3], []);
    assert |rs[0].name| == 1 && |rs[1].name| == 2 && rs[2].name[0] == 97 && rs[3].name[0] == 98 && rs[0].name[0] == 46;
  }

  /** The first record of a block cannot be removed: here "." stays. */
  lemma FirstRecordKept(self: nat, parent: nat)
    ensures Remove(Dots(self, parent), self) == Dots(self, parent)
    ensures Holder(Dots(self, parent), self) == 0 && [46] in Directory(Dots(self, parent))
  {
    DotsSound(self, parent);
  }
}
