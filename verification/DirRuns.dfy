/** Runs of insertions and deletions in an ext2 directory block: what stays sound, which names stay, and where those
    found come from. */
module DirRuns {
  import opened DirRecords

  /** A call that reaches the block: create_entry with the number of an inode, or delete_entry with it. */
  datatype Op = Create(inode: nat, kind: Byte, name: seq<Byte>) | Delete(inode: nat)

  function Apply(rs: seq<Record>, op: Op): seq<Record> {
    match op
    case Create(inode, kind, name) => Insert(rs, inode, kind, name)
    case Delete(inode) => Remove(rs, inode)
  }

  function After(rs: seq<Record>, ops: seq<Op>): seq<Record>
    decreases ops
  {
    if ops == [] then rs else After(Apply(rs, ops[0]), ops[1..])
  }

  /** Every name to be created is one that a lookup does not find, which is what the callers test. */
  predicate NewNames(rs: seq<Record>, ops: seq<Op>)
    decreases ops
  {
    ops == [] || ((ops[0].Create? ==> ops[0].name !in Directory(rs)) && NewNames(Apply(rs, ops[0]), ops[1..]))
  }

  /** Every name that is entered is, in the part that is stored, one that a lookup does not find. */
  predicate NewStored(rs: seq<Record>, ops: seq<Op>)
    decreases ops
  {
    ops == [] ||
    ((ops[0].Create? && Fits(rs, ops[0].name) ==> Stored(ops[0].name) !in Directory(rs))
     && NewStored(Apply(rs, ops[0]), ops[1..]))
  }

  predicate ShortNames(ops: seq<Op>) {
    forall i :: 0 <= i < |ops| && ops[i].Create? ==> |ops[i].name| < 256
  }

  /** The block is sound before, between and after the calls. */
  predicate SoundThroughout(rs: seq<Record>, ops: seq<Op>)
    decreases ops
  {
    Sound(rs) && (ops == [] || SoundThroughout(Apply(rs, ops[0]), ops[1..]))
  }

  /** A run keeps the block sound throughout if and only if the stored parts of the names entered are new. */
  lemma {:induction false} RunSoundIff(rs: seq<Record>, ops: seq<Op>)
    requires Sound(rs)
    ensures SoundThroughout(rs, ops) <==> NewStored(rs, ops)
    decreases ops
  {
    if ops != [] {
      var op, next := ops[0], Apply(rs, ops[0]);
      if op.Create? { InsertSoundIff(rs, op.inode, op.kind, op.name); } else { RemoveKeepsSound(rs, op.inode); }
      if Sound(next) { RunSoundIff(next, ops[1..]); }
    }
  }

  /** For names shorter than 256 characters the callers' test is enough. */
  lemma {:induction false} ShortNamesStored(rs: seq<Record>, ops: seq<Op>)
    requires NewNames(rs, ops) && ShortNames(ops)
    ensures NewStored(rs, ops)
    decreases ops
  {
    if ops != [] { ShortNamesStored(Apply(rs, ops[0]), ops[1..]); }
  }

  lemma {:induction false} EndOfSound(rs: seq<Record>, ops: seq<Op>)
    requires SoundThroughout(rs, ops)
    ensures Sound(After(rs, ops))
    decreases ops
  {
    if ops != [] { EndOfSound(Apply(rs, ops[0]), ops[1..]); }
  }

  lemma RunKeepsSound(rs: seq<Record>, ops: seq<Op>)
    requires Sound(rs) && NewNames(rs, ops) && ShortNames(ops)
    ensures SoundThroughout(rs, ops) && Sound(After(rs, ops))
  {
    ShortNamesStored(rs, ops);
    RunSoundIff(rs, ops);
    EndOfSound(rs, ops);
  }

  /** The names after a call, whatever they are before. */
  function Told(rs: seq<Record>, op: Op): map<seq<Byte>, nat> {
    match op
    case Create(inode, _, name) =>
      if Shadows(rs, name, Stored(name)) then Directory(rs)[Stored(name) := inode] else Directory(rs)
    case Delete(inode) =>
      var k := Holder(rs, inode);
      if k == 0 || k == |rs| then Directory(rs) else NamesWithout(rs, k)
  }

  lemma ApplyDirectory(rs: seq<Record>, op: Op)
    ensures Directory(Apply(rs, op)) == Told(rs, op)
  {
    if op.Create? { InsertAddsName(rs, op.inode, op.kind, op.name); } else { RemoveNames(rs, op.inode); }
  }

  /** No name entered on the way takes the place of `q`. */
  predicate Unshadowed(rs: seq<Record>, ops: seq<Op>, q: seq<Byte>)
    decreases ops
  {
    ops == [] || ((ops[0].Create? ==> !Shadows(rs, ops[0].name, q)) && Unshadowed(Apply(rs, ops[0]), ops[1..], q))
  }

  /** One call leaves a name that is found as it is, unless it deletes its inode or shadows the name. */
  lemma ApplyKeepsName(rs: seq<Record>, op: Op, q: seq<Byte>)
    requires q in Directory(rs) && op != Delete(Directory(rs)[q]) && (op.Create? ==> !Shadows(rs, op.name, q))
    ensures q in Directory(Apply(rs, op)) && Directory(Apply(rs, op))[q] == Directory(rs)[q]
  {
    if op.Create? {
      KeptIffNotShadowed(rs, op.inode, op.kind, op.name, q);
    }
  }

  /** A name keeps its inode over every run that does not delete that inode or shadow the name. */
  lemma {:induction false} NameStays(rs: seq<Record>, ops: seq<Op>, q: seq<Byte>)
    requires q in Directory(rs) && Delete(Directory(rs)[q]) !in ops && Unshadowed(rs, ops, q)
    ensures q in Directory(After(rs, ops)) && Directory(After(rs, ops))[q] == Directory(rs)[q]
    decreases ops
  {
    if ops != [] {
      ApplyKeepsName(rs, ops[0], q);
      NameStays(Apply(rs, ops[0]), ops[1..], q);
    }
  }

  /** New names shorter than 256 characters shadow nothing. */
  lemma {:induction false} ShortNamesShadowNothing(rs: seq<Record>, ops: seq<Op>, q: seq<Byte>)
    requires q in Directory(rs) && Delete(Directory(rs)[q]) !in ops && NewNames(rs, ops) && ShortNames(ops)
    ensures Unshadowed(rs, ops, q)
    decreases ops
  {
    if ops != [] {
      ApplyKeepsName(rs, ops[0], q);
      ShortNamesShadowNothing(Apply(rs, ops[0]), ops[1..], q);
    }
  }

  /** A record is there after a call only if it was before or was made by it. */
  lemma {:induction false} InsertRecords(rs: seq<Record>, inode: nat, kind: Byte, name: seq<Byte>, q: seq<Byte>, n: nat)
    requires HasRecord(Insert(rs, inode, kind, name), q, n)
    ensures HasRecord(rs, q, n) || (Stored(name) == q && inode == n)
  {
    if rs != [] {
      var after := Insert(rs, inode, kind, name);
      if Slack(rs[0]) >= HEADER + |name| {
        assert after[1..] == [NewRecord(inode, kind, name, Slack(rs[0]))] + rs[1..];
        assert after[1..][1..] == rs[1..];
      } else {
        assert after[1..] == Insert(rs[1..], inode, kind, name);
        if HasRecord(after[1..], q, n) { InsertRecords(rs[1..], inode, kind, name, q, n); }
      }
    }
  }

  lemma {:induction false} RemoveRecords(rs: seq<Record>, inode: nat, q: seq<Byte>, n: nat)
    requires HasRecord(Remove(rs, inode), q, n)
    ensures HasRecord(rs, q, n)
  {
    if |rs| >= 2 && rs[0].inode != inode {
      var after := Remove(rs, inode);
      if rs[1].inode == inode {
        assert after[1..] == rs[2..] == rs[1..][1..];
      } else {
        assert after[1..] == Remove(rs[1..], inode);
        if HasRecord(after[1..], q, n) { RemoveRecords(rs[1..], inode, q, n); }
      }
    }
  }

  lemma {:induction false} RecordHasOrigin(rs: seq<Record>, ops: seq<Op>, q: seq<Byte>, n: nat)
    requires HasRecord(After(rs, ops), q, n)
    ensures HasRecord(rs, q, n) || exists op :: op in ops && op.Create? && Stored(op.name) == q && op.inode == n
    decreases ops
  {
    if ops != [] {
      var op := ops[0];
      RecordHasOrigin(Apply(rs, op), ops[1..], q, n);
      if HasRecord(Apply(rs, op), q, n) {
        if op.Create? {
          InsertRecords(rs, op.inode, op.kind, op.name, q, n);
        } else {
          RemoveRecords(rs, op.inode, q, n);
        }
      }
      assert op in ops && forall x :: x in ops[1..] ==> x in ops;
    }
  }

  /** Whatever the calls, a name is found after a run only with the inode of a record of that name that was there
      before, which is the one found if names were distinct, or with that of a call that entered it. */
  lemma NameHasOrigin(rs: seq<Record>, ops: seq<Op>, q: seq<Byte>)
    requires q in Directory(After(rs, ops))
    ensures var n := Directory(After(rs, ops))[q];
            || (HasRecord(rs, q, n) && (Unique(rs) ==> q in Directory(rs) && Directory(rs)[q] == n))
            || exists op :: op in ops && op.Create? && Stored(op.name) == q && op.inode == n
  {
    DirectoryRecords(After(rs, ops), q);
    RecordHasOrigin(rs, ops, q, Directory(After(rs, ops))[q]);
    DirectoryRecords(rs, q);
  }

  /** Whatever the calls, the first record cannot be deleted: "." is there after every run. */
  lemma {:induction false} FirstStays(rs: seq<Record>, ops: seq<Op>)
    requires rs != []
    ensures var end := After(rs, ops); |end| > 0 && end[0].name == rs[0].name && end[0].inode == rs[0].inode
    decreases ops
  {
    if ops != [] {
      if ops[0].Delete? { RemoveKeeps(rs, ops[0].inode); }
      FirstStays(Apply(rs, ops[0]), ops[1..]);
    }
  }
}
