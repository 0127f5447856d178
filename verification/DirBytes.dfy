/** Records and blocks as the bytes they are stored in: every sequence of records that fills a block is what some block
    reads as. */
module DirBytes {
  import opened DirRecords
  import opened DirChains
  import opened DirBlocks

  /** The numbers fit their fields. */
  predicate Fields(r: Record) {
    r.inode < 0x1_0000_0000 && r.len < 0x1_0000 && |r.name| < 256
  }

  /** struct ext2_dir_entry_2, least significant bytes first */
  function BytesOf(r: Record): (s: seq<Byte>)
    requires Fields(r)
    ensures |s| == 8 + |r.name|
  {
    [r.inode % 256, r.inode / 256 % 256, r.inode / 0x1_0000 % 256, r.inode / 0x100_0000,
     r.len % 256, r.len / 256, |r.name|, r.kind] + r.name
  }

  lemma LowDigit(a: Byte, n: nat)
    ensures (a + 256 * n) % 256 == a && (a + 256 * n) / 256 == n
  {
  }

  lemma Shifts(n: nat)
    ensures n / 0x1_0000 == n / 256 / 256 && n / 0x100_0000 == n / 256 / 256 / 256
  {
  }

  lemma Digits32(a: Byte, b: Byte, c: Byte, d: Byte)
    ensures var n := Le16(a, b) + 65536 * Le16(c, d);
            n % 256 == a && n / 256 % 256 == b && n / 0x1_0000 % 256 == c && n / 0x100_0000 == d
  {
    var q := b + 256 * (c + 256 * d);
    LowDigit(a, q);
    LowDigit(b, c + 256 * d);
    LowDigit(c, d);
    Shifts(a + 256 * q);
  }

  lemma Recombined32(n: nat)
    ensures Le16(n % 256, n / 256 % 256) + 65536 * Le16(n / 0x1_0000 % 256, n / 0x100_0000) == n
  {
    Shifts(n);
    var q := n / 256;
    assert n == n % 256 + 256 * q && q == q % 256 + 256 * (q / 256);
  }

  lemma HeaderRead(s: seq<Byte>, o: nat, r: Record)
    requires Fields(r) && r.len > 0 && RecordAt(s, o) == r
    ensures o + 8 + |r.name| <= |s| && s[o..o + 8] == BytesOf(r)[..8]
  {
    LowDigit(s[o + 4], s[o + 5]);
    Digits32(s[o], s[o + 1], s[o + 2], s[o + 3]);
  }

  lemma BytesRead(s: seq<Byte>, o: nat, r: Record)
    requires Fields(r) && r.len > 0 && RecordAt(s, o) == r
    ensures o + 8 + |r.name| <= |s| && s[o..o + 8 + |r.name|] == BytesOf(r)
  {
    var end := o + 8 + |r.name|;
    HeaderRead(s, o, r);
    assert s[o..end] == s[o..o + 8] + s[o + 8..end];
    assert BytesOf(r) == BytesOf(r)[..8] + r.name;
  }

  lemma ReadBytes(s: seq<Byte>, o: nat, r: Record)
    requires Fields(r) && o + 8 + |r.name| <= |s| && s[o..o + 8 + |r.name|] == BytesOf(r)
    ensures RecordAt(s, o) == r
  {
    var t, end := BytesOf(r), o + 8 + |r.name|;
    Recombined32(r.inode);
    assert s[o] == t[0] && s[o + 1] == t[1] && s[o + 2] == t[2] && s[o + 3] == t[3];
    assert s[o + 4] == t[4] && s[o + 5] == t[5] && s[o + 6] == t[6] && s[o + 7] == t[7];
    assert s[o + 8..end] == t[8..] == r.name;
  }

  /** A record is read at an offset exactly if its bytes are there. */
  lemma ReadIffBytes(s: seq<Byte>, o: nat, r: Record)
    requires Fields(r) && r.len > 0
    ensures RecordAt(s, o) == r <==> o + 8 + |r.name| <= |s| && s[o..o + 8 + |r.name|] == BytesOf(r)
  {
    if RecordAt(s, o) == r {
      BytesRead(s, o, r);
    }
    if o + 8 + |r.name| <= |s| && s[o..o + 8 + |r.name|] == BytesOf(r) {
      ReadBytes(s, o, r);
    }
  }

  predicate AllFields(rs: seq<Record>) {
    rs == [] || (Fields(rs[0]) && AllFields(rs[1..]))
  }

  /** A record with zeros behind its name. */
  function Padded(r: Record): (s: seq<Byte>)
    requires Placed(r) && Fields(r)
    ensures |s| == r.len && s[..8 + |r.name|] == BytesOf(r)
  {
    BytesOf(r) + seq(r.len - 8 - |r.name|, _ => 0)
  }

  /** The records one after the other. */
  function Laid(rs: seq<Record>): (s: seq<Byte>)
    requires AllPlaced(rs) && AllFields(rs)
    ensures |s| == Total(rs)
  {
    if rs == [] then [] else Padded(rs[0]) + Laid(rs[1..])
  }

  lemma PaddedIsRead(before: seq<Byte>, r: Record, behind: seq<Byte>)
    requires Placed(r) && Fields(r)
    ensures RecordAt(before + Padded(r) + behind, |before|) == r
  {
    var s, o := before + Padded(r) + behind, |before|;
    assert s[o..o + 8 + |r.name|] == Padded(r)[..8 + |r.name|];
    ReadIffBytes(s, o, r);
  }

  lemma RecordInFront(s: seq<Byte>, o: nat, r: Record, next: nat, rest: seq<Record>)
    requires RecordAt(s, o) == r && Placed(r) && next == o + r.len <= |s|
    requires Tiled(View(s), next, |s|) && Records(View(s), next, |s|) == rest
    ensures Tiled(View(s), o, |s|) && Records(View(s), o, |s|) == [r] + rest
  {
    Prepend(View(s), o, |s|);
  }

  /** Behind any bytes, the records written are the records read. */
  lemma {:induction false} LaidIsRead(before: seq<Byte>, rs: seq<Record>, s: seq<Byte>)
    requires AllPlaced(rs) && AllFields(rs) && s == before + Laid(rs)
    ensures Tiled(View(s), |before|, |s|) && Records(View(s), |before|, |s|) == rs
    decreases |rs|
  {
    if rs != [] {
      var r, rest, next := rs[0], rs[1..], before + Padded(rs[0]);
      Regrouped(before, Padded(r), Laid(rest));
      PaddedIsRead(before, r, Laid(rest));
      LaidIsRead(next, rest, s);
      RecordInFront(s, |before|, r, |next|, rest);
      assert [r] + rest == rs;
    }
  }

  /** Records are those of some block if and only if they are aligned, cover their names, fill 1024 bytes and have
      inode numbers of 32 bits. */
  lemma EntriesIff(rs: seq<Record>)
    ensures (exists s :: IsDirectory(s) && Entries(s) == rs) <==> AllPlaced(rs) && AllFields(rs) && Total(rs) == 1024
  {
    if AllPlaced(rs) && AllFields(rs) && Total(rs) == 1024 {
      assert [] + Laid(rs) == Laid(rs);
      LaidIsRead([], rs, Laid(rs));
      assert IsDirectory(Laid(rs)) && Entries(Laid(rs)) == rs;
    }
    if s :| IsDirectory(s) && Entries(s) == rs {
      TiledIsPlaced(View(s), 0, BLOCK_SIZE);
      ReadHasFields(s, 0, BLOCK_SIZE);
    }
  }

  lemma {:induction false} ReadHasFields(s: seq<Byte>, o: nat, end: nat)
    requires Tiled(View(s), o, end)
    ensures AllFields(Records(View(s), o, end))
    decreases end - o
  {
    if o < end {
      ReadHasFields(s, o + RecordAt(s, o).len, end);
      assert Records(View(s), o, end)[1..] == Records(View(s), o + RecordAt(s, o).len, end);
    }
  }
}
