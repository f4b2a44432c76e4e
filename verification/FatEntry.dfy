/** FAT entries packed at 12, 16 or 32 bits in the bytes of a FAT, and why they behave as an array. */
module FatEntry {
  import opened Bytes
  import opened FatGeometry

  /** The bits of a value that a FAT entry keeps. */
  function Mask(t: FatType, v: nat): (r: nat) {
    match t
    case Fat12 => v % 0x1000
    case Fat16 => v % 0x1_0000
    case Fat32 => v % 0x1000_0000
  }

  /** The value of entry `c` in the FAT bytes `b`. */
  function Entry(t: FatType, b: seq<byte>, c: nat): (v: nat)
    requires EntryEnd(t, c) <= |b|
    ensures v < 0x1000_0000
  {
    match t
    case Fat12 => var wc := LdWord(b, c + c / 2); if c % 2 == 1 then wc / 0x10 else wc % 0x1000
    case Fat16 => LdWord(b, 2 * c)
    case Fat32 => LdDword(b, 4 * c) % 0x1000_0000
  }

  /** The four bits above a FAT32 entry; other formats have none. */
  function TopBits(t: FatType, b: seq<byte>, c: nat): (v: nat)
    requires EntryEnd(t, c) <= |b|
  {
    if t == Fat32 then LdDword(b, 4 * c) / 0x1000_0000 else 0
  }

  /** The first byte `put_fat` stores for a FAT12 entry, over the old byte `old`. */
  function FirstByte12(c: nat, was: byte, v: nat): byte {
    if c % 2 == 1 then was % 0x10 + 0x10 * (v % 0x10) else v % 0x100
  }

  /** The second byte `put_fat` stores for a FAT12 entry. */
  function SecondByte12(c: nat, was: byte, v: nat): byte {
    if c % 2 == 1 then v / 0x10 % 0x100 else was / 0x10 * 0x10 + v / 0x100 % 0x10
  }

  /** The FAT32 dword `put_fat` stores over the old dword `was`. */
  function Dword32(was: nat, v: nat): nat {
    v % 0x1000_0000 + was / 0x1000_0000 * 0x1000_0000
  }

  function PutFirst12(b: seq<byte>, c: nat, v: nat): (r: seq<byte>)
    requires EntryEnd(Fat12, c) <= |b|
    ensures |r| == |b|
  {
    var p := c + c / 2;
    Splice(b, p, [FirstByte12(c, b[p], v)])
  }

  function PutSecond12(b: seq<byte>, c: nat, v: nat): (r: seq<byte>)
    requires EntryEnd(Fat12, c) <= |b|
    ensures |r| == |b|
  {
    var p := c + c / 2 + 1;
    Splice(b, p, [SecondByte12(c, b[p], v)])
  }

  /** The FAT bytes after storing `v` in entry `c`. */
  function PutEntry(t: FatType, b: seq<byte>, c: nat, v: nat): (r: seq<byte>)
    requires EntryEnd(t, c) <= |b|
    ensures |r| == |b|
  {
    match t
    case Fat12 => PutSecond12(PutFirst12(b, c, v), c, v)
    case Fat16 => Splice(b, 2 * c, StWord(v))
    case Fat32 => Splice(b, 4 * c, StDword(Dword32(LdDword(b, 4 * c), v)))
  }

  lemma PutFirst12Others(b: seq<byte>, c: nat, v: nat, d: nat)
    requires EntryEnd(Fat12, c) <= |b| && EntryEnd(Fat12, d) <= |b| && d != c
    ensures Entry(Fat12, PutFirst12(b, c, v), d) == Entry(Fat12, b, d)
  {
    hide PutFirst12, FirstByte12;
    var p, q, r := c + c / 2, d + d / 2, PutFirst12(b, c, v);
    Starts12(c, d);
    PutFirst12Bytes(b, c, v);
    LowNibble(b[p], c, v);
    SameEntry12(b, r, d);
  }

  /** A FAT12 entry depends on the two bytes it lies in, an odd one on the upper half of its first byte, an even one on
      the lower half of its second. */
  lemma SameEntry12(b: seq<byte>, r: seq<byte>, d: nat)
    requires EntryEnd(Fat12, d) <= |b| == |r|
    requires d % 2 == 0 ==> r[d + d / 2] == b[d + d / 2] && r[d + d / 2 + 1] % 0x10 == b[d + d / 2 + 1] % 0x10
    requires d % 2 == 1 ==> r[d + d / 2] / 0x10 == b[d + d / 2] / 0x10 && r[d + d / 2 + 1] == b[d + d / 2 + 1]
    ensures Entry(Fat12, r, d) == Entry(Fat12, b, d)
  {
    Low12(b[d + d / 2], b[d + d / 2 + 1]);
    Low12(r[d + d / 2], r[d + d / 2 + 1]);
    High12(b[d + d / 2], b[d + d / 2 + 1]);
    High12(r[d + d / 2], r[d + d / 2 + 1]);
  }

  lemma High12(lo: byte, hi: byte)
    ensures (lo as int + 0x100 * hi as int) / 0x10 == lo as int / 0x10 + 0x10 * hi as int
  {
  }

  lemma Low12(lo: byte, hi: byte)
    ensures (lo as int + 0x100 * hi as int) % 0x1000 == lo as int + 0x100 * (hi as int % 0x10)
  {
  }

  lemma PutFirst12Bytes(b: seq<byte>, c: nat, v: nat)
    requires EntryEnd(Fat12, c) <= |b|
    ensures forall k :: 0 <= k < |b| ==>
              PutFirst12(b, c, v)[k] == if k == c + c / 2 then FirstByte12(c, b[k], v) else b[k]
  {
  }

  /** Two FAT12 entries start at different bytes; one that starts in the middle of another is an odd one after an even
      one. */
  lemma Starts12(c: nat, d: nat)
    requires c != d
    ensures c + c / 2 != d + d / 2
    ensures d + d / 2 + 1 == c + c / 2 ==> c % 2 == 1 && d % 2 == 0
  {
  }

  lemma LowNibble(was: byte, c: nat, v: nat)
    ensures c % 2 == 1 ==> FirstByte12(c, was, v) % 0x10 == was % 0x10
  {
  }

  /** Where the bits of an entry are, byte by byte: two FAT12 entries lie in three bytes, and the top half of the last
      byte of a FAT32 entry is no part of it. */
  lemma EntryBytes(t: FatType, b: seq<byte>, c: nat)
    requires EntryEnd(t, c) <= |b|
    ensures t == Fat12 && c % 2 == 0 ==>
              && 3 * (c / 2) + 2 <= |b|
              && Entry(t, b, c) == b[3 * (c / 2)] as int + 0x100 * (b[3 * (c / 2) + 1] as int % 0x10)
    ensures t == Fat12 && c % 2 == 1 ==>
              && 3 * (c / 2) + 3 <= |b|
              && Entry(t, b, c) == b[3 * (c / 2) + 1] as int / 0x10 + 0x10 * b[3 * (c / 2) + 2] as int
    ensures t == Fat16 ==> 2 * c + 2 <= |b| && Entry(t, b, c) == b[2 * c] as int + 0x100 * b[2 * c + 1] as int
    ensures t == Fat32 ==>
              && 4 * c + 4 <= |b|
              && Entry(t, b, c) == b[4 * c] as int + 0x100 * b[4 * c + 1] as int + 0x1_0000 * b[4 * c + 2] as int
                                   + 0x100_0000 * (b[4 * c + 3] as int % 0x10)
              && TopBits(t, b, c) == b[4 * c + 3] as int / 0x10
  {
    match t
    case Fat12 => EntryBytes12(b, c);
    case Fat16 =>
    case Fat32 =>
      LowBits(b[4 * c], b[4 * c + 1], b[4 * c + 2], b[4 * c + 3]);
      hide Entry, TopBits;
  }

  lemma EntryBytes12(b: seq<byte>, c: nat)
    requires EntryEnd(Fat12, c) <= |b|
    ensures c % 2 == 0 ==>
              && 3 * (c / 2) + 2 <= |b|
              && Entry(Fat12, b, c) == b[3 * (c / 2)] as int + 0x100 * (b[3 * (c / 2) + 1] as int % 0x10)
    ensures c % 2 == 1 ==>
              && 3 * (c / 2) + 3 <= |b|
              && Entry(Fat12, b, c) == b[3 * (c / 2) + 1] as int / 0x10 + 0x10 * b[3 * (c / 2) + 2] as int
  {
    var p := 3 * (c / 2) + c % 2;
    assert c + c / 2 == p && p + 2 <= |b|;
    assert Entry(Fat12, b, c) == if c % 2 == 1 then LdWord(b, p) / 0x10 else LdWord(b, p) % 0x1000;
    hide Entry;
    SplitWord(b[p], b[p + 1]);
  }

  lemma SplitWord(lo: byte, hi: byte)
    ensures (lo as int + 0x100 * hi as int) % 0x1000 == lo as int + 0x100 * (hi as int % 0x10)
    ensures (lo as int + 0x100 * hi as int) / 0x10 == lo as int / 0x10 + 0x10 * hi as int
  {
  }

  lemma LowBits(b0: byte, b1: byte, b2: byte, b3: byte)
    ensures var v := b0 as int + 0x100 * b1 as int + 0x1_0000 * b2 as int + 0x100_0000 * b3 as int;
            && v / 0x1000_0000 == b3 as int / 0x10
            && v % 0x1000_0000 == b0 as int + 0x100 * b1 as int + 0x1_0000 * b2 as int + 0x100_0000 * (b3 as int % 0x10)
  {
  }

  /** `put_fat` then `get_fat`: the entry written reads back masked, and every other entry is unchanged. */
  lemma PutGet(t: FatType, b: seq<byte>, c: nat, v: nat, d: nat)
    requires EntryEnd(t, c) <= |b| && EntryEnd(t, d) <= |b|
    ensures Entry(t, PutEntry(t, b, c, v), d) == if d == c then Mask(t, v) else Entry(t, b, d)
    ensures TopBits(t, PutEntry(t, b, c, v), d) == TopBits(t, b, d)
  {
    match t
    case Fat12 => PutGet12(b, c, v, d);
    case Fat16 => if d == c { WordRoundTrip(b, 2 * c, v); }
    case Fat32 => PutGet32(b, c, v, d);
  }

  lemma OddBytes12(was: byte, v: nat)
    ensures (was % 0x10 + 0x10 * (v % 0x10) + 0x100 * (v / 0x10 % 0x100)) / 0x10 == v % 0x1000
  {
    var q := v / 0x10;
    assert v == v % 0x10 + 0x10 * q && q == q % 0x100 + 0x100 * (q / 0x100);
    assert v % 0x1000 == v % 0x10 + 0x10 * (q % 0x100);
  }

  lemma EvenBytes12(was: byte, v: nat)
    ensures (v % 0x100 + 0x100 * (was / 0x10 * 0x10 + v / 0x100 % 0x10)) % 0x1000 == v % 0x1000
  {
    var q, x := v / 0x100, was / 0x10;
    assert v == v % 0x100 + 0x100 * q && q == q % 0x10 + 0x10 * (q / 0x10);
    assert v % 0x1000 == v % 0x100 + 0x100 * (q % 0x10);
    assert v % 0x100 + 0x100 * (x * 0x10 + q % 0x10) == v % 0x1000 + 0x1000 * x;
  }

  lemma PutGet12(b: seq<byte>, c: nat, v: nat, d: nat)
    requires EntryEnd(Fat12, c) <= |b| && EntryEnd(Fat12, d) <= |b|
    ensures Entry(Fat12, PutEntry(Fat12, b, c, v), d) == if d == c then Mask(Fat12, v) else Entry(Fat12, b, d)
  {
    if d == c {
      PutGetSame12(b, c, v);
    } else {
      PutFirst12Others(b, c, v, d);
      PutSecond12Others(b, c, v, d);
    }
  }

  lemma PutGetSame12(b: seq<byte>, c: nat, v: nat)
    requires EntryEnd(Fat12, c) <= |b|
    ensures Entry(Fat12, PutEntry(Fat12, b, c, v), c) == Mask(Fat12, v)
  {
    var p, r := c + c / 2, PutEntry(Fat12, b, c, v);
    assert r[p] == FirstByte12(c, b[p], v) && r[p + 1] == SecondByte12(c, b[p + 1], v);
    OddBytes12(b[p], v);
    EvenBytes12(b[p + 1], v);
    hide PutEntry;
  }

  lemma PutSecond12Others(b: seq<byte>, c: nat, v: nat, d: nat)
    requires EntryEnd(Fat12, c) <= |b| && EntryEnd(Fat12, d) <= |b| && d != c
    ensures Entry(Fat12, PutEntry(Fat12, b, c, v), d) == Entry(Fat12, PutFirst12(b, c, v), d)
  {
    hide PutFirst12, SecondByte12;
    var p, b1, r := c + c / 2, PutFirst12(b, c, v), PutEntry(Fat12, b, c, v);
    Starts12(d, c);
    PutSecond12Bytes(b1, c, v);
    HighNibble(b1[p + 1], c, v);
    SameEntry12(b1, r, d);
  }

  lemma PutSecond12Bytes(b: seq<byte>, c: nat, v: nat)
    requires EntryEnd(Fat12, c) <= |b|
    ensures forall k :: 0 <= k < |b| ==>
              PutSecond12(b, c, v)[k] == if k == c + c / 2 + 1 then SecondByte12(c, b[k], v) else b[k]
  {
  }

  lemma HighNibble(was: byte, c: nat, v: nat)
    ensures c % 2 == 0 ==> SecondByte12(c, was, v) / 0x10 == was / 0x10
  {
  }

  lemma Dword32Parts(was: nat, v: nat)
    requires was < TWO_32
    ensures Dword32(was, v) < TWO_32
    ensures Dword32(was, v) % 0x1000_0000 == v % 0x1000_0000
    ensures Dword32(was, v) / 0x1000_0000 == was / 0x1000_0000
  {
  }

  lemma PutGet32(b: seq<byte>, c: nat, v: nat, d: nat)
    requires EntryEnd(Fat32, c) <= |b| && EntryEnd(Fat32, d) <= |b|
    ensures Entry(Fat32, PutEntry(Fat32, b, c, v), d) == if d == c then Mask(Fat32, v) else Entry(Fat32, b, d)
    ensures TopBits(Fat32, PutEntry(Fat32, b, c, v), d) == TopBits(Fat32, b, d)
  {
    hide Dword32, StDword, LdDword;
    if d == c {
      var was := LdDword(b, 4 * c);
      Dword32Parts(was, v);
      DwordRoundTrip(b, 4 * c, Dword32(was, v));
    } else {
      DwordElsewhere(b, c, StDword(Dword32(LdDword(b, 4 * c), v)), d);
    }
  }

  lemma DwordElsewhere(b: seq<byte>, c: nat, x: seq<byte>, d: nat)
    requires 4 * c + 4 <= |b| && 4 * d + 4 <= |b| && |x| == 4 && d != c
    ensures LdDword(Splice(b, 4 * c, x), 4 * d) == LdDword(b, 4 * d)
  {
  }

  /** The least value that marks the end of a chain, one above the mark of a bad cluster. */
  function LeastEnd(t: FatType): nat {
    match t
    case Fat12 => 0xFF8
    case Fat16 => 0xFFF8
    case Fat32 => 0x0FFF_FFF8
  }

  /** Every end-of-chain mark of the type, and the bad-cluster mark, reads back at or beyond the number of entries; the
      mark that `put_fat` stores is one. */
  lemma EndOfChainBeyond(g: Geometry, v: nat)
    requires g.Layout()
    ensures Mask(g.fsType, v) >= LeastEnd(g.fsType) - 1 ==> Mask(g.fsType, v) >= g.nFatent
    ensures Mask(g.fsType, 0xFFFF_FFFF) >= LeastEnd(g.fsType)
  {
  }
}
