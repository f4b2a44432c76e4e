/** Bytes, sectors and the little-endian words the FAT structures are made of. */
module Bytes {

  type byte = b: int | 0 <= b < 0x100

  const SECTOR_SIZE := 512
  const TWO_32 := 0x1_0000_0000

  type Sector = s: seq<byte> | |s| == 512 witness seq(512, i => 0)

  function LdWord(b: seq<byte>, at: nat): (v: nat)
    requires at + 2 <= |b|
    ensures v < 0x1_0000
  {
    b[at] as int + 0x100 * b[at + 1] as int
  }

  function LdDword(b: seq<byte>, at: nat): (v: nat)
    requires at + 4 <= |b|
    ensures v < TWO_32
  {
    b[at] as int + 0x100 * b[at + 1] as int + 0x1_0000 * b[at + 2] as int + 0x100_0000 * b[at + 3] as int
  }

  function StWord(v: nat): (b: seq<byte>)
    ensures |b| == 2
  {
    [v % 0x100, v / 0x100 % 0x100]
  }

  function StDword(v: nat): (b: seq<byte>)
    ensures |b| == 4
  {
    var v1 := v / 0x100;
    var v2 := v1 / 0x100;
    [v % 0x100, v1 % 0x100, v2 % 0x100, v2 / 0x100 % 0x100]
  }

  /** Words are loaded least significant byte first. */
  lemma LoadedBytes(b: seq<byte>, at: nat)
    requires at + 4 <= |b|
    ensures LdWord(b, at) % 0x100 == b[at] && LdWord(b, at) / 0x100 == b[at + 1]
    ensures LdDword(b, at) % 0x100 == b[at] && LdDword(b, at) / 0x100 % 0x100 == b[at + 1]
    ensures LdDword(b, at) / 0x1_0000 % 0x100 == b[at + 2] && LdDword(b, at) / 0x100_0000 == b[at + 3]
  {
    var x2 := b[at + 2] as int + 0x100 * b[at + 3] as int;
    var x1 := b[at + 1] as int + 0x100 * x2;
    LowByte(b[at], b[at + 1] as int);
    LowByte(b[at], x1);
    LowByte(b[at + 1], x2);
    LowByte(b[at + 2], b[at + 3] as int);
    assert LdDword(b, at) == b[at] as int + 0x100 * x1;
    Dividing(LdDword(b, at));
  }

  lemma LowByte(b: byte, x: nat)
    ensures (b as int + 0x100 * x) % 0x100 == b && (b as int + 0x100 * x) / 0x100 == x
  {
  }

  lemma Dividing(v: nat)
    ensures v / 0x1_0000 == v / 0x100 / 0x100 && v / 0x100_0000 == v / 0x100 / 0x100 / 0x100
  {
  }

  /** `b` with the bytes from `at` on replaced by `x`. */
  function Splice(b: seq<byte>, at: nat, x: seq<byte>): (r: seq<byte>)
    requires at + |x| <= |b|
    ensures |r| == |b|
    ensures forall k :: 0 <= k < |b| ==> r[k] == if at <= k < at + |x| then x[k - at] else b[k]
  {
    b[..at] + x + b[at + |x|..]
  }

  lemma WordRoundTrip(b: seq<byte>, at: nat, v: nat)
    requires at + 2 <= |b|
    ensures LdWord(Splice(b, at, StWord(v)), at) == v % 0x1_0000
  {
    var s := Splice(b, at, StWord(v));
    assert s[at] == v % 0x100 && s[at + 1] == v / 0x100 % 0x100;
  }

  /** The four bytes of `StDword` weigh `v` modulo 2^32. */
  lemma DwordBytes(v: nat)
    ensures var v1 := v / 0x100; var v2 := v1 / 0x100;
            v % TWO_32 == v % 0x100 + 0x100 * (v1 % 0x100) + 0x1_0000 * (v2 % 0x100) + 0x100_0000 * (v2 / 0x100 % 0x100)
  {
    var v1 := v / 0x100;
    var v2 := v1 / 0x100;
    var v3 := v2 / 0x100;
    var low := v % 0x100 + 0x100 * (v1 % 0x100) + 0x1_0000 * (v2 % 0x100) + 0x100_0000 * (v3 % 0x100);
    assert v == low + TWO_32 * (v3 / 0x100);
    LowPart(v, low, v3 / 0x100);
  }

  lemma LowPart(v: nat, low: nat, q: nat)
    requires v == low + TWO_32 * q && low < TWO_32
    ensures v % TWO_32 == low
  {
  }

  lemma DwordRoundTrip(b: seq<byte>, at: nat, v: nat)
    requires at + 4 <= |b|
    ensures LdDword(Splice(b, at, StDword(v)), at) == v % TWO_32
  {
    var s, x := Splice(b, at, StDword(v)), StDword(v);
    assert s[at] == x[0] && s[at + 1] == x[1] && s[at + 2] == x[2] && s[at + 3] == x[3];
    DwordBytes(v);
  }
}
