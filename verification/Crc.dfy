/** Cyclic redundancy checks: the table-driven loops against division bit by bit. */
module Crc {

  /** The reflected polynomials. A 16-bit remainder is kept in the low half of the word. */
  const POLY_16: bv32 := 0xA001
  const POLY_32: bv32 := 0xEDB8_8320

  predicate Odd(r: bv32) { r & 1 != 0 }

  function Half(r: bv32): bv32 { r >> 1 }

  function Xor(a: bv32, b: bv32): bv32 { a ^ b }

  /** One shift of the reflected division: the polynomial is subtracted when a one falls out. */
  function Shift(r: bv32, poly: bv32): bv32 { if Odd(r) then Xor(Half(r), poly) else Half(r) }

  function Shifts(r: bv32, poly: bv32, n: nat): bv32
    decreases n
  {
    if n == 0 then r else Shifts(Shift(r, poly), poly, n - 1)
  }

  /** The `n` lowest bits, from the lowest up. */
  function BitsOf(v: bv32, n: nat): (bits: seq<bool>)
    ensures |bits| == n
    decreases n
  {
    if n == 0 then [] else [Odd(v)] + BitsOf(Half(v), n - 1)
  }

  /** The bits of a message. */
  function Bits(data: seq<bv8>): seq<bool> {
    if data == [] then [] else BitsOf(data[0] as bv32, 8) + Bits(data[1..])
  }

  function BitWord(b: bool): bv32 { if b then 1 else 0 }

  /** The bit-serial check: each bit of the message is added to the lowest bit of the remainder before a shift. */
  function Serial(r: bv32, poly: bv32, bits: seq<bool>): bv32
    decreases |bits|
  {
    if bits == [] then r else Serial(Shift(Xor(r, BitWord(bits[0])), poly), poly, bits[1..])
  }

  // The exclusive or.

  lemma XorAssoc(a: bv32, b: bv32, c: bv32)
    ensures Xor(Xor(a, b), c) == Xor(a, Xor(b, c))
  {
  }

  lemma XorComm(a: bv32, b: bv32)
    ensures Xor(a, b) == Xor(b, a)
  {
  }

  lemma XorTwice(a: bv32, b: bv32)
    ensures Xor(Xor(a, b), b) == a
  {
  }

  lemma XorHalves(x: bv32, y: bv32)
    ensures Odd(Xor(x, y)) == (Odd(x) != Odd(y)) && Half(Xor(x, y)) == Xor(Half(x), Half(y))
  {
  }

  lemma XorMoves(a: bv32, b: bv32, p: bv32)
    ensures Xor(Xor(a, p), Xor(b, p)) == Xor(a, b)
    ensures Xor(Xor(a, p), b) == Xor(Xor(a, b), p)
    ensures Xor(a, Xor(b, p)) == Xor(Xor(a, b), p)
  {
    hide Xor;
    XorAssoc(a, b, p);
    XorAssoc(a, p, b);
    XorComm(p, b);
    XorAssoc(a, p, Xor(b, p));
    XorComm(b, p);
    XorComm(p, Xor(p, b));
    XorComm(p, b);
    XorTwice(b, p);
  }

  /** The division is linear. */
  lemma ShiftLinear(x: bv32, y: bv32, poly: bv32)
    ensures Shift(Xor(x, y), poly) == Xor(Shift(x, poly), Shift(y, poly))
  {
    hide Odd, Half, Xor;
    XorHalves(x, y);
    XorMoves(Half(x), Half(y), poly);
  }

  lemma {:induction false} ShiftsLinear(x: bv32, y: bv32, poly: bv32, n: nat)
    ensures Shifts(Xor(x, y), poly, n) == Xor(Shifts(x, poly, n), Shifts(y, poly, n))
    decreases n
  {
    hide Shift, Xor;
    if n > 0 {
      ShiftLinear(x, y, poly);
      ShiftsLinear(Shift(x, poly), Shift(y, poly), poly, n - 1);
    }
  }

  /** Nothing above bit `n` is set. */
  ghost predicate Fits(v: bv32, n: nat)
    decreases n
  {
    if n == 0 then v == 0 else Fits(Half(v), n - 1)
  }

  lemma LowBit(v: bv32)
    ensures Xor(BitWord(Odd(v)), v & !1) == v
    ensures !Odd(v & !1) && Half(v & !1) == Half(v)
  {
  }

  lemma SplitLowBit(r: bv32, v: bv32)
    ensures Xor(r, v) == Xor(Xor(r, BitWord(Odd(v))), v & !1)
    ensures !Odd(v & !1) && Half(v & !1) == Half(v)
  {
    hide Odd, Half, Xor, BitWord;
    LowBit(v);
    XorAssoc(r, BitWord(Odd(v)), v & !1);
  }

  lemma XorZero(r: bv32)
    ensures Xor(r, 0) == r
  {
  }

  /** Feeding the bits of a number one by one is adding the number and shifting. */
  lemma {:induction false} FeedBits(r: bv32, poly: bv32, v: bv32, n: nat)
    requires Fits(v, n)
    ensures Serial(r, poly, BitsOf(v, n)) == Shifts(Xor(r, v), poly, n)
    decreases n
  {
    hide Odd, Half, Xor, BitWord;
    if n == 0 {
      XorZero(r);
    } else {
      SplitLowBit(r, v);
      var s := Xor(r, BitWord(Odd(v)));
      ShiftLinear(s, v & !1, poly);
      FeedBits(Shift(s, poly), poly, Half(v), n - 1);
      assert BitsOf(v, n)[1..] == BitsOf(Half(v), n - 1);
    }
  }

  lemma ByteFits(b: bv8)
    ensures Fits(b as bv32, 8)
  {
  }

  function ClearLow(x: bv32): bv32 { x & !0xFF }

  function HighBytes(r: bv32): bv32 { r >> 8 }

  /** A word without low bits is only shifted. */
  lemma ZerosFallOut(x: bv32, poly: bv32)
    ensures Shifts(ClearLow(x), poly, 8) == HighBytes(x)
  {
  }

  function LowByte(r: bv32, b: bv8): (x: bv32)
    ensures x <= 0xFF
  {
    (r ^ (b as bv32)) & 0xFF
  }

  /** A byte's turn in the table-driven loop. */
  function ByteStep(r: bv32, poly: bv32, b: bv8): bv32 { Xor(HighBytes(r), Shifts(LowByte(r, b), poly, 8)) }

  function HighPart(r: bv32, b: bv8): bv32 { ClearLow(r ^ (b as bv32)) }

  lemma SplitWord(r: bv32, b: bv8)
    ensures Xor(HighPart(r, b), LowByte(r, b)) == Xor(r, b as bv32)
    ensures HighBytes(r ^ (b as bv32)) == HighBytes(r)
  {
  }

  lemma ByteStepIsShifts(r: bv32, poly: bv32, b: bv8)
    ensures ByteStep(r, poly, b) == Shifts(Xor(r, b as bv32), poly, 8)
  {
    hide Shifts, Xor, LowByte, HighBytes, ClearLow;
    SplitWord(r, b);
    ShiftsLinear(HighPart(r, b), LowByte(r, b), poly, 8);
    ZerosFallOut(r ^ (b as bv32), poly);
  }

  /** A turn of the table-driven loop is eight of the bit-serial one. */
  lemma ByteStepIsSerial(r: bv32, poly: bv32, b: bv8)
    ensures ByteStep(r, poly, b) == Serial(r, poly, BitsOf(b as bv32, 8))
  {
    hide ByteStep, Shifts, Serial, BitsOf, Xor;
    ByteStepIsShifts(r, poly, b);
    ByteFits(b);
    FeedBits(r, poly, b as bv32, 8);
  }

  lemma {:induction false} SerialAppend(r: bv32, poly: bv32, a: seq<bool>, b: seq<bool>)
    ensures Serial(r, poly, a + b) == Serial(Serial(r, poly, a), poly, b)
    decreases |a|
  {
    hide Shift, Xor;
    if a == [] {
      assert a + b == b;
    } else {
      assert (a + b)[1..] == a[1..] + b;
      SerialAppend(Shift(Xor(r, BitWord(a[0])), poly), poly, a[1..], b);
    }
  }

  lemma {:induction false} BitsAppend(a: seq<bv8>, b: seq<bv8>)
    ensures Bits(a + b) == Bits(a) + Bits(b)
    decreases |a|
  {
    hide BitsOf;
    if a == [] {
      assert a + b == b;
    } else {
      assert (a + b)[1..] == a[1..] + b;
      BitsAppend(a[1..], b);
    }
  }

  lemma NextByte(r: bv32, poly: bv32, data: seq<bv8>, i: nat)
    requires i < |data|
    ensures Serial(r, poly, Bits(data[..i + 1])) == ByteStep(Serial(r, poly, Bits(data[..i])), poly, data[i])
  {
    hide Serial, ByteStep, BitsOf;
    var b := [data[i]];
    assert data[..i + 1] == data[..i] + b;
    BitsAppend(data[..i], b);
    assert Bits(b) == BitsOf(data[i] as bv32, 8) + Bits([]);
    assert Bits(b) == BitsOf(data[i] as bv32, 8);
    SerialAppend(r, poly, Bits(data[..i]), Bits(b));
    ByteStepIsSerial(Serial(r, poly, Bits(data[..i])), poly, data[i]);
  }

  function Complement(x: bv32): bv32 { !x }

  /** `crc16` and `crc32`: the remainder, and its complement. */
  function Crc16(data: seq<bv8>, initial: bv32): bv32 { Serial(initial, POLY_16, Bits(data)) }

  function Crc32(data: seq<bv8>, initial: bv32): bv32 { Complement(Serial(initial, POLY_32, Bits(data))) }

  /** The check values of the message "a". */
  lemma CheckValues()
    ensures Crc16([0x61], 0) == 0xE8C1 && Crc32([0x61], 0xFFFF_FFFF) == 0xE8B7_BE43
  {
    var m: seq<bv8> := [0x61];
    KnownStep(0, POLY_16, m[0]);
    KnownStep(0xFFFF_FFFF, POLY_32, m[0]);
    OneByte(0, POLY_16, m);
    OneByte(0xFFFF_FFFF, POLY_32, m);
    hide Serial, Bits, ByteStep;
  }

  lemma OneByte(r: bv32, poly: bv32, m: seq<bv8>)
    requires |m| == 1
    ensures Serial(r, poly, Bits(m)) == ByteStep(r, poly, m[0])
  {
    hide Serial, ByteStep;
    NextByte(r, poly, m, 0);
    assert m[..1] == m;
    SerialNothing(r, poly, m);
  }

  /** A step with the eight shifts written out. */
  lemma KnownStep(r: bv32, poly: bv32, b: bv8)
    ensures ByteStep(r, poly, b) == Xor(HighBytes(r), FourShifts(FourShifts((r ^ (b as bv32)) & 0xFF, poly), poly))
  {
    hide Shift, Xor, HighBytes;
  }

  function FourShifts(x: bv32, poly: bv32): bv32 { Shift(Shift(Shift(Shift(x, poly), poly), poly), poly) }

  lemma IndexValue(x: bv32)
    requires x <= 0xFF
    ensures x as nat < 256 && (x as nat) as bv32 == x
  {
  }

  /** The static table of one of the two functions, and whether it has been filled in. */
  class Table {
    const poly: bv32
    const lut: array<bv32>
    var lutInitialized: bool

    constructor (poly: bv32)
      ensures Valid() && this.poly == poly && !lutInitialized && fresh(lut)
    {
      this.poly := poly;
      lut := new bv32[256](i => 0);
      lutInitialized := false;
    }

    ghost predicate Valid()
      reads this, lut
    {
      lut.Length == 256 && (lutInitialized ==> forall i :: 0 <= i < 256 ==> lut[i] == Shifts(i as bv32, poly, 8))
    }

    /** Fill in the table. */
    method Initialize()
      requires Valid()
      modifies this, lut
      ensures Valid() && lutInitialized
    {
      hide Shift, Shifts;
      for i := 0 to 256
        invariant forall k :: 0 <= k < i ==> lut[k] == Shifts(k as bv32, poly, 8)
      {
        lut[i] := EightShifts(i as bv32, poly);
      }
      lutInitialized := true;
    }

    /** The body of the loop over the message. */
    method Turn(r: bv32, b: bv8) returns (r1: bv32)
      requires Valid() && lutInitialized
      ensures r1 == ByteStep(r, poly, b)
    {
      hide Shifts, LowByte;
      var x := LowByte(r, b);
      IndexValue(x);
      r1 := Xor(r >> 8, lut[x as nat]);
    }

    /** The loop over the message, from `initial`. */
    method Remainder(data: array<bv8>, initial: bv32) returns (r: bv32)
      requires Valid()
      modifies this, lut
      ensures Valid() && lutInitialized
      ensures r == Serial(initial, poly, Bits(data[..]))
    {
      hide Shifts, Serial, Bits, ByteStep;
      ghost var message := data[..];
      if !lutInitialized {
        Initialize();
      }
      r := initial;
      SerialNothing(initial, poly, message);
      for i := 0 to data.Length
        invariant Valid() && lutInitialized
        invariant r == Serial(initial, poly, Bits(message[..i]))
      {
        NextByte(initial, poly, message, i);
        r := Turn(r, data[i]);
      }
      assert message[..data.Length] == message;
    }
  }

  lemma SerialNothing(r: bv32, poly: bv32, data: seq<bv8>)
    ensures Serial(r, poly, Bits(data[..0])) == r
  {
  }

  /** The inner loop that makes a table entry. */
  method EightShifts(v: bv32, poly: bv32) returns (r: bv32)
    ensures r == Shifts(v, poly, 8)
  {
    hide Odd, Half, Xor;
    r := v;
    for j := 0 to 8
      invariant Shifts(r, poly, 8 - j) == Shifts(v, poly, 8)
    {
      r := Shift(r, poly);
    }
  }

  /** `crc16`, over a table that earlier calls may have filled in. */
  method ComputeCrc16(t: Table, data: array<bv8>, initialValue: bv32) returns (r: bv32)
    requires t.Valid() && t.poly == POLY_16 && initialValue <= 0xFFFF
    modifies t, t.lut
    ensures t.Valid() && r == Crc16(data[..], initialValue) && r <= 0xFFFF
  {
    hide Serial;
    r := t.Remainder(data, initialValue);
    StaysNarrow(initialValue, Bits(data[..]));
  }

  /** `crc32`. */
  method ComputeCrc32(t: Table, data: array<bv8>, initialValue: bv32) returns (r: bv32)
    requires t.Valid() && t.poly == POLY_32
    modifies t, t.lut
    ensures t.Valid() && r == Crc32(data[..], initialValue)
  {
    hide Serial;
    r := t.Remainder(data, initialValue);
    r := !r;
  }

  lemma NarrowShift(r: bv32, b: bool)
    requires r <= 0xFFFF
    ensures Shift(Xor(r, BitWord(b)), POLY_16) <= 0xFFFF
  {
  }

  /** A 16-bit remainder stays one. */
  lemma {:induction false} StaysNarrow(r: bv32, bits: seq<bool>)
    requires r <= 0xFFFF
    ensures Serial(r, POLY_16, bits) <= 0xFFFF
    decreases |bits|
  {
    hide Shift, Xor, BitWord;
    if bits != [] {
      NarrowShift(r, bits[0]);
      StaysNarrow(Shift(Xor(r, BitWord(bits[0])), POLY_16), bits[1..]);
    }
  }

  /** A message may be checked piece by piece: where one check ended the next starts, for `crc32` from the
      complement. */
  lemma Crc16Continues(a: seq<bv8>, b: seq<bv8>, initial: bv32)
    ensures Crc16(a + b, initial) == Crc16(b, Crc16(a, initial))
  {
    hide Serial, Bits;
    BitsAppend(a, b);
    SerialAppend(initial, POLY_16, Bits(a), Bits(b));
  }

  lemma Crc32Continues(a: seq<bv8>, b: seq<bv8>, initial: bv32)
    ensures Crc32(a + b, initial) == Crc32(b, Complement(Crc32(a, initial)))
  {
    hide Serial, Bits, Complement;
    BitsAppend(a, b);
    SerialAppend(initial, POLY_32, Bits(a), Bits(b));
    ComplementTwice(Serial(initial, POLY_32, Bits(a)));
  }

  lemma ComplementTwice(x: bv32)
    ensures Complement(Complement(x)) == x
  {
  }

  /** The two checks, by the top bit of their remainders. Both polynomials have that bit. */
  predicate TopBit(top: bv32, poly: bv32) {
    (top == 0x8000 && poly == POLY_16) || (top == 0x8000_0000 && poly == POLY_32)
  }

  predicate InWidth(r: bv32, top: bv32) { r <= top - 1 + top }

  predicate HasTop(r: bv32, top: bv32) { r & top != 0 }

  /** The top bit tells whether a one fell out. */
  lemma TopBitTells(r: bv32, top: bv32, poly: bv32)
    requires TopBit(top, poly) && InWidth(r, top)
    ensures Odd(r) <==> HasTop(Shift(r, poly), top)
    ensures InWidth(Shift(r, poly), top)
  {
  }

  lemma SameHalves(r: bv32, s: bv32)
    requires Odd(r) == Odd(s) && Half(r) == Half(s)
    ensures r == s
  {
  }

  /** A shift loses nothing. */
  lemma ShiftInjective(r: bv32, s: bv32, top: bv32, poly: bv32)
    requires TopBit(top, poly) && InWidth(r, top) && InWidth(s, top) && Shift(r, poly) == Shift(s, poly)
    ensures r == s
  {
    hide Odd, Half, Xor, HasTop, InWidth, TopBit;
    TopBitTells(r, top, poly);
    TopBitTells(s, top, poly);
    XorTwice(Half(r), poly);
    XorTwice(Half(s), poly);
    SameHalves(r, s);
  }

  lemma NextInWidth(r: bv32, bit: bool, top: bv32, poly: bv32)
    requires TopBit(top, poly) && InWidth(r, top)
    ensures InWidth(Xor(r, BitWord(bit)), top)
  {
  }

  /** Different remainders stay different over the same message. */
  lemma {:induction false} SerialInjective(r: bv32, s: bv32, top: bv32, poly: bv32, bits: seq<bool>)
    requires TopBit(top, poly) && InWidth(r, top) && InWidth(s, top) && Serial(r, poly, bits) == Serial(s, poly, bits)
    ensures r == s
    decreases |bits|
  {
    hide Shift, Xor, BitWord, TopBit, InWidth;
    if bits != [] {
      var w := BitWord(bits[0]);
      NextInWidth(r, bits[0], top, poly);
      NextInWidth(s, bits[0], top, poly);
      TopBitTells(Xor(r, w), top, poly);
      TopBitTells(Xor(s, w), top, poly);
      SerialInjective(Shift(Xor(r, w), poly), Shift(Xor(s, w), poly), top, poly, bits[1..]);
      ShiftInjective(Xor(r, w), Xor(s, w), top, poly);
      XorTwice(r, w);
      XorTwice(s, w);
    }
  }

  lemma {:induction false} ShiftsInjective(r: bv32, s: bv32, top: bv32, poly: bv32, n: nat)
    requires TopBit(top, poly) && InWidth(r, top) && InWidth(s, top) && Shifts(r, poly, n) == Shifts(s, poly, n)
    ensures r == s
    decreases n
  {
    hide Shift, TopBit, InWidth;
    if n > 0 {
      TopBitTells(r, top, poly);
      TopBitTells(s, top, poly);
      ShiftsInjective(Shift(r, poly), Shift(s, poly), top, poly, n - 1);
      ShiftInjective(r, s, top, poly);
    }
  }

  lemma {:induction false} SerialInWidth(r: bv32, top: bv32, poly: bv32, bits: seq<bool>)
    requires TopBit(top, poly) && InWidth(r, top)
    ensures InWidth(Serial(r, poly, bits), top)
    decreases |bits|
  {
    hide Shift, Xor, BitWord, TopBit, InWidth;
    if bits != [] {
      NextInWidth(r, bits[0], top, poly);
      TopBitTells(Xor(r, BitWord(bits[0])), top, poly);
      SerialInWidth(Shift(Xor(r, BitWord(bits[0])), poly), top, poly, bits[1..]);
    }
  }

  lemma ByteInWidth(r: bv32, x: bv8, top: bv32, poly: bv32)
    requires TopBit(top, poly) && InWidth(r, top)
    ensures InWidth(Xor(r, x as bv32), top)
  {
  }

  lemma SameByte(r: bv32, x: bv8, y: bv8)
    requires Xor(r, x as bv32) == Xor(r, y as bv32)
    ensures x == y
  {
  }

  /** A single byte changed anywhere changes the check value. */
  lemma OneByteShows(a: seq<bv8>, x: bv8, y: bv8, c: seq<bv8>, initial: bv32, top: bv32, poly: bv32)
    requires TopBit(top, poly) && InWidth(initial, top) && x != y
    ensures Serial(initial, poly, Bits(a + [x] + c)) != Serial(initial, poly, Bits(a + [y] + c))
  {
    hide Serial, Bits, Xor, TopBit, InWidth, Shifts;
    var r := Serial(initial, poly, Bits(a));
    SerialInWidth(initial, top, poly, Bits(a));
    ThroughByte(a, x, c, initial, poly);
    ThroughByte(a, y, c, initial, poly);
    var rx, ry := Serial(r, poly, Bits([x])), Serial(r, poly, Bits([y]));
    SerialInWidth(r, top, poly, Bits([x]));
    SerialInWidth(r, top, poly, Bits([y]));
    ByteInWidth(r, x, top, poly);
    ByteInWidth(r, y, top, poly);
    if rx == ry {
      ShiftsInjective(Xor(r, x as bv32), Xor(r, y as bv32), top, poly, 8);
      SameByte(r, x, y);
    } else if Serial(rx, poly, Bits(c)) == Serial(ry, poly, Bits(c)) {
      SerialInjective(rx, ry, top, poly, Bits(c));
    }
  }

  lemma ThroughByte(a: seq<bv8>, x: bv8, c: seq<bv8>, initial: bv32, poly: bv32)
    ensures var r := Serial(initial, poly, Bits(a));
            && Serial(initial, poly, Bits(a + [x] + c)) == Serial(Serial(r, poly, Bits([x])), poly, Bits(c))
            && Serial(r, poly, Bits([x])) == Shifts(Xor(r, x as bv32), poly, 8)
  {
    hide Serial, Xor, Shifts, BitsOf;
    var r := Serial(initial, poly, Bits(a));
    BitsAppend(a + [x], c);
    BitsAppend(a, [x]);
    SerialAppend(initial, poly, Bits(a) + Bits([x]), Bits(c));
    SerialAppend(initial, poly, Bits(a), Bits([x]));
    assert Bits([x]) == BitsOf(x as bv32, 8) + Bits([]);
    assert Bits([x]) == BitsOf(x as bv32, 8);
    ByteFits(x);
    FeedBits(r, poly, x as bv32, 8);
  }
}
