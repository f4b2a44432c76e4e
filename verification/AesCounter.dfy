/** The 128-bit AES counter in memory: four words in one of four word and byte orders, advanced and converted in
    place. */
module AesCounter {

  const B := 0x1_0000_0000
  const TWO_128 := B * B * B * B

  type u32 = x: int | 0 <= x < 0x1_0000_0000

  /** The two bits of an input mode: byte order within a word, and order of the words. */
  datatype CtrMode = CtrMode(bigEndian: bool, normal: bool)

  const BE_NORMAL := CtrMode(true, true)

  /** Sixteen bytes, as the four words they are loaded as. */
  datatype Block = Block(w0: u32, w1: u32, w2: u32, w3: u32)

  /** `BSWAP32`. */
  function Bswap(x: u32): (y: u32) {
    var b0, x1 := x % 0x100, x as int / 0x100;
    var b1, x2 := x1 % 0x100, x1 / 0x100;
    b0 as int * 0x100_0000 + b1 * 0x1_0000 + x2 % 0x100 * 0x100 + x2 / 0x100
  }

  lemma LowByte(b: int, rest: nat)
    requires 0 <= b < 0x100
    ensures (b + 0x100 * rest) % 0x100 == b && (b + 0x100 * rest) / 0x100 == rest
  {
  }

  lemma BswapBytes(b0: int, b1: int, b2: int, b3: int)
    requires 0 <= b0 < 0x100 && 0 <= b1 < 0x100 && 0 <= b2 < 0x100 && 0 <= b3 < 0x100
    ensures Bswap(b0 + 0x100 * (b1 + 0x100 * (b2 + 0x100 * b3))) == b3 + 0x100 * (b2 + 0x100 * (b1 + 0x100 * b0))
  {
    LowByte(b0, b1 + 0x100 * (b2 + 0x100 * b3));
    LowByte(b1, b2 + 0x100 * b3);
    LowByte(b2, b3);
  }

  lemma BswapTwice(x: u32)
    ensures Bswap(Bswap(x)) == x
  {
    var b0, x1 := x as int % 0x100, x as int / 0x100;
    var b1, x2 := x1 % 0x100, x1 / 0x100;
    var b2, b3 := x2 % 0x100, x2 / 0x100;
    BswapBytes(b0, b1, b2, b3);
    BswapBytes(b3, b2, b1, b0);
  }

  function Swapped(b: Block): Block { Block(Bswap(b.w0), Bswap(b.w1), Bswap(b.w2), Bswap(b.w3)) }

  function Reversed(b: Block): Block { Block(b.w3, b.w2, b.w1, b.w0) }

  /** The words of a counter as numbers, the most significant first. */
  function Digits(b: Block, m: CtrMode): Block {
    var s := if m.bigEndian then Swapped(b) else b;
    if m.normal then s else Reversed(s)
  }

  function Number(d: Block): (n: nat)
    ensures n < TWO_128
  {
    d.w0 as int * (B * B * B) + d.w1 as int * (B * B) + d.w2 as int * B + d.w3 as int
  }

  /** The number a counter in memory stands for. */
  function Value(b: Block, m: CtrMode): (n: nat)
    ensures n < TWO_128
  {
    Number(Digits(b, m))
  }

  /** The words `aes_setiv` stores in the counter registers, and the number the engine makes of them. */
  function Registers(b: Block, m: CtrMode): Block { if m.normal then Reversed(b) else b }

  function EngineValue(regs: Block, m: CtrMode): (n: nat) {
    var r := if m.bigEndian then Swapped(regs) else regs;
    r.w0 as int + r.w1 as int * B + r.w2 as int * (B * B) + r.w3 as int * (B * B * B)
  }

  /** The engine's counter is the number in memory, for each of the four orders. */
  lemma SetIvLoadsValue(b: Block, m: CtrMode)
    ensures EngineValue(Registers(b, m), m) == Value(b, m)
  {
    hide Bswap;
  }

  lemma NumberInjective(a: Block, b: Block)
    requires Number(a) == Number(b)
    ensures a == b
  {
    var a2, b2 := (a.w0 * B + a.w1) * B + a.w2, (b.w0 * B + b.w1) * B + b.w2;
    assert Number(a) == a2 * B + a.w3 && Number(b) == b2 * B + b.w3;
    TwoDigits(a2, a.w3, b2, b.w3);
    TwoDigits(a.w0 * B + a.w1, a.w2, b.w0 * B + b.w1, b.w2);
    TwoDigits(a.w0, a.w1, b.w0, b.w1);
  }

  lemma TwoDigits(p: int, x: u32, q: int, y: u32)
    requires p * B + x == q * B + y
    ensures p == q && x == y
  {
  }

  lemma ValueInjective(a: Block, b: Block, m: CtrMode)
    requires Value(a, m) == Value(b, m)
    ensures a == b
  {
    hide Bswap, Number;
    NumberInjective(Digits(a, m), Digits(b, m));
    BswapTwice(a.w0);
    BswapTwice(a.w1);
    BswapTwice(a.w2);
    BswapTwice(a.w3);
    BswapTwice(b.w0);
    BswapTwice(b.w1);
    BswapTwice(b.w2);
    BswapTwice(b.w3);
  }

  /** The four words in an array. */
  function Words(a: array<u32>): Block
    reads a
    requires a.Length == 4
  {
    Block(a[0], a[1], a[2], a[3])
  }

  method SwapAll(ctr: array<u32>)
    requires ctr.Length == 4
    modifies ctr
    ensures Words(ctr) == Swapped(old(Words(ctr)))
  {
    for i := 0 to 4
      invariant forall k :: 0 <= k < 4 ==> ctr[k] == if k < i then Bswap(old(ctr[k])) else old(ctr[k])
    {
      ctr[i] := Bswap(ctr[i]);
    }
  }

  /** `ADD_u128_u32`: an addition that carries through the four words. */
  function AddWords(d: Block, val: u32): Block {
    var s3 := d.w3 as int + val as int;
    var s2 := d.w2 as int + (if s3 >= B then 1 else 0);
    var s1 := d.w1 as int + (if s2 >= B then 1 else 0);
    var s0 := d.w0 as int + (if s1 >= B then 1 else 0);
    Block(s0 % B, s1 % B, s2 % B, s3 % B)
  }

  /** A sum of two digits and a carry, as a digit and a carry. */
  lemma DigitSum(s: nat)
    requires s < 2 * B
    ensures s % B == if s >= B then s - B else s
  {
  }

  lemma ModTwice(n: nat)
    requires n < 2 * TWO_128
    ensures n % TWO_128 == if n >= TWO_128 then n - TWO_128 else n
  {
    if n >= TWO_128 {
      ModOnce(n - TWO_128, TWO_128);
    }
  }

  lemma ModOnce(r: nat, m: nat)
    requires r < m
    ensures (r + m) % m == r
  {
    assert (r + m) / m == 1;
  }

  lemma AddWordsAdds(d: Block, val: u32)
    ensures Number(AddWords(d, val)) == (Number(d) + val as int) % TWO_128
  {
    var s3 := d.w3 as int + val as int;
    var s2 := d.w2 as int + (if s3 >= B then 1 else 0);
    var s1 := d.w1 as int + (if s2 >= B then 1 else 0);
    var s0 := d.w0 as int + (if s1 >= B then 1 else 0);
    DigitSum(s3);
    DigitSum(s2);
    DigitSum(s1);
    DigitSum(s0);
    ModTwice(Number(d) + val as int);
  }

  /** `aes_advctr`: the counter grows by `val` modulo 2^128, in whatever order it is stored. */
  method AdvanceCounter(ctr: array<u32>, val: u32, mode: CtrMode)
    requires ctr.Length == 4
    modifies ctr
    ensures Value(Words(ctr), mode) == (old(Value(Words(ctr), mode)) + val as int) % TWO_128
  {
    ghost var d := Digits(Words(ctr), mode);
    if mode.bigEndian {
      SwapAll(ctr);
    }
    if mode.normal {
      var s := AddWords(Block(ctr[0], ctr[1], ctr[2], ctr[3]), val);
      ctr[0], ctr[1], ctr[2], ctr[3] := s.w0, s.w1, s.w2, s.w3;
    } else {
      var s := AddWords(Block(ctr[3], ctr[2], ctr[1], ctr[0]), val);
      ctr[3], ctr[2], ctr[1], ctr[0] := s.w0, s.w1, s.w2, s.w3;
    }
    ghost var t := Words(ctr);
    if mode.bigEndian {
      SwapAll(ctr);
      SwappedTwice(t);
    }
    AddWordsAdds(d, val);
    assert Digits(Words(ctr), mode) == AddWords(d, val);
  }

  lemma SwappedTwice(b: Block)
    ensures Swapped(Swapped(b)) == b
  {
    hide Bswap;
    BswapTwice(b.w0);
    BswapTwice(b.w1);
    BswapTwice(b.w2);
    BswapTwice(b.w3);
  }

  /** `aes_change_ctrmode`: the words change order, the number stays. */
  method ChangeCtrMode(ctr: array<u32>, from: CtrMode, to: CtrMode)
    requires ctr.Length == 4
    modifies ctr
    ensures Value(Words(ctr), to) == old(Value(Words(ctr), from))
  {
    hide Bswap, Number;
    if from.bigEndian != to.bigEndian {
      SwapAll(ctr);
    }
    ghost var t := Words(ctr);
    SwappedTwice(old(Words(ctr)));
    if from.normal != to.normal {
      var temp := ctr[0];
      ctr[0] := ctr[3];
      ctr[3] := temp;
      temp := ctr[1];
      ctr[1] := ctr[2];
      ctr[2] := temp;
      assert Words(ctr) == Reversed(t);
    }
    assert Digits(Words(ctr), to) == old(Digits(Words(ctr), from));
  }
}
