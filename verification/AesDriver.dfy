/** The AES mode driver: batches of at most 0xFFFF blocks through bounded FIFOs, with the IV updated in place between
    them. */
module AesDriver {
  import opened AesCounter

  /** The engine's block cipher, an uninterpreted permutation, and the bitwise exclusive or of blocks. */
  datatype Engine = Engine(enc: Block -> Block, dec: Block -> Block, xor: (Block, Block) -> Block)

  ghost predicate Sane(eng: Engine) {
    && (forall b :: eng.dec(eng.enc(b)) == b)
    && (forall b :: eng.enc(eng.dec(b)) == b)
    && (forall a, b :: eng.xor(eng.xor(a, b), b) == a)
  }

  /** A block combined with different blocks gives different blocks. */
  ghost predicate Cancels(eng: Engine) { forall a, b, c :: eng.xor(a, b) == eng.xor(a, c) ==> b == c }

  datatype Mode = Ctr | CbcDecrypt | CbcEncrypt | EcbDecrypt | EcbEncrypt

  /** One block through the engine, chained by the block `iv`. */
  function CryptOne(eng: Engine, m: Mode, iv: Block, b: Block): Block {
    match m
    case Ctr => eng.xor(b, eng.enc(iv))
    case CbcDecrypt => eng.xor(eng.dec(b), iv)
    case CbcEncrypt => eng.enc(eng.xor(b, iv))
    case EcbDecrypt => eng.dec(b)
    case EcbEncrypt => eng.enc(b)
  }

  /** The counter block after `iv`. */
  function Successor(iv: Block): Block { Swapped(AddWords(Swapped(iv), 1)) }

  function NextIv(eng: Engine, m: Mode, iv: Block, b: Block): Block {
    match m
    case Ctr => Successor(iv)
    case CbcDecrypt => b
    case CbcEncrypt => CryptOne(eng, m, iv, b)
    case EcbDecrypt => iv
    case EcbEncrypt => iv
  }

  /** A whole message in one go. */
  function Crypt(eng: Engine, m: Mode, iv: Block, bs: seq<Block>): (r: seq<Block>)
    ensures |r| == |bs|
    decreases |bs|
  {
    if bs == [] then [] else [CryptOne(eng, m, iv, bs[0])] + Crypt(eng, m, NextIv(eng, m, iv, bs[0]), bs[1..])
  }

  /** The chaining block after a message. */
  function IvAfter(eng: Engine, m: Mode, iv: Block, bs: seq<Block>): Block
    decreases |bs|
  {
    if bs == [] then iv else IvAfter(eng, m, NextIv(eng, m, iv, bs[0]), bs[1..])
  }

  lemma {:induction false} CryptAppend(eng: Engine, m: Mode, iv: Block, a: seq<Block>, b: seq<Block>)
    ensures Crypt(eng, m, iv, a + b) == Crypt(eng, m, iv, a) + Crypt(eng, m, IvAfter(eng, m, iv, a), b)
    ensures IvAfter(eng, m, iv, a + b) == IvAfter(eng, m, IvAfter(eng, m, iv, a), b)
    decreases |a|
  {
    hide CryptOne, NextIv;
    if a == [] {
      assert a + b == b;
    } else {
      assert (a + b)[1..] == a[1..] + b;
      CryptAppend(eng, m, NextIv(eng, m, iv, a[0]), a[1..], b);
    }
  }

  lemma CryptPrefix(eng: Engine, m: Mode, iv: Block, bs: seq<Block>, k: nat)
    requires k <= |bs|
    ensures Crypt(eng, m, iv, bs[..k]) == Crypt(eng, m, iv, bs)[..k]
  {
    assert bs == bs[..k] + bs[k..];
    CryptAppend(eng, m, iv, bs[..k], bs[k..]);
  }

  /** The block, in the order of the data, that a counter in memory stands for. */
  function Canon(iv: Block, m: CtrMode): Block { Swapped(Digits(iv, m)) }

  lemma CanonValue(iv: Block, m: CtrMode)
    ensures Value(Canon(iv, m), BE_NORMAL) == Value(iv, m)
    ensures m == BE_NORMAL ==> Canon(iv, m) == iv
  {
    SwappedTwice(Digits(iv, m));
    SwappedTwice(iv);
  }

  lemma SameCanon(a: Block, m: CtrMode, b: Block, n: CtrMode)
    requires Value(a, m) == Value(b, n)
    ensures Canon(a, m) == Canon(b, n)
  {
    NumberInjective(Digits(a, m), Digits(b, n));
  }

  lemma SuccessorValue(iv: Block)
    ensures Value(Successor(iv), BE_NORMAL) == (Value(iv, BE_NORMAL) + 1) % TWO_128
  {
    hide Bswap, Number;
    SwappedTwice(AddWords(Swapped(iv), 1));
    AddWordsAdds(Swapped(iv), 1);
  }

  lemma ModShift(v: nat, n: nat)
    requires v < TWO_128
    ensures ((v + 1) % TWO_128 + n) % TWO_128 == (v + 1 + n) % TWO_128
  {
    if v + 1 == TWO_128 {
      ModOnce(0, TWO_128);
      AddModulus(n, TWO_128);
    } else {
      SmallMod(v + 1, TWO_128);
    }
  }

  lemma SmallMod(x: nat, m: nat)
    requires x < m
    ensures x % m == x
  {
  }

  lemma AddModulus(n: nat, m: nat)
    requires m > 0
    ensures (m + n) % m == n % m
  {
    var q, r := n / m, n % m;
    assert m + n == (q + 1) * m + r;
    RemainderUnique(m, m + n, q + 1, r);
  }

  lemma RemainderUnique(m: nat, x: nat, q: nat, r: nat)
    requires r < m && x == q * m + r
    ensures x % m == r
  {
    var d := x / m - q;
    assert x == x / m * m + x % m;
    assert d * m == r - x % m;
    Multiple(d, m);
  }

  lemma Multiple(d: int, m: nat)
    ensures d > 0 ==> d * m >= m
    ensures d < 0 ==> d * m <= -(m as int)
  {
  }

  /** In counter mode the chaining block after `n` blocks is the counter plus `n`. */
  lemma {:induction false} CounterAfter(eng: Engine, iv: Block, bs: seq<Block>)
    ensures Value(IvAfter(eng, Ctr, iv, bs), BE_NORMAL) == (Value(iv, BE_NORMAL) + |bs|) % TWO_128
    decreases |bs|
  {
    hide Value, Successor;
    if bs == [] {
      SmallMod(Value(iv, BE_NORMAL), TWO_128);
    } else {
      CounterAfter(eng, Successor(iv), bs[1..]);
      SuccessorValue(iv);
      ModShift(Value(iv, BE_NORMAL), |bs| - 1);
    }
  }

  /** In CBC mode the chaining block is the last block of cipher text. */
  lemma {:induction false} CbcIvAfter(eng: Engine, iv: Block, bs: seq<Block>)
    requires bs != []
    ensures IvAfter(eng, CbcDecrypt, iv, bs) == bs[|bs| - 1]
    ensures IvAfter(eng, CbcEncrypt, iv, bs) == Crypt(eng, CbcEncrypt, iv, bs)[|bs| - 1]
    decreases |bs|
  {
    if |bs| > 1 {
      CbcIvAfter(eng, bs[0], bs[1..]);
      CbcIvAfter(eng, NextIv(eng, CbcEncrypt, iv, bs[0]), bs[1..]);
    }
  }

  /** The FIFOs hold sixteen words, which is four blocks. */
  const FIFO := 4

  /** The engine working through its input FIFO between two looks at it: any number `k` of blocks that fit its output,
      and at least one when the processor could neither write nor read. */
  method EngineRuns(eng: Engine, m: Mode, chain: Block, wrFifo: seq<Block>, rdFifo: seq<Block>, idle: bool)
    returns (chain1: Block, wr: seq<Block>, rd: seq<Block>, ghost k: nat)
    requires |wrFifo| <= FIFO && |rdFifo| <= FIFO && (idle ==> wrFifo != [] && |rdFifo| < FIFO)
    ensures k <= |wrFifo| && (idle ==> k > 0) && wr == wrFifo[k..] && |rd| <= FIFO
    ensures rd == rdFifo + Crypt(eng, m, chain, wrFifo[..k]) && chain1 == IvAfter(eng, m, chain, wrFifo[..k])
  {
    var n: nat := if idle then 1 else 0;
    var more: nat := *;
    if n <= more <= |wrFifo| && |rdFifo| + more <= FIFO {
      n := more;
    }
    k := n;
    chain1 := IvAfter(eng, m, chain, wrFifo[..n]);
    wr, rd := wrFifo[n..], rdFifo + Crypt(eng, m, chain, wrFifo[..n]);
  }

  /** What the FIFOs hold when `fed` blocks of `input` went in, `done` were processed and `got` came out. */
  ghost predicate Flowing(eng: Engine, m: Mode, iv: Block, input: seq<Block>, fed: nat, done: nat, got: nat,
                          chain: Block, wr: seq<Block>, rd: seq<Block>) {
    && got <= done <= fed <= |input| && fed - done <= FIFO && done - got <= FIFO
    && wr == input[done..fed] && rd == Crypt(eng, m, iv, input)[got..done]
    && chain == IvAfter(eng, m, iv, input[..done])
  }

  /** The engine keeps the flow, whatever it does. */
  lemma EngineKeepsFlow(eng: Engine, m: Mode, iv: Block, input: seq<Block>, fed: nat, done: nat, got: nat,
                        chain: Block, wr: seq<Block>, rd: seq<Block>, k: nat)
    requires Flowing(eng, m, iv, input, fed, done, got, chain, wr, rd) && k <= |wr|
    requires |rd + Crypt(eng, m, chain, wr[..k])| <= FIFO
    ensures Flowing(eng, m, iv, input, fed, done + k, got, IvAfter(eng, m, chain, wr[..k]), wr[k..],
                    rd + Crypt(eng, m, chain, wr[..k]))
  {
    hide Crypt, IvAfter;
    var a, b, c := input[..done], wr[..k], Crypt(eng, m, iv, input);
    assert input[..done + k] == a + b;
    CryptAppend(eng, m, iv, a, b);
    CryptPrefix(eng, m, iv, input, done + k);
    CryptPrefix(eng, m, iv, input, done);
    JoinSlices(c, got, done, k, Crypt(eng, m, chain, b));
  }

  lemma JoinSlices(c: seq<Block>, got: nat, done: nat, k: nat, x: seq<Block>)
    requires got <= done && done + k <= |c| && c[..done + k] == c[..done] + x
    ensures c[got..done + k] == c[got..done] + x
  {
    assert forall i :: done <= i < done + k ==> c[i] == c[..done + k][i];
  }

  /** The processor's half of the loop of `aes_batch`: it feeds one block, if there is one and space for it. */
  method Feed(eng: Engine, m: Mode, iv: Block, mem: array<Block>, src: nat, count: nat, wbc: nat, wr: seq<Block>,
              ghost input: seq<Block>, ghost done: nat, ghost got: nat, ghost chain: Block, ghost rd: seq<Block>)
    returns (wbc1: nat, wr1: seq<Block>)
    requires wbc <= count == |input| && src + count <= mem.Length
    requires Flowing(eng, m, iv, input, count - wbc, done, got, chain, wr, rd)
    requires mem[src + (count - wbc)..src + count] == input[count - wbc..]
    ensures wbc1 == if wbc > 0 && |wr| < FIFO then wbc - 1 else wbc
    ensures Flowing(eng, m, iv, input, count - wbc1, done, got, chain, wr1, rd)
  {
    hide Crypt, IvAfter;
    wbc1, wr1 := wbc, wr;
    if wbc > 0 && |wr| < FIFO {
      assert mem[src + (count - wbc)] == mem[src + (count - wbc)..src + count][0] == input[count - wbc];
      wr1 := wr + [mem[src + (count - wbc)]];
      wbc1 := wbc - 1;
    }
  }

  /** The other half: it takes one block out, if there is one. */
  method Drain(eng: Engine, m: Mode, iv: Block, mem: array<Block>, dst: nat, count: nat, rbc: nat, rd: seq<Block>,
               ghost input: seq<Block>, ghost fed: nat, ghost done: nat, ghost chain: Block, ghost wr: seq<Block>)
    returns (rbc1: nat, rd1: seq<Block>)
    requires rbc <= count == |input| && dst + count <= mem.Length
    requires Flowing(eng, m, iv, input, fed, done, count - rbc, chain, wr, rd)
    modifies mem
    ensures rbc1 == if rd != [] then rbc - 1 else rbc
    ensures 0 <= rbc1 && Flowing(eng, m, iv, input, fed, done, count - rbc1, chain, wr, rd1)
    ensures mem[..] == if rd != [] then old(mem[..])[dst + (count - rbc) := Crypt(eng, m, iv, input)[count - rbc]]
              else old(mem[..])
  {
    hide Crypt, IvAfter;
    rbc1, rd1 := rbc, rd;
    if |rd| >= 1 {
      mem[dst + (count - rbc)] := rd[0];
      rd1 := rd[1..];
      rbc1 := rbc - 1;
    }
  }

  /** The first `got` blocks of `c` have been stored from `dst` on. */
  ghost predicate Stored(before: seq<Block>, now: seq<Block>, dst: nat, got: nat, c: seq<Block>) {
    got <= |c| && dst + |c| <= |before| == |now|
    && forall i :: 0 <= i < |now| ==> now[i] == if dst <= i < dst + got then c[i - dst] else before[i]
  }

  /** Input not yet fed is still in memory: output never runs ahead of input. */
  lemma Unfed(before: seq<Block>, now: seq<Block>, dst: nat, src: nat, got: nat, fed: nat, c: seq<Block>)
    requires Stored(before, now, dst, got, c) && got <= fed <= |c| && src + |c| <= |before|
    requires dst == src || dst + |c| <= src || src + |c| <= dst
    ensures now[src + fed..src + |c|] == before[src..src + |c|][fed..]
  {
  }

  lemma AllStored(before: seq<Block>, now: seq<Block>, dst: nat, c: seq<Block>)
    requires Stored(before, now, dst, |c|, c)
    ensures now == before[..dst] + c + before[dst + |c|..]
  {
  }

  lemma StoreOne(before: seq<Block>, now: seq<Block>, dst: nat, got: nat, c: seq<Block>)
    requires Stored(before, now, dst, got, c) && got < |c|
    ensures dst + got < |now| && Stored(before, now[dst + got := c[got]], dst, got + 1, c)
  {
  }

  /** The sizes in a flow: an idle processor leaves the engine something to do. */
  lemma FlowSizes(eng: Engine, m: Mode, iv: Block, input: seq<Block>, fed: nat, done: nat, got: nat, chain: Block,
                  wr: seq<Block>, rd: seq<Block>)
    requires Flowing(eng, m, iv, input, fed, done, got, chain, wr, rd)
    ensures |wr| == fed - done <= FIFO && |rd| == done - got <= FIFO && got <= done <= fed <= |input|
  {
  }

  /** One turn of the loop of `aes_batch`. */
  method Poll(eng: Engine, m: Mode, iv: Block, mem: array<Block>, dst: nat, src: nat, count: nat,
              wbc: nat, rbc: nat, chain: Block, wr: seq<Block>, rd: seq<Block>, ghost before: seq<Block>,
              ghost done: nat)
    returns (wbc1: nat, rbc1: nat, chain1: Block, wr1: seq<Block>, rd1: seq<Block>, ghost done1: nat)
    requires dst + count <= mem.Length == |before| && src + count <= mem.Length
    requires dst == src || dst + count <= src || src + count <= dst
    requires wbc <= rbc <= count && rbc > 0
    requires Flowing(eng, m, iv, before[src..src + count], count - wbc, done, count - rbc, chain, wr, rd)
    requires Stored(before, mem[..], dst, count - rbc, Crypt(eng, m, iv, before[src..src + count]))
    modifies mem
    ensures wbc1 <= wbc && rbc1 <= rbc && wbc1 <= rbc1 && wbc1 + rbc1 < wbc + rbc
    ensures Flowing(eng, m, iv, before[src..src + count], count - wbc1, done1, count - rbc1, chain1, wr1, rd1)
    ensures Stored(before, mem[..], dst, count - rbc1, Crypt(eng, m, iv, before[src..src + count]))
  {
    hide Crypt, IvAfter, Flowing, Stored;
    ghost var input, c := before[src..src + count], Crypt(eng, m, iv, before[src..src + count]);
    FlowSizes(eng, m, iv, input, count - wbc, done, count - rbc, chain, wr, rd);
    var idle := !(wbc > 0 && |wr| < FIFO) && rd == [];
    ghost var k;
    chain1, wr1, rd1, k := EngineRuns(eng, m, chain, wr, rd, idle);
    EngineKeepsFlow(eng, m, iv, input, count - wbc, done, count - rbc, chain, wr, rd, k);
    done1 := done + k;
    FlowSizes(eng, m, iv, input, count - wbc, done1, count - rbc, chain1, wr1, rd1);
    Unfed(before, mem[..], dst, src, count - rbc, count - wbc, c);
    wbc1, wr1 := Feed(eng, m, iv, mem, src, count, wbc, wr1, input, done1, count - rbc, chain1, rd1);
    StoreOne(before, mem[..], dst, count - rbc, c);
    rbc1, rd1 := Drain(eng, m, iv, mem, dst, count, rbc, rd1, input, count - wbc1, done1, chain1, wr1);
    FlowSizes(eng, m, iv, input, count - wbc1, done1, count - rbc1, chain1, wr1, rd1);
  }

  /** `aes_batch`: the processor feeds and drains the FIFOs; the output may go where the input came from. */
  method AesBatch(eng: Engine, m: Mode, iv: Block, mem: array<Block>, dst: nat, src: nat, count: nat)
    requires dst + count <= mem.Length && src + count <= mem.Length
    requires dst == src || dst + count <= src || src + count <= dst
    modifies mem
    ensures mem[..] == old(mem[..dst]) + Crypt(eng, m, iv, old(mem[src..src + count])) + old(mem[dst + count..])
  {
    hide Crypt, IvAfter;
    ghost var before, done := mem[..], 0;
    ghost var input, c := mem[src..src + count], Crypt(eng, m, iv, mem[src..src + count]);
    assert before[src..src + count] == input;
    var wbc: nat, rbc: nat := count, count;
    var chain, wr, rd: seq<Block> := iv, [], [];
    StartFlow(eng, m, iv, input);
    while rbc > 0
      invariant wbc <= rbc <= count
      invariant Flowing(eng, m, iv, input, count - wbc, done, count - rbc, chain, wr, rd)
      invariant Stored(before, mem[..], dst, count - rbc, c)
      decreases wbc + rbc
    {
      wbc, rbc, chain, wr, rd, done := Poll(eng, m, iv, mem, dst, src, count, wbc, rbc, chain, wr, rd, before, done);
    }
    AllStored(before, mem[..], dst, c);
  }

  lemma StartFlow(eng: Engine, m: Mode, iv: Block, input: seq<Block>)
    ensures Flowing(eng, m, iv, input, 0, 0, 0, iv, [], [])
  {
  }

  /** The block the engine chains with, from its counter registers. */
  function EngineBlock(regs: Block, m: CtrMode): Block {
    Swapped(Reversed(if m.bigEndian then Swapped(regs) else regs))
  }

  /** `aes_setiv`. */
  method SetIv(iv: array<u32>, m: CtrMode) returns (chain: Block)
    requires iv.Length == 4
    ensures chain == Canon(Words(iv), m)
  {
    hide Bswap;
    var regs := if m.normal then Block(iv[3], iv[2], iv[1], iv[0]) else Block(iv[0], iv[1], iv[2], iv[3]);
    chain := EngineBlock(regs, m);
  }

  /** The update of the IV in memory that a batch ends with, for the modes that chain. */
  method SaveBlock(iv: array<u32>, b: Block, ivMode: CtrMode)
    requires iv.Length == 4
    modifies iv
    ensures Canon(Words(iv), ivMode) == b
  {
    iv[0], iv[1], iv[2], iv[3] := b.w0, b.w1, b.w2, b.w3;
    assert Words(iv) == b;
    ChangeCtrMode(iv, BE_NORMAL, ivMode);
    CanonValue(b, BE_NORMAL);
    SameCanon(Words(iv), ivMode, b, BE_NORMAL);
  }

  predicate Chains(m: Mode) { m == Ctr || m == CbcDecrypt || m == CbcEncrypt }

  /** `now` is `before` with `n` blocks from `src` on put through the mode and stored from `dst` on, and `iv` continues
      them. */
  ghost predicate Crypted(eng: Engine, m: Mode, chain: Block, before: seq<Block>, now: seq<Block>, dst: nat, src: nat,
                          n: nat, iv: Block) {
    && dst + n <= |before| && src + n <= |before|
    && now == before[..dst] + Crypt(eng, m, chain, before[src..src + n]) + before[dst + n..]
    && iv == IvAfter(eng, m, chain, before[src..src + n])
  }

  lemma AsCrypted(eng: Engine, m: Mode, chain: Block, before: seq<Block>, now: seq<Block>, dst: nat, src: nat, n: nat,
                  iv: Block)
    requires dst + n <= |before| && src + n <= |before|
    requires now == before[..dst] + Crypt(eng, m, chain, before[src..src + n]) + before[dst + n..]
    requires iv == IvAfter(eng, m, chain, before[src..src + n])
    ensures Crypted(eng, m, chain, before, now, dst, src, n, iv)
  {
  }

  /** The modes that do not chain take no notice of the chaining block. */
  lemma {:induction false} EcbIgnoresIv(eng: Engine, m: Mode, iv: Block, iv1: Block, bs: seq<Block>)
    requires !Chains(m)
    ensures Crypt(eng, m, iv, bs) == Crypt(eng, m, iv1, bs)
    decreases |bs|
  {
    if bs != [] {
      EcbIgnoresIv(eng, m, iv, iv1, bs[1..]);
    }
  }

  /** One batch of `aes`. */
  method OneBatch(eng: Engine, mem: array<Block>, dst: nat, src: nat, blocks: nat, iv: array<u32>, mode: Mode,
                  ivMode: CtrMode)
    requires iv.Length == 4 && 0 < blocks <= 0xFFFF && dst + blocks <= mem.Length && src + blocks <= mem.Length
    requires dst == src || dst + blocks <= src || src + blocks <= dst
    modifies mem, iv
    ensures Crypted(eng, mode, old(Canon(Words(iv), ivMode)), old(mem[..]), mem[..], dst, src, blocks,
                    Canon(Words(iv), ivMode))
  {
    hide Crypt, IvAfter, Canon, Crypted;
    ghost var before, input := mem[..], mem[src..src + blocks];
    assert before[src..src + blocks] == input && before[..dst] == mem[..dst]
           && before[dst + blocks..] == mem[dst + blocks..];
    var chain: Block := *;
    ghost var iv0 := Canon(Words(iv), ivMode);
    if Chains(mode) {
      chain := SetIv(iv, ivMode);
    } else {
      EcbIgnoresIv(eng, mode, chain, iv0, input);
    }
    if mode == CbcDecrypt {
      SaveBlock(iv, mem[src + (blocks - 1)], ivMode);
    }
    AesBatch(eng, mode, chain, mem, dst, src, blocks);
    if mode == CbcEncrypt {
      SaveBlock(iv, mem[dst + (blocks - 1)], ivMode);
    } else if mode == Ctr {
      AdvanceCounter(iv, blocks, ivMode);
    }
    if mode == Ctr {
      CtrIv(eng, old(Words(iv)), Words(iv), ivMode, input);
    } else if mode == CbcDecrypt || mode == CbcEncrypt {
      CbcIvAfter(eng, chain, input);
    } else {
      EcbIvAfter(eng, mode, iv0, input);
    }
    AsCrypted(eng, mode, iv0, before, mem[..], dst, src, blocks, Canon(Words(iv), ivMode));
  }

  /** The counter in memory after a batch is the one the next block needs. */
  lemma CtrIv(eng: Engine, before: Block, after: Block, m: CtrMode, input: seq<Block>)
    requires Value(after, m) == (Value(before, m) + |input|) % TWO_128
    ensures Canon(after, m) == IvAfter(eng, Ctr, Canon(before, m), input)
  {
    hide Value, Digits, IvAfter, Canon;
    CanonValue(before, m);
    CanonValue(after, m);
    CounterAfter(eng, Canon(before, m), input);
    ValueInjective(Canon(after, m), IvAfter(eng, Ctr, Canon(before, m), input), BE_NORMAL);
  }

  lemma {:induction false} EcbIvAfter(eng: Engine, m: Mode, iv: Block, bs: seq<Block>)
    requires m == EcbDecrypt || m == EcbEncrypt
    ensures IvAfter(eng, m, iv, bs) == iv
    decreases |bs|
  {
    if bs != [] {
      EcbIvAfter(eng, m, iv, bs[1..]);
    }
  }

  /** Two batches one after the other are one longer batch. */
  lemma TwoBatches(eng: Engine, m: Mode, chain: Block, before: seq<Block>, mid: seq<Block>, after: seq<Block>,
                   dst: nat, src: nat, n: nat, k: nat, iv: Block, iv1: Block)
    requires Crypted(eng, m, chain, before, mid, dst, src, n, iv)
             && Crypted(eng, m, iv, mid, after, dst + n, src + n, k, iv1)
    requires |mid| == |before| && (dst == src || dst + n + k <= src || src + n + k <= dst)
    ensures Crypted(eng, m, chain, before, after, dst, src, n + k, iv1)
  {
    hide Crypt, IvAfter;
    var a, b := before[src..src + n], before[src + n..src + n + k];
    Untouched(before, mid, dst, Crypt(eng, m, chain, a), src + n, src + n + k);
    Untouched(before, mid, dst, Crypt(eng, m, chain, a), dst + n + k, |before|);
    assert before[src..src + n + k] == a + b;
    CryptAppend(eng, m, chain, a, b);
  }

  /** A stretch beside the one that was stored. */
  lemma Untouched(before: seq<Block>, mid: seq<Block>, at: nat, c: seq<Block>, lo: nat, hi: nat)
    requires at + |c| <= |before| && mid == before[..at] + c + before[at + |c|..]
    requires lo <= hi <= |before| && (hi <= at || at + |c| <= lo)
    ensures |mid| == |before| && mid[lo..hi] == before[lo..hi]
  {
    forall i | lo <= i < hi
      ensures mid[i] == before[i]
    {
    }
  }

  /** A further batch of `aes`. */
  method NextBatch(eng: Engine, mem: array<Block>, dst: nat, src: nat, n: nat, blocks: nat, iv: array<u32>, mode: Mode,
                   ivMode: CtrMode, ghost before: seq<Block>, ghost chain: Block)
    requires iv.Length == 4 && 0 < blocks <= 0xFFFF
             && dst + n + blocks <= mem.Length == |before| && src + n + blocks <= mem.Length
    requires dst == src || dst + n + blocks <= src || src + n + blocks <= dst
    requires Crypted(eng, mode, chain, before, mem[..], dst, src, n, Canon(Words(iv), ivMode))
    modifies mem, iv
    ensures Crypted(eng, mode, chain, before, mem[..], dst, src, n + blocks, Canon(Words(iv), ivMode))
  {
    hide Crypt, IvAfter, Canon, Crypted;
    ghost var mid, iv0 := mem[..], Canon(Words(iv), ivMode);
    OneBatch(eng, mem, dst + n, src + n, blocks, iv, mode, ivMode);
    TwoBatches(eng, mode, chain, before, mid, mem[..], dst, src, n, blocks, iv0, Canon(Words(iv), ivMode));
  }

  /** `aes`: however many batches it takes, the output is that of one pass over the whole message, and the IV in memory
      is the one that continues it. */
  method Aes(eng: Engine, mem: array<Block>, dst: nat, src: nat, blockCount: nat, iv: array<u32>, mode: Mode,
             ivMode: CtrMode)
    requires iv.Length == 4 && dst + blockCount <= mem.Length && src + blockCount <= mem.Length
    requires dst == src || dst + blockCount <= src || src + blockCount <= dst
    modifies mem, iv
    ensures Crypted(eng, mode, old(Canon(Words(iv), ivMode)), old(mem[..]), mem[..], dst, src, blockCount,
                    Canon(Words(iv), ivMode))
  {
    hide Crypt, IvAfter, Canon, Crypted, Words;
    var left: nat, n: nat := blockCount, 0;
    ghost var before, chain := mem[..], Canon(Words(iv), ivMode);
    NoBlocks(eng, mode, chain, before, dst, src);
    while left != 0
      invariant n + left == blockCount && |before| == mem.Length
      invariant Crypted(eng, mode, chain, before, mem[..], dst, src, n, Canon(Words(iv), ivMode))
      decreases left
    {
      var blocks := if left >= 0xFFFF then 0xFFFF else left;
      NextBatch(eng, mem, dst, src, n, blocks, iv, mode, ivMode, before, chain);
      n, left := n + blocks, left - blocks;
    }
  }

  lemma NoBlocks(eng: Engine, m: Mode, iv: Block, before: seq<Block>, dst: nat, src: nat)
    requires dst <= |before| && src <= |before|
    ensures Crypted(eng, m, iv, before, before, dst, src, 0, iv)
  {
  }

  /** Counter mode block by block: the mode of section 6.5 of NIST SP 800-38A. */
  lemma {:induction false} CtrBlock(eng: Engine, iv: Block, bs: seq<Block>, i: nat)
    requires i < |bs|
    ensures Crypt(eng, Ctr, iv, bs)[i] == eng.xor(bs[i], eng.enc(IvAfter(eng, Ctr, iv, bs[..i])))
    ensures Value(IvAfter(eng, Ctr, iv, bs[..i]), BE_NORMAL) == (Value(iv, BE_NORMAL) + i) % TWO_128
    decreases |bs|
  {
    hide Value, Successor;
    CounterAfter(eng, iv, bs[..i]);
    if i > 0 {
      CtrBlock(eng, Successor(iv), bs[1..], i - 1);
      assert bs[..i][1..] == bs[1..][..i - 1];
    }
  }

  /** Cipher block chaining block by block: the mode of section 6.2 of NIST SP 800-38A. */
  lemma {:induction false} CbcBlock(eng: Engine, iv: Block, bs: seq<Block>, i: nat)
    requires i < |bs|
    ensures Crypt(eng, CbcDecrypt, iv, bs)[i] == eng.xor(eng.dec(bs[i]), if i == 0 then iv else bs[i - 1])
    ensures var c := Crypt(eng, CbcEncrypt, iv, bs); c[i] == eng.enc(eng.xor(bs[i], if i == 0 then iv else c[i - 1]))
    decreases |bs|
  {
    if i > 0 {
      CbcBlock(eng, bs[0], bs[1..], i - 1);
      CbcBlock(eng, NextIv(eng, CbcEncrypt, iv, bs[0]), bs[1..], i - 1);
    }
  }

  /** Code book mode block by block: the mode of section 6.1 of NIST SP 800-38A. */
  lemma {:induction false} EcbBlock(eng: Engine, iv: Block, bs: seq<Block>, i: nat)
    requires i < |bs|
    ensures Crypt(eng, EcbEncrypt, iv, bs)[i] == eng.enc(bs[i]) && Crypt(eng, EcbDecrypt, iv, bs)[i] == eng.dec(bs[i])
    decreases |bs|
  {
    if i > 0 {
      EcbBlock(eng, iv, bs[1..], i - 1);
    }
  }

  /** The mode that undoes a mode. */
  function Inverse(m: Mode): Mode {
    match m
    case Ctr => Ctr
    case CbcEncrypt => CbcDecrypt
    case CbcDecrypt => CbcEncrypt
    case EcbEncrypt => EcbDecrypt
    case EcbDecrypt => EcbEncrypt
  }

  lemma {:induction false} CryptUndone(eng: Engine, m: Mode, iv: Block, bs: seq<Block>)
    requires Sane(eng)
    ensures Crypt(eng, Inverse(m), iv, Crypt(eng, m, iv, bs)) == bs
    decreases |bs|
  {
    if bs != [] {
      var c := Crypt(eng, m, iv, bs);
      CryptUndone(eng, m, NextIv(eng, m, iv, bs[0]), bs[1..]);
      assert c[1..] == Crypt(eng, m, NextIv(eng, m, iv, bs[0]), bs[1..]);
      assert NextIv(eng, Inverse(m), iv, c[0]) == NextIv(eng, m, iv, bs[0]);
    }
  }
}
