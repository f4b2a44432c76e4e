/** Encrypted SysNAND access: counter-mode reads of any range, and writes in chunks through a fixed buffer. */
module CtrNand {
  import opened AesCounter
  import opened AesDriver

  const SECTOR_BLOCKS := 32
  const CHUNK_SECTORS := 32

  /** The counter block `n` blocks after `b`. */
  function CounterPlus(b: Block, n: u32): (c: Block) { Swapped(AddWords(Swapped(b), n)) }

  lemma CounterPlusValue(b: Block, n: u32)
    ensures Value(CounterPlus(b, n), BE_NORMAL) == (Value(b, BE_NORMAL) + n as int) % TWO_128
  {
    hide Bswap, Number;
    SwappedTwice(AddWords(Swapped(b), n));
    AddWordsAdds(Swapped(b), n);
  }

  /** The number of blocks the counter is advanced by for an access at LBA `lba`: a 32-bit byte offset over the block
      size. */
  function StartCounter(lba: nat): (n: u32) { lba * 0x200 % B / 16 }

  /** The number of sectors in 4 GiB. */
  const WRAP := 0x80_0000

  lemma StartCounterSectors(lba: nat)
    ensures StartCounter(lba) == SECTOR_BLOCKS * (lba % WRAP) && lba * 0x200 / B == lba / WRAP
  {
    var q, r := lba / WRAP, lba % WRAP;
    assert lba * 0x200 == B * q + 0x200 * r;
    assert lba * 0x200 / B == q && lba * 0x200 % B == 0x200 * r;
  }

  /** The start counter of a later sector continues that of an earlier one exactly when no 4 GiB boundary lies between
      them. */
  lemma CounterContinues(lba: nat, i: nat)
    ensures StartCounter(lba + i) == StartCounter(lba) + SECTOR_BLOCKS * i <==> lba * 0x200 / B == (lba + i) * 0x200 / B
  {
    hide StartCounter;
    StartCounterSectors(lba);
    StartCounterSectors(lba + i);
    assert lba == WRAP * (lba / WRAP) + lba % WRAP && lba + i == WRAP * ((lba + i) / WRAP) + (lba + i) % WRAP;
  }

  /** The counter of a later sector is the one that the sectors before it leave behind, exactly when no 4 GiB boundary
      lies between them. */
  lemma LaterCounter(eng: Engine, ctr: Block, lba: nat, i: nat, before: seq<Block>)
    requires |before| == SECTOR_BLOCKS * i && lba + i < B
    ensures CounterPlus(ctr, StartCounter(lba + i)) == IvAfter(eng, Ctr, CounterPlus(ctr, StartCounter(lba)), before)
       <==> lba * 0x200 / B == (lba + i) * 0x200 / B
  {
    hide IvAfter, Value, CounterPlus, StartCounter;
    var iv, iv1 := CounterPlus(ctr, StartCounter(lba)), CounterPlus(ctr, StartCounter(lba + i));
    CounterContinues(lba, i);
    CounterPlusValue(ctr, StartCounter(lba));
    CounterPlusValue(ctr, StartCounter(lba + i));
    CounterAfter(eng, iv, before);
    ModAdd(Value(ctr, BE_NORMAL) + StartCounter(lba), |before|);
    ModEqual(Value(ctr, BE_NORMAL) + StartCounter(lba) + |before|, Value(ctr, BE_NORMAL) + StartCounter(lba + i),
             TWO_128);
    if Value(iv1, BE_NORMAL) == Value(IvAfter(eng, Ctr, iv, before), BE_NORMAL) {
      ValueInjective(iv1, IvAfter(eng, Ctr, iv, before), BE_NORMAL);
    }
  }

  /** Numbers less than `m` apart have the same remainder only if they are equal. */
  lemma ModEqual(x: nat, y: nat, m: nat)
    requires m > 0 && x < y + m && y < x + m
    ensures x % m == y % m <==> x == y
  {
    var d := x / m - y / m;
    Division(x, m);
    Division(y, m);
    Multiple(d, m);
    assert d * m == x / m * m - y / m * m;
  }

  /** The blocks of a counter-mode message from block `a` on are encrypted with the counter that the blocks before
      leave. */
  lemma CipherRange(eng: Engine, iv: Block, data: seq<Block>, a: nat, b: nat)
    requires a <= b <= |data|
    ensures Crypt(eng, Ctr, iv, data)[a..b] == Crypt(eng, Ctr, IvAfter(eng, Ctr, iv, data[..a]), data[a..b])
  {
    hide Crypt, IvAfter;
    assert data[..b] == data[..a] + data[a..b];
    CryptAppend(eng, Ctr, iv, data[..a], data[a..b]);
    CryptPrefix(eng, Ctr, iv, data, b);
    assert Crypt(eng, Ctr, iv, data)[a..b] == Crypt(eng, Ctr, iv, data)[..b][a..];
  }

  /** Another counter does not decrypt. */
  lemma WrongCounter(eng: Engine, iv: Block, iv1: Block, data: seq<Block>)
    requires Sane(eng) && Cancels(eng) && data != [] && iv != iv1
    ensures Crypt(eng, Ctr, iv1, Crypt(eng, Ctr, iv, data)) != data
  {
    var x := eng.xor(data[0], eng.enc(iv));
    assert eng.dec(eng.enc(iv)) == iv && eng.dec(eng.enc(iv1)) == iv1;
    assert eng.xor(x, eng.enc(iv)) == data[0];
    assert Crypt(eng, Ctr, iv1, Crypt(eng, Ctr, iv, data))[0] == eng.xor(x, eng.enc(iv1));
  }

  /** A range of a counter-mode message, read back with the counter of its own first block, is the range that was stored
      exactly when no 4 GiB boundary lies between its start and the start of the message. */
  lemma RangeReadsBack(eng: Engine, ctr: Block, lba: nat, i: nat, data: seq<Block>, b: nat)
    requires Sane(eng) && Cancels(eng) && SECTOR_BLOCKS * i < b <= |data| && lba + i < B
    ensures Crypt(eng, Ctr, CounterPlus(ctr, StartCounter(lba + i)),
                  Crypt(eng, Ctr, CounterPlus(ctr, StartCounter(lba)), data)[SECTOR_BLOCKS * i..b])
         == data[SECTOR_BLOCKS * i..b]
       <==> lba * 0x200 / B == (lba + i) * 0x200 / B
  {
    hide Crypt, IvAfter, CounterPlus, Sane, Cancels, StartCounter;
    var a := SECTOR_BLOCKS * i;
    var iv, iv1 := CounterPlus(ctr, StartCounter(lba)), CounterPlus(ctr, StartCounter(lba + i));
    LaterCounter(eng, ctr, lba, i, data[..a]);
    CipherRange(eng, iv, data, a, b);
    if iv1 == IvAfter(eng, Ctr, iv, data[..a]) {
      CryptUndone(eng, Ctr, iv1, data[a..b]);
    } else {
      WrongCounter(eng, IvAfter(eng, Ctr, iv, data[..a]), iv1, data[a..b]);
    }
  }

  lemma ModAdd(v: nat, n: nat)
    ensures (v % TWO_128 + n) % TWO_128 == (v + n) % TWO_128
  {
    AddMultiple(v % TWO_128 + n, v / TWO_128, TWO_128);
    Division(v, TWO_128);
  }

  lemma Division(v: nat, m: nat)
    requires m > 0
    ensures v == v / m * m + v % m
  {
  }

  lemma AddMultiple(x: nat, k: nat, m: nat)
    requires m > 0
    ensures (x + k * m) % m == x % m
  {
    var q, r := x / m, x % m;
    assert x + k * m == (q + k) * m + r;
    RemainderUnique(m, x + k * m, q + k, r);
  }

  /** `was` with `data` in place of what was stored from `at` on. */
  function Replaced(was: seq<Block>, at: nat, data: seq<Block>): seq<Block>
    requires at + |data| <= |was|
  {
    was[..at] + data + was[at + |data|..]
  }

  /** The first `done` blocks of `input` are on the medium as cipher text, and `iv` continues them. */
  ghost predicate Underway(eng: Engine, start: Block, input: seq<Block>, done: nat, was: seq<Block>, now: seq<Block>,
                           at: nat, iv: Block) {
    && done <= |input|
    && iv == IvAfter(eng, Ctr, start, input[..done])
    && (done == 0 ==> now == was)
    && (done > 0 ==> at + done <= |was| && now == Replaced(was, at, Crypt(eng, Ctr, start, input[..done])))
  }

  lemma NoneWritten(eng: Engine, start: Block, input: seq<Block>, was: seq<Block>, at: nat)
    ensures Underway(eng, start, input, 0, was, was, at, start)
  {
  }

  lemma AllWritten(eng: Engine, start: Block, input: seq<Block>, was: seq<Block>, now: seq<Block>, at: nat, iv: Block)
    requires Underway(eng, start, input, |input|, was, now, at, iv)
    ensures input != [] ==> at + |input| <= |was| && now == Replaced(was, at, Crypt(eng, Ctr, start, input))
    ensures input == [] ==> now == was
  {
    assert input[..|input|] == input;
  }

  lemma NextChunk(eng: Engine, start: Block, input: seq<Block>, done: nat, n: nat, was: seq<Block>, mid: seq<Block>,
                  at: nat, iv: Block)
    requires Underway(eng, start, input, done, was, mid, at, iv) && 0 < n && done + n <= |input|
    requires |mid| == |was| && at + done + n <= |was|
    ensures Underway(eng, start, input, done + n, was,
                     Replaced(mid, at + done, Crypt(eng, Ctr, iv, input[done..done + n])), at,
                     IvAfter(eng, Ctr, iv, input[done..done + n]))
  {
    hide Crypt, IvAfter;
    assert input[..done + n] == input[..done] + input[done..done + n];
    CryptAppend(eng, Ctr, start, input[..done], input[done..done + n]);
  }

  class Nand {
    const eng: Engine
    const nandCtr: Block
    const fatStart: nat
    /** The stored blocks, 32 to a sector. */
    var blocks: seq<Block>

    constructor (eng: Engine, nandCtr: Block, fatStart: nat, blocks: seq<Block>)
      ensures this.eng == eng && this.nandCtr == nandCtr && this.fatStart == fatStart && this.blocks == blocks
    {
      this.eng, this.nandCtr, this.fatStart, this.blocks := eng, nandCtr, fatStart, blocks;
    }

    function Start(sector: nat): nat { SECTOR_BLOCKS * (sector + fatStart) }

    function Iv(sector: nat): Block { CounterPlus(nandCtr, StartCounter(sector + fatStart)) }

    /** The counter in memory that both directions start from. */
    method StartIv(sector: nat) returns (tmpCtr: array<u32>)
      requires sector + fatStart < B
      ensures fresh(tmpCtr) && tmpCtr.Length == 4 && Canon(Words(tmpCtr), BE_NORMAL) == Iv(sector)
    {
      hide Bswap, Number;
      tmpCtr := new u32[4];
      tmpCtr[0], tmpCtr[1], tmpCtr[2], tmpCtr[3] := nandCtr.w0, nandCtr.w1, nandCtr.w2, nandCtr.w3;
      assert Words(tmpCtr) == nandCtr;
      AdvanceCounter(tmpCtr, (sector + fatStart) * 0x200 % B / 16, BE_NORMAL);
      CounterPlusValue(nandCtr, StartCounter(sector + fatStart));
      CanonValue(Words(tmpCtr), BE_NORMAL);
      ValueInjective(Words(tmpCtr), Iv(sector), BE_NORMAL);
    }

    /** `ctrNandRead` on SysNAND. */
    method Read(sector: nat, sectorCount: nat, outbuf: array<Block>) returns (ok: bool)
      requires sector + fatStart + sectorCount < B && outbuf.Length == SECTOR_BLOCKS * sectorCount
      modifies outbuf
      ensures ok ==> Start(sector) + outbuf.Length <= |blocks|
      ensures ok ==> outbuf[..] == Crypt(eng, Ctr, Iv(sector), blocks[Start(sector)..Start(sector) + outbuf.Length])
    {
      hide Crypt, IvAfter, Canon, StartCounter;
      var tmpCtr := StartIv(sector);
      ok := *;
      if Start(sector) + outbuf.Length > |blocks| {
        ok := false;
      }
      if ok {
        forall k | 0 <= k < outbuf.Length {
          outbuf[k] := blocks[Start(sector) + k];
        }
        assert outbuf[..] == blocks[Start(sector)..Start(sector) + outbuf.Length];
      }
      ghost var before := outbuf[..];
      Aes(eng, outbuf, 0, 0, sectorCount * SECTOR_BLOCKS, tmpCtr, Ctr, BE_NORMAL);
      assert before[0..0 + outbuf.Length] == before && before[..0] == [] && before[0 + outbuf.Length..] == [];
    }

    /** `sdmmc_nand_writesectors`: all of the sectors, or a failure that may leave anything in them. */
    method WriteSectors(sector: nat, buffer: array<Block>, n: nat) returns (ok: bool)
      requires n <= buffer.Length
      modifies this`blocks
      ensures |blocks| == old(|blocks|)
      ensures ok ==> SECTOR_BLOCKS * sector + n <= |blocks|
      ensures ok ==> blocks == Replaced(old(blocks), SECTOR_BLOCKS * sector, buffer[..n])
      ensures SECTOR_BLOCKS * sector <= |blocks| ==>
                blocks[..SECTOR_BLOCKS * sector] == old(blocks[..SECTOR_BLOCKS * sector])
    {
      ok := *;
      var junk: seq<Block> := *;
      var at: nat := SECTOR_BLOCKS * sector;
      if at + n > |blocks| {
        ok := false;
      } else {
        var data := if !ok && |junk| == n then junk else buffer[..n];
        blocks := blocks[..at] + data + blocks[at + n..];
      }
    }

    /** `ctrNandWrite`. */
    method Write(sector: nat, sectorCount: nat, inbuf: array<Block>, buffer: array<Block>) returns (ok: bool)
      requires sector + fatStart + sectorCount < B && inbuf.Length == SECTOR_BLOCKS * sectorCount
      requires buffer.Length == SECTOR_BLOCKS * CHUNK_SECTORS && buffer != inbuf
      modifies this`blocks, buffer
      ensures |blocks| == old(|blocks|)
      ensures ok ==> Start(sector) + inbuf.Length <= |blocks| || sectorCount == 0
      ensures ok && sectorCount > 0 ==>
                blocks == Replaced(old(blocks), Start(sector), Crypt(eng, Ctr, Iv(sector), inbuf[..]))
      ensures ok && sectorCount == 0 ==> blocks == old(blocks)
    {
      hide Crypt, IvAfter, Canon, StartCounter, CounterPlus, Underway;
      ghost var input := inbuf[..];
      var tmpCtr := StartIv(sector);
      ok := true;
      var tempSector: nat := 0;
      ghost var done: nat := 0;
      NoneWritten(eng, Iv(sector), input, blocks, Start(sector));
      while tempSector < sectorCount && ok
        invariant done == if tempSector < sectorCount then SECTOR_BLOCKS * tempSector else |input|
        invariant |blocks| == old(|blocks|) && inbuf[..] == input
        invariant ok ==>
                    Underway(eng, Iv(sector), input, done, old(blocks), blocks, Start(sector),
                             Canon(Words(tmpCtr), BE_NORMAL))
        decreases sectorCount - tempSector
      {
        var tempCount := if CHUNK_SECTORS < sectorCount - tempSector then CHUNK_SECTORS else sectorCount - tempSector;
        var n: nat := SECTOR_BLOCKS * tempCount;
        ghost var iv := Canon(Words(tmpCtr), BE_NORMAL);
        EncryptChunk(inbuf, SECTOR_BLOCKS * tempSector, n, buffer, tmpCtr);
        ghost var was := blocks;
        ok := WriteSectors(tempSector + sector + fatStart, buffer, n);
        if ok {
          NextChunk(eng, Iv(sector), input, done, n, old(blocks), was, Start(sector), iv);
        }
        done := done + n;
        tempSector := tempSector + CHUNK_SECTORS;
      }
      if ok {
        AllWritten(eng, Iv(sector), input, old(blocks), blocks, Start(sector), Canon(Words(tmpCtr), BE_NORMAL));
      }
    }

    /** A chunk copied to the buffer and encrypted there; the counter moves on. */
    method EncryptChunk(inbuf: array<Block>, from: nat, n: nat, buffer: array<Block>, tmpCtr: array<u32>)
      requires from + n <= inbuf.Length && n <= buffer.Length && inbuf != buffer && tmpCtr.Length == 4
      modifies buffer, tmpCtr
      ensures buffer[..n] == Crypt(eng, Ctr, old(Canon(Words(tmpCtr), BE_NORMAL)), inbuf[..][from..from + n])
      ensures Canon(Words(tmpCtr), BE_NORMAL)
                == IvAfter(eng, Ctr, old(Canon(Words(tmpCtr), BE_NORMAL)), inbuf[..][from..from + n])
    {
      hide Crypt, IvAfter, Canon;
      forall k | 0 <= k < n {
        buffer[k] := inbuf[from + k];
      }
      ghost var mid := buffer[..];
      assert mid[0..0 + n] == inbuf[..][from..from + n] && mid[..0] == [];
      Aes(eng, buffer, 0, 0, n, tmpCtr, Ctr, BE_NORMAL);
    }

    /** A read of any sectors of what was written returns them as they were given exactly when no 4 GiB boundary lies
        between the first sector written and the first one read. */
    method WriteRead(sector: nat, sectorCount: nat, inbuf: array<Block>, buffer: array<Block>, i: nat, n: nat,
                     outbuf: array<Block>)
      returns (wrote: bool, read: bool)
      requires Sane(eng) && Cancels(eng) && sector + fatStart + sectorCount < B
               && inbuf.Length == SECTOR_BLOCKS * sectorCount
      requires buffer.Length == SECTOR_BLOCKS * CHUNK_SECTORS && buffer != inbuf && outbuf != inbuf
      requires 0 < n && i + n <= sectorCount && outbuf.Length == SECTOR_BLOCKS * n
      modifies this`blocks, buffer, outbuf
      ensures wrote && read ==>
                (outbuf[..] == inbuf[..][SECTOR_BLOCKS * i..SECTOR_BLOCKS * (i + n)]
                 <==> (sector + fatStart) * 0x200 / B == (sector + fatStart + i) * 0x200 / B)
    {
      hide Crypt, IvAfter, Sane, Cancels, StartCounter, CounterPlus;
      ghost var input := inbuf[..];
      read := false;
      wrote := Write(sector, sectorCount, inbuf, buffer);
      assert inbuf[..] == input;
      if wrote {
        read := Read(sector + i, n, outbuf);
        ghost var c := Crypt(eng, Ctr, Iv(sector), input);
        assert blocks[Start(sector + i)..Start(sector + i) + outbuf.Length]
                 == c[SECTOR_BLOCKS * i..SECTOR_BLOCKS * (i + n)];
        RangeReadsBack(eng, nandCtr, sector + fatStart, i, input, SECTOR_BLOCKS * (i + n));
      }
    }
  }
}
