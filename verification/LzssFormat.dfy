/** The format of the streams that the backward decoder takes: an encoder, and that decoding in place undoes it. */
module LzssFormat {
  import opened Bytes
  import opened Lzss
  import opened Options

  /** What an encoder chooses: a byte, or `len` bytes repeated from `ofs` bytes above the write pointer. */
  datatype Item = Byte(b: byte) | Copy(ofs: nat, len: nat)
  {
    predicate Valid() { Copy? ==> 2 <= ofs <= 4097 && 3 <= len <= 18 }

    function Size(): nat { if Byte? then 1 else len }

    /** The bytes of an item. The decoder meets the last one first. */
    function Code(): (c: seq<byte>)
      requires Valid()
      ensures 1 <= |c| <= 2
    {
      match this
      case Byte(b) => [b]
      case Copy(ofs, len) => [(ofs - 2) % 0x100, 0x10 * (len - 3) + (ofs - 2) / 0x100]
    }
  }

  ghost predicate AllValid(items: seq<Item>) { forall i :: 0 <= i < |items| ==> items[i].Valid() }

  function PowerOfTwo(n: nat): (p: nat)
    ensures p > 0
  {
    if n == 0 then 1 else 2 * PowerOfTwo(n - 1)
  }

  /** The flags of the next `n` items, the first one in the top bit: set for a copy. */
  function Flags(items: seq<Item>, n: nat): (f: nat)
    ensures f < PowerOfTwo(n)
    decreases n
  {
    if n == 0 || items == [] then 0
    else (if items[0].Copy? then PowerOfTwo(n - 1) else 0) + Flags(items[1..], n - 1)
  }

  /** The items from the top down, with `bits` of them left before the next flag byte. */
  function Encode(items: seq<Item>, bits: nat): (c: seq<byte>)
    requires AllValid(items) && bits <= 8
    ensures items == [] <==> c == []
    decreases |items|, if bits == 0 then 1 else 0
  {
    if items == [] then []
    else if bits == 0 then Encode(items, 8) + [FlagByte(items)]
    else Encode(items[1..], bits - 1) + items[0].Code()
  }

  function FlagByte(items: seq<Item>): byte {
    assert PowerOfTwo(8) == 256;
    Flags(items, 8)
  }

  /** The bytes the items stand for, in front of `out`; a copy must be of bytes that are there. */
  function Meaning(items: seq<Item>, out: seq<byte>): (r: Option<seq<byte>>) {
    if items == [] then Some(out)
    else
      match items[0]
      case Byte(b) => Meaning(items[1..], [b] + out)
      case Copy(ofs, len) => if ofs < |out| then Meaning(items[1..], CopyBack(out, ofs, len)) else None
  }

  /** Written down from `w`, no item reaches the items still encoded from `lo` on. */
  predicate Clear(items: seq<Item>, bits: nat, lo: nat, w: nat)
    requires AllValid(items) && bits <= 8
    decreases |items|, if bits == 0 then 1 else 0
  {
    if items == [] then true
    else if bits == 0 then Clear(items, 8, lo, w)
    else
      && lo + |Encode(items[1..], bits - 1)| + items[0].Size() <= w
      && Clear(items[1..], bits - 1, lo, w - items[0].Size())
  }

  /** Where the items are clear of unread input, so are the tokens. */
  ghost predicate Above(items: seq<Item>, bits: nat, lo: nat, ts: seq<Token>)
    requires AllValid(items) && bits <= 8
  {
    forall w: nat :: Clear(items, bits, lo, w) ==> StaysAbove(ts, w)
  }

  function TotalSize(items: seq<Item>): nat { if items == [] then 0 else items[0].Size() + TotalSize(items[1..]) }

  /** Output that all lies above the input is clear of it. */
  lemma {:induction false} RoomIsClear(items: seq<Item>, bits: nat, lo: nat, w: nat)
    requires AllValid(items) && bits <= 8 && lo + |Encode(items, bits)| + TotalSize(items) <= w
    ensures Clear(items, bits, lo, w)
    decreases |items|, if bits == 0 then 1 else 0
  {
    if items == [] {
    } else if bits == 0 {
      RoomIsClear(items, 8, lo, w);
    } else {
      RoomIsClear(items[1..], bits - 1, lo, w - items[0].Size());
    }
  }

  function ItemOf(t: Token): Item { if t.Lit? then Byte(t.b) else Copy(t.ofs, t.len) }

  function Items(ts: seq<Token>): (items: seq<Item>)
    ensures |items| == |ts|
  {
    if ts == [] then [] else [ItemOf(ts[0])] + Items(ts[1..])
  }

  /** A copied stretch repeats what is `ofs + 1` bytes above it. */
  lemma {:induction false} CopyRepeats(out: seq<byte>, ofs: nat, n: nat)
    requires ofs < |out|
    ensures CopyBack(out, ofs, n)[n..] == out
    ensures forall k :: 0 <= k < n ==> CopyBack(out, ofs, n)[k] == CopyBack(out, ofs, n)[k + ofs + 1]
    decreases n
  {
    if n > 0 {
      CopyRepeats(out, ofs, n - 1);
      CopyBackOneMore(out, ofs, n - 1);
    }
  }

  function Times(x: nat, y: nat): nat { x * y }

  lemma TimesOne(x: nat)
    ensures Times(1, x) == x == Times(x, 1) && Times(0, x) == 0
  {
  }

  lemma TimesTwo(x: nat, y: nat)
    ensures Times(2 * x, y) == 2 * Times(x, y)
    ensures Times(x, 2 * y) == 2 * Times(x, y)
  {
  }

  lemma TimesPlus(x: nat, y: nat, z: nat)
    ensures Times(x + y, z) == Times(x, z) + Times(y, z)
  {
  }

  lemma TimesLess(x: nat, y: nat, z: nat)
    requires x < y && z > 0
    ensures Times(x, z) < Times(y, z)
  {
    hide Times;
    TimesPlus(x + 1, y - x - 1, z);
    TimesPlus(x, 1, z);
    TimesOne(z);
  }

  lemma {:induction false} PowersMultiply(a: nat, b: nat)
    ensures Times(PowerOfTwo(a), PowerOfTwo(b)) == PowerOfTwo(a + b)
    decreases a
  {
    hide Times;
    if a > 0 {
      PowersMultiply(a - 1, b);
      TimesTwo(PowerOfTwo(a - 1), PowerOfTwo(b));
    } else {
      TimesOne(PowerOfTwo(b));
    }
  }

  /** The top flag is that of the next item, and a shift drops it. */
  lemma TopFlag(items: seq<Item>, bits: nat)
    requires 0 < bits <= 8 && items != []
    ensures var flags := Times(Flags(items, bits), PowerOfTwo(8 - bits));
            && flags < 0x100 && (flags >= 0x80 <==> items[0].Copy?)
            && flags * 2 % 0x100 == Times(Flags(items[1..], bits - 1), PowerOfTwo(9 - bits))
  {
    var q, p, g := PowerOfTwo(bits - 1), PowerOfTwo(8 - bits), Flags(items[1..], bits - 1);
    PowersMultiply(bits - 1, 8 - bits);
    assert PowerOfTwo(7) == 0x80;
    assert PowerOfTwo(9 - bits) == 2 * p;
    assert Flags(items, bits) == (if items[0].Copy? then q else 0) + g;
    hide PowerOfTwo, Flags, Times;
    TimesPlus(if items[0].Copy? then q else 0, g, p);
    TimesLess(g, q, p);
    TimesOne(p);
    TimesTwo(g, p);
    TopBit(items[0].Copy?, Times(Flags(items, bits), p), Times(g, p));
  }

  lemma TopBit(top: bool, f: nat, x: nat)
    requires f == (if top then 0x80 else 0) + x && x < 0x80
    ensures f < 0x100 && (f >= 0x80 <==> top) && f * 2 % 0x100 == 2 * x
  {
  }

  /** One item is read back as it was encoded. */
  lemma ReadItem(src: seq<byte>, lo: nat, r: nat, flags: byte, item: Item)
    requires r <= |src| && item.Valid() && lo + |item.Code()| <= r && src[r - |item.Code()|..r] == item.Code()
    requires flags >= 0x80 <==> item.Copy?
    ensures ReadToken(src, lo, r, flags).Some?
    ensures var t := ReadToken(src, lo, r, flags).value;
            ItemOf(t) == item && t.rest == r - |item.Code()|
  {
    var c, n := item.Code(), |item.Code()|;
    assert src[r - 1] == src[r - n..r][n - 1] == c[n - 1];
    if item.Copy? {
      assert src[r - 2] == src[r - n..r][0] == c[0];
      var o := item.ofs - 2;
      assert c[1] == 0x10 * (item.len - 3) + o / 0x100 && o / 0x100 < 0x10;
      assert c[1] / 0x10 == item.len - 3 && c[1] % 0x10 == o / 0x100;
    }
  }

  /** The tokens of an encoding are the items. */
  lemma {:induction false} ParseEncoded(src: seq<byte>, lo: nat, r: nat, flags: byte, bits: nat, items: seq<Item>)
    returns (ts: seq<Token>)
    requires AllValid(items) && bits <= 8 && lo <= r <= |src| && src[lo..r] == Encode(items, bits)
    requires bits > 0 ==> items != [] && flags == Times(Flags(items, bits), PowerOfTwo(8 - bits))
    ensures Parse(src, lo, r, flags, bits) == Some(ts) && Items(ts) == items
    ensures Above(items, bits, lo, ts)
    decreases |items|, if bits == 0 then 1 else 0, 1
  {
    if items == [] {
      ts := [];
    } else if bits == 0 {
      ts := ParseGroup(src, lo, r, flags, items);
    } else {
      ts := ParseItem(src, lo, r, flags, bits, items);
    }
  }

  /** ... at a flag byte ... */
  lemma {:induction false} ParseGroup(src: seq<byte>, lo: nat, r: nat, flags: byte, items: seq<Item>)
    returns (ts: seq<Token>)
    requires AllValid(items) && lo <= r <= |src| && src[lo..r] == Encode(items, 0) && items != []
    ensures Parse(src, lo, r, flags, 0) == Some(ts) && Items(ts) == items
    ensures Above(items, 0, lo, ts)
    decreases |items|, 1, 0
  {
    hide StaysAbove, Items, Flags;
    var c := Encode(items, 8);
    assert src[lo..r] == c + [FlagByte(items)] && |c| == r - 1 - lo;
    assert src[r - 1] == src[lo..r][r - 1 - lo] == FlagByte(items);
    assert src[lo..r - 1] == src[lo..r][..r - 1 - lo];
    assert src[lo..r - 1] == c;
    assert PowerOfTwo(0) == 1;
    TimesOne(Flags(items, 8));
    ts := ParseEncoded(src, lo, r - 1, src[r - 1], 8, items);
  }

  /** ... and at an item. */
  lemma {:induction false} ParseItem(src: seq<byte>, lo: nat, r: nat, flags: byte, bits: nat, items: seq<Item>)
    returns (ts: seq<Token>)
    requires AllValid(items) && 0 < bits <= 8 && lo <= r <= |src| && src[lo..r] == Encode(items, bits)
    requires items != [] && flags == Times(Flags(items, bits), PowerOfTwo(8 - bits))
    ensures Parse(src, lo, r, flags, bits) == Some(ts) && Items(ts) == items
    ensures Above(items, bits, lo, ts)
    decreases |items|, 0, 0
  {
    var t := FirstItem(src, lo, r, flags, bits, items);
    hide ReadToken, Flags, PowerOfTwo, Encode, Above, Parse, Times, Items, ItemOf, AllValid;
    var rest := ParseRest(src, lo, t.rest, flags * 2 % 0x100, bits - 1, items[1..]);
    ts := [t] + rest;
    ParseStep(src, lo, r, flags, bits, t, rest);
    assert ts[1..] == rest;
    ItemsStep(ts);
    assert items == [items[0]] + items[1..];
    ClearSteps(items, bits, lo, ts);
  }

  /** What follows an item, if anything does. */
  lemma {:induction false} ParseRest(src: seq<byte>, lo: nat, r: nat, flags: byte, bits: nat, items: seq<Item>)
    returns (ts: seq<Token>)
    requires AllValid(items) && bits <= 8 && lo <= r <= |src| && src[lo..r] == Encode(items, bits)
    requires bits > 0 && items != [] ==> flags == Times(Flags(items, bits), PowerOfTwo(8 - bits))
    ensures if r <= lo then ts == [] else Parse(src, lo, r, flags, bits) == Some(ts)
    ensures Items(ts) == items && Above(items, bits, lo, ts)
    decreases |items|, if bits == 0 then 1 else 0, 2
  {
    if items == [] {
      ts := [];
      NothingLeft();
    } else {
      ts := ParseEncoded(src, lo, r, flags, bits, items);
    }
  }

  lemma ParseStep(src: seq<byte>, lo: nat, r: nat, flags: byte, bits: nat, t: Token, rest: seq<Token>)
    requires r <= |src| && 0 < bits <= 8 && ReadToken(src, lo, r, flags) == Some(t)
    requires if t.rest <= lo then rest == [] else Parse(src, lo, t.rest, flags * 2 % 0x100, bits - 1) == Some(rest)
    ensures Parse(src, lo, r, flags, bits) == Some([t] + rest)
  {
    hide ReadToken;
    assert rest == [] ==> [t] + rest == [t];
  }

  lemma NothingLeft()
    ensures Items([]) == [] && forall bits: nat, lo: nat :: bits <= 8 ==> Above([], bits, lo, [])
  {
  }

  lemma ItemsStep(ts: seq<Token>)
    requires ts != []
    ensures Items(ts) == [ItemOf(ts[0])] + Items(ts[1..])
  {
  }

  lemma ClearSteps(items: seq<Item>, bits: nat, lo: nat, ts: seq<Token>)
    requires AllValid(items) && 0 < bits <= 8 && items != [] && ts != [] && ItemOf(ts[0]) == items[0]
    requires ts[0].rest == lo + |Encode(items[1..], bits - 1)|
    requires Above(items[1..], bits - 1, lo, ts[1..])
    ensures Above(items, bits, lo, ts)
  {
    hide Encode;
    forall w: nat | Clear(items, bits, lo, w)
      ensures StaysAbove(ts, w)
    {
      assert Clear(items[1..], bits - 1, lo, w - items[0].Size());
    }
  }

  /** The first item of an encoding is read, and the encoding of the rest is below. */
  lemma FirstItem(src: seq<byte>, lo: nat, r: nat, flags: byte, bits: nat, items: seq<Item>) returns (t: Token)
    requires AllValid(items) && 0 < bits <= 8 && lo <= r <= |src| && src[lo..r] == Encode(items, bits)
    requires items != [] && flags == Times(Flags(items, bits), PowerOfTwo(8 - bits))
    ensures ReadToken(src, lo, r, flags) == Some(t) && ItemOf(t) == items[0] && lo <= t.rest <= r
    ensures AllValid(items[1..]) && src[lo..t.rest] == Encode(items[1..], bits - 1)
    ensures t.rest == lo + |Encode(items[1..], bits - 1)| && (t.rest <= lo <==> items[1..] == [])
    ensures flags * 2 % 0x100 == Times(Flags(items[1..], bits - 1), PowerOfTwo(9 - bits))
  {
    hide Flags, PowerOfTwo, ReadToken, Item.Code;
    var c, n := Encode(items[1..], bits - 1), |items[0].Code()|;
    assert src[lo..r] == c + items[0].Code();
    assert src[r - n..r] == src[lo..r][r - n - lo..] == items[0].Code();
    assert src[lo..r - n] == src[lo..r][..r - n - lo] == c;
    TopFlag(items, bits);
    ReadItem(src, lo, r, flags, items[0]);
    t := ReadToken(src, lo, r, flags).value;
  }

  /** Tokens stand for the bytes that their items stand for. */
  lemma {:induction false} MeaningOfTokens(ts: seq<Token>, out: seq<byte>)
    ensures Backed(ts, out) <==> Meaning(Items(ts), out).Some?
    ensures Backed(ts, out) ==> Meaning(Items(ts), out) == Some(Expand(ts, out))
    decreases ts
  {
    if ts != [] {
      assert Items(ts)[1..] == Items(ts[1..]);
      match ts[0] {
        case Lit(b, _) => MeaningOfTokens(ts[1..], [b] + out);
        case Ref(ofs, len, _) =>
          if ofs < |out| {
            MeaningOfTokens(ts[1..], CopyBack(out, ofs, len));
          }
      }
    }
  }

  /** A whole compressed stretch: the items, padding, the sizes of all of it and of what follows the items, and the
      number of bytes it grows by. */
  function Compressed(items: seq<Item>, pad: seq<byte>, grow: nat): (c: seq<byte>)
    requires AllValid(items)
    ensures |c| == |Encode(items, 0)| + |pad| + 8
  {
    var e := Encode(items, 0);
    e + pad + StDword(|e| + |pad| + 8 + 0x100_0000 * (|pad| + 8)) + StDword(grow)
  }

  /** The sizes fit their fields. */
  predicate SizesFit(items: seq<Item>, pad: seq<byte>, grow: nat)
    requires AllValid(items)
  {
    |pad| + 8 < 0x100 && |Encode(items, 0)| + |pad| + 8 < 0x100_0000 && grow < TWO_32
  }

  /** A dword stored at a place is loaded from it. */
  lemma LoadStored(m: seq<byte>, at: nat, v: nat)
    requires at + 4 <= |m| && m[at..at + 4] == StDword(v) && v < TWO_32
    ensures LdDword(m, at) == v
  {
    hide StDword, LdDword;
    DwordRoundTrip(m, at, v);
    assert Splice(m, at, StDword(v)) == m by {
      forall k | at <= k < at + 4
        ensures m[k] == StDword(v)[k - at]
      {
        assert m[at..at + 4][k - at] == m[k];
      }
    }
  }

  /** Where the pointers of a compressed stretch lead. */
  lemma Pointers(m: seq<byte>, start: nat, end: nat, items: seq<Item>, pad: seq<byte>, grow: nat)
    requires AllValid(items) && SizesFit(items, pad, grow) && start <= end <= |m|
    requires m[start..end] == Compressed(items, pad, grow)
    ensures 8 <= end && Top(m, end) == end + grow && InputStart(m, end) == start
    ensures InputEnd(m, end) == start + |Encode(items, 0)| && m[start..InputEnd(m, end)] == Encode(items, 0)
  {
    hide Encode, StDword, LdDword, AllValid;
    var e := Encode(items, 0);
    var total, tail := |e| + |pad| + 8, |pad| + 8;
    var c, v := Compressed(items, pad, grow), total + 0x100_0000 * tail;
    FooterParts(e, pad, StDword(v), StDword(grow));
    SliceOfSlice(m, start, end, |c| - 8, |c| - 4);
    SliceOfSlice(m, start, end, |c| - 4, |c|);
    SliceOfSlice(m, start, end, 0, |e|);
    LoadStored(m, end - 8, v);
    LoadStored(m, end - 4, grow);
    assert v / 0x100_0000 == tail && v % 0x100_0000 == total;
  }

  lemma SliceOfSlice(m: seq<byte>, a: nat, b: nat, c: nat, d: nat)
    requires a <= b <= |m| && c <= d <= b - a
    ensures m[a + c..a + d] == m[a..b][c..d]
  {
    var s, t := m[a + c..a + d], m[a..b][c..d];
    forall k | 0 <= k < d - c
      ensures s[k] == t[k]
    {
      assert t[k] == m[a..b][c + k] == m[a + c + k];
    }
  }

  lemma FooterParts(e: seq<byte>, pad: seq<byte>, x: seq<byte>, y: seq<byte>)
    requires |x| == 4 && |y| == 4
    ensures var c := e + pad + x + y;
            c[0..|e|] == e && c[|c| - 8..|c| - 4] == x && c[|c| - 4..|c|] == y
  {
  }

  /** A compressed stretch whose output stays clear of its unread items can be decoded in place, to what it stands
      for. */
  lemma CompressedOk(m: seq<byte>, start: nat, end: nat, items: seq<Item>, pad: seq<byte>, grow: nat)
    requires AllValid(items) && SizesFit(items, pad, grow) && start <= end && end + grow <= |m|
    requires m[start..end] == Compressed(items, pad, grow)
    requires Meaning(items, []).Some? && Clear(items, 0, start, end + grow)
    ensures InPlaceOk(m, end) && Top(m, end) == end + grow && InputStart(m, end) == start
    ensures Some(Expand(Stream(m, end), [])) == Meaning(items, [])
  {
    hide Encode, Compressed, SizesFit, Meaning, Clear, StaysAbove, Parse, Expand, Backed, Top, InputStart, InputEnd;
    Pointers(m, start, end, items, pad, grow);
    var ts := ParseEncoded(m, start, InputEnd(m, end), 0, 0, items);
    MeaningOfTokens(ts, []);
  }

  /** Decompressing the encoding of any items in place gives the bytes they stand for, and leaves all else. */
  method DecompressEncoded(mem: array<byte>, start: nat, end: nat,
                           ghost items: seq<Item>, ghost pad: seq<byte>, ghost grow: nat)
    returns (ret: byte)
    requires AllValid(items) && SizesFit(items, pad, grow) && start <= end && end + grow <= mem.Length
    requires mem[start..end] == Compressed(items, pad, grow)
    requires Meaning(items, []).Some? && Clear(items, 0, start, end + grow)
    modifies mem
    ensures var out, top := Meaning(items, []).value, end + grow;
            && |out| <= top - start && mem[top - |out|..top] == out
            && mem[..top - |out|] == old(mem[..top - |out|]) && mem[top..] == old(mem[top..])
            && ret == if out == [] then 0 else out[0]
  {
    hide Encode, Compressed, SizesFit, Meaning, Clear, InPlaceOk, Stream, Expand, Backed, Top, InputStart, InputEnd;
    CompressedOk(mem[..], start, end, items, pad, grow);
    assert mem[start..end] == mem[..][start..end];
    ret := Decompress(mem, end);
  }
}
