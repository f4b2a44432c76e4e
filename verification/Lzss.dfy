/** The backward LZSS decoder of external modules, which decompresses in place. */
module Lzss {
  import opened Bytes
  import opened Options

  /** A literal byte, or a copy of `len` bytes from `ofs` bytes above the write pointer; `rest` is where the unread
      input ends. */
  datatype Token = Lit(b: byte, rest: nat) | Ref(ofs: nat, len: nat, rest: nat)

  /** The tokens of the stream that ends below `r` and begins at `lo`, with `bits` flags left in `flags`; none if it is
      cut short. */
  function Parse(src: seq<byte>, lo: nat, r: nat, flags: byte, bits: nat): (ts: Option<seq<Token>>)
    requires r <= |src| && bits <= 8
    decreases r, bits
  {
    if bits == 0 then
      if r > lo then Parse(src, lo, r - 1, src[r - 1], 8) else Some([])
    else
      match ReadToken(src, lo, r, flags)
      case None => None
      case Some(t) =>
        if t.rest <= lo then Some([t])
        else
          match Parse(src, lo, t.rest, flags * 2 % 0x100, bits - 1)
          case None => None
          case Some(ts) => Some([t] + ts)
  }

  /** The token below `r`, read as its flag says. */
  function ReadToken(src: seq<byte>, lo: nat, r: nat, flags: byte): (t: Option<Token>)
    requires r <= |src|
    ensures t.Some? ==> lo <= t.value.rest < r
  {
    if flags >= 0x80 then
      if r < lo + 2 then None
      else Some(Ref(src[r - 1] as int % 0x10 * 0x100 + src[r - 2] as int + 2, src[r - 1] as int / 0x10 + 3, r - 2))
    else if r < lo + 1 then None
    else Some(Lit(src[r - 1], r - 1))
  }

  /** `n` bytes put in front of `out`, each the one `ofs` bytes above it. */
  function CopyBack(out: seq<byte>, ofs: nat, n: nat): (r: seq<byte>)
    requires ofs < |out|
    ensures |r| == |out| + n
    decreases n
  {
    if n == 0 then out else CopyBack([out[ofs]] + out, ofs, n - 1)
  }

  /** Every copy is from bytes already decoded. */
  predicate Backed(ts: seq<Token>, out: seq<byte>) {
    ts == [] || match ts[0]
                case Lit(b, _) => Backed(ts[1..], [b] + out)
                case Ref(ofs, len, _) => ofs < |out| && Backed(ts[1..], CopyBack(out, ofs, len))
  }

  /** The bytes the tokens stand for, in front of `out`. */
  function Expand(ts: seq<Token>, out: seq<byte>): (r: seq<byte>)
    requires Backed(ts, out)
    ensures |r| >= |out|
  {
    if ts == [] then out
    else
      match ts[0]
      case Lit(b, _) => Expand(ts[1..], [b] + out)
      case Ref(ofs, len, _) => Expand(ts[1..], CopyBack(out, ofs, len))
  }

  function TokenLength(t: Token): nat { if t.Lit? then 1 else t.len }

  /** Decoding down from `w`, no token is written over input that is still unread. */
  predicate StaysAbove(ts: seq<Token>, w: nat) {
    ts == [] || (ts[0].rest + TokenLength(ts[0]) <= w && StaysAbove(ts[1..], w - TokenLength(ts[0])))
  }

  /** The three pointers that the last eight bytes before `end` give. */
  function Top(mem: seq<byte>, end: nat): nat
    requires 8 <= end <= |mem|
  {
    end + LdDword(mem, end - 4)
  }

  function InputEnd(mem: seq<byte>, end: nat): int
    requires 8 <= end <= |mem|
  {
    end - LdDword(mem, end - 8) / 0x100_0000
  }

  function InputStart(mem: seq<byte>, end: nat): int
    requires 8 <= end <= |mem|
  {
    end - LdDword(mem, end - 8) % 0x100_0000
  }

  /** The stream before `end` can be decoded in place: it is complete, its copies are backed, and output stays above
      unread input. */
  ghost predicate InPlaceOk(mem: seq<byte>, end: nat) {
    && 8 <= end <= |mem| && Top(mem, end) <= |mem| && 0 <= InputStart(mem, end) <= InputEnd(mem, end)
    && Parse(mem, InputStart(mem, end), InputEnd(mem, end), 0, 0).Some?
    && Backed(Stream(mem, end), []) && StaysAbove(Stream(mem, end), Top(mem, end))
  }

  function Stream(mem: seq<byte>, end: nat): (ts: seq<Token>)
    requires 8 <= end <= |mem| && 0 <= InputStart(mem, end) <= InputEnd(mem, end)
  {
    match Parse(mem, InputStart(mem, end), InputEnd(mem, end), 0, 0)
    case None => []
    case Some(ts) => ts
  }

  lemma {:induction false} CopyBackOneMore(out: seq<byte>, ofs: nat, n: nat)
    requires ofs < |out|
    ensures CopyBack(out, ofs, n + 1) == [CopyBack(out, ofs, n)[ofs]] + CopyBack(out, ofs, n)
    decreases n
  {
    if n > 0 {
      CopyBackOneMore([out[ofs]] + out, ofs, n - 1);
    }
  }

  /** The first token of a stream in the middle of a flag byte, and the stream after it. */
  lemma FirstToken(src: seq<byte>, lo: nat, r: nat, flags: byte, bits: nat, ts: seq<Token>)
    requires r <= |src| && 0 < bits <= 8 && Parse(src, lo, r, flags, bits) == Some(ts)
    ensures |ts| > 0 && ReadToken(src, lo, r, flags) == Some(ts[0])
    ensures if ts[0].rest <= lo then ts[1..] == []
              else Parse(src, lo, ts[0].rest, flags * 2 % 0x100, bits - 1) == Some(ts[1..])
  {
  }

  /** The copy loop of the decoder: byte after byte below `w`, each from `ofs` above the write pointer. */
  method CopyRun(mem: array<byte>, w: nat, top: nat, ofs: nat, b1: byte, ghost out: seq<byte>)
    returns (v2: nat, ret: byte)
    requires w <= top <= mem.Length && mem[w..top] == out && ofs < |out| && b1 as int / 0x10 + 3 <= w
    modifies mem
    ensures v2 == w - (b1 as int / 0x10 + 3)
    ensures mem[v2..top] == CopyBack(out, ofs, b1 as int / 0x10 + 3) && ret == mem[v2]
    ensures mem[..v2] == old(mem[..v2]) && mem[top..] == old(mem[top..])
  {
    v2 := w;
    var v16: int := b1 as int + 32;
    ghost var n := 0;
    while true
      invariant n <= b1 as int / 0x10 + 2 && v2 == w - n && v16 == b1 as int + 32 - 16 * n
      invariant mem[v2..top] == CopyBack(out, ofs, n)
      invariant mem[..v2] == old(mem[..v2]) && mem[top..] == old(mem[top..])
      decreases v16 + 16
    {
      CopyBackOneMore(out, ofs, n);
      ghost var was := mem[v2..top];
      ret := mem[v2 + ofs];
      assert ret == was[ofs];
      v2 := v2 - 1;
      mem[v2] := ret;
      assert mem[v2..top] == [ret] + was;
      n := n + 1;
      v16 := v16 - 16;
      if v16 < 0 {
        break;
      }
    }
  }

  /** One token decoded in place. */
  method DecodeToken(mem: array<byte>, v2: nat, v3: nat, flags: byte, top: nat,
                     ghost src: seq<byte>, ghost lo: nat, ghost t: Token, ghost out: seq<byte>)
    returns (w: nat, r: nat, ret: byte)
    requires lo <= v3 <= v2 <= top <= mem.Length == |src| && mem[..v2] == src[..v2] && mem[v2..top] == out
    requires ReadToken(src, lo, v3, flags) == Some(t) && t.rest + TokenLength(t) <= v2 && (t.Ref? ==> t.ofs < |out|)
    modifies mem
    ensures r == t.rest && w == v2 - TokenLength(t)
    ensures mem[..w] == src[..w] && mem[top..] == old(mem[top..]) && ret == mem[w]
    ensures mem[w..top] == if t.Lit? then [t.b] + out else CopyBack(out, t.ofs, t.len)
  {
    if flags >= 0x80 {
      w, r, ret := DecodeRef(mem, v2, v3, flags, top, src, lo, t, out);
    } else {
      w, r, ret := DecodeLit(mem, v2, v3, flags, top, src, lo, t, out);
    }
  }

  /** A token that repeats earlier output. */
  method DecodeRef(mem: array<byte>, v2: nat, v3: nat, flags: byte, top: nat,
                   ghost src: seq<byte>, ghost lo: nat, ghost t: Token, ghost out: seq<byte>)
    returns (w: nat, r: nat, ret: byte)
    requires lo <= v3 <= v2 <= top <= mem.Length == |src| && mem[..v2] == src[..v2] && mem[v2..top] == out
             && flags >= 0x80
    requires ReadToken(src, lo, v3, flags) == Some(t) && t.rest + TokenLength(t) <= v2 && (t.Ref? ==> t.ofs < |out|)
    modifies mem
    ensures r == t.rest && w == v2 - TokenLength(t)
    ensures mem[..w] == src[..w] && mem[top..] == old(mem[top..]) && ret == mem[w]
    ensures t.Ref? && mem[w..top] == CopyBack(out, t.ofs, t.len)
  {
    hide CopyBack;
    SameBelow(mem[..], src, v2, v3);
    var b1, b0 := mem[v3 - 1], mem[v3 - 2];
    r := v3 - 2;
    w, ret := CopyRun(mem, v2, top, b1 as int % 0x10 * 0x100 + b0 as int + 2, b1, out);
    assert mem[..w] == src[..v2][..w];
  }

  /** A token that is a byte. */
  method DecodeLit(mem: array<byte>, v2: nat, v3: nat, flags: byte, top: nat,
                   ghost src: seq<byte>, ghost lo: nat, ghost t: Token, ghost out: seq<byte>)
    returns (w: nat, r: nat, ret: byte)
    requires lo <= v3 <= v2 <= top <= mem.Length == |src| && mem[..v2] == src[..v2] && mem[v2..top] == out
             && flags < 0x80
    requires ReadToken(src, lo, v3, flags) == Some(t) && t.rest + TokenLength(t) <= v2
    modifies mem
    ensures r == t.rest && w == v2 - TokenLength(t)
    ensures mem[..w] == src[..w] && mem[top..] == old(mem[top..]) && ret == mem[w]
    ensures t.Lit? && mem[w..top] == [t.b] + out
  {
    hide CopyBack;
    SameBelow(mem[..], src, v2, v3);
    ret := mem[v3 - 1];
    r, w := v3 - 1, v2 - 1;
    mem[w] := ret;
    assert mem[w..top] == [ret] + out;
    assert mem[..w] == src[..v2][..w];
  }

  /** The bytes that a token is read from are still those of the stream. */
  lemma SameBelow(m: seq<byte>, src: seq<byte>, v2: nat, v3: nat)
    requires v3 <= v2 <= |m| == |src| && m[..v2] == src[..v2]
    ensures forall k :: 0 <= k < v3 ==> m[k] == src[k]
  {
    forall k | 0 <= k < v3
      ensures m[k] == src[k]
    {
      assert m[..v2][k] == src[..v2][k];
    }
  }

  /** Decoding in place has come to read pointer `r` and write pointer `w`: the bytes `out` are above `w`, the input
      below it is untouched, and the tokens `ts` left to decode complete the output `whole`. */
  ghost predicate Underway(m: seq<byte>, src: seq<byte>, lo: nat, r: nat, w: nat, top: nat, flags: byte, bits: nat,
                           out: seq<byte>, ts: seq<Token>, whole: seq<byte>) {
    && lo <= r <= w <= top <= |m| == |src| && bits <= 8
    && m[..w] == src[..w] && m[top..] == src[top..] && m[w..top] == out
    && Parse(src, lo, r, flags, bits) == Some(ts) && Backed(ts, out) && StaysAbove(ts, w)
    && Expand(ts, out) == whole
  }

  /** One turn of the inner loop. */
  method Step(mem: array<byte>, v2: nat, v3: nat, v4: nat, flags: byte, bits: nat, top: nat,
              ghost src: seq<byte>, ghost ts: seq<Token>, ghost out: seq<byte>, ghost whole: seq<byte>)
    returns (w: nat, r: nat, ret: byte, ghost out1: seq<byte>)
    requires Underway(mem[..], src, v4, v3, v2, top, flags, bits, out, ts, whole) && 0 < bits
    modifies mem
    ensures |ts| > 0 && out1 != [] && ret == out1[0] && r < v3
    ensures Underway(mem[..], src, v4, r, w, top, 0, 0, out1, [], whole) || r > v4
    ensures r > v4 ==> Underway(mem[..], src, v4, r, w, top, flags * 2 % 0x100, bits - 1, out1, ts[1..], whole)
  {
    FirstToken(src, v4, v3, flags, bits, ts);
    hide Parse, ReadToken;
    ghost var t := ts[0];
    assert mem[..v2] == src[..v2] && mem[v2..top] == out;
    TokenBelow(src, v4, v3, flags, t);
    w, r, ret := DecodeToken(mem, v2, v3, flags, top, src, v4, t, out);
    out1 := if t.Lit? then [t.b] + out else CopyBack(out, t.ofs, t.len);
    if r <= v4 {
      EndOfStream(src, v4);
    }
  }

  lemma TokenBelow(src: seq<byte>, lo: nat, r: nat, flags: byte, t: Token)
    requires r <= |src| && ReadToken(src, lo, r, flags) == Some(t)
    ensures lo <= t.rest < r && (t.Ref? ==> t.len > 0)
  {
  }

  lemma EndOfStream(src: seq<byte>, lo: nat)
    requires lo <= |src|
    ensures Parse(src, lo, lo, 0, 0) == Some([])
  {
  }

  /** Decoding starts with no output. */
  lemma Start(src: seq<byte>, end: nat)
    requires InPlaceOk(src, end)
    ensures Underway(src, src, InputStart(src, end), InputEnd(src, end), Top(src, end), Top(src, end), 0, 0, [],
                     Stream(src, end), Expand(Stream(src, end), []))
  {
    hide Parse, StaysAbove, Expand, Backed, LdDword;
    NothingAboveUnread(src, end);
  }

  /** The first output byte goes above the end of the input. */
  lemma NothingAboveUnread(src: seq<byte>, end: nat)
    requires InPlaceOk(src, end)
    ensures InputEnd(src, end) <= Top(src, end)
  {
    hide Parse, StaysAbove, Expand, Backed;
  }

  /** A new flag byte. */
  lemma NextFlags(m: seq<byte>, src: seq<byte>, lo: nat, r: nat, w: nat, top: nat, flags: byte, out: seq<byte>,
                  ts: seq<Token>, whole: seq<byte>)
    requires Underway(m, src, lo, r, w, top, flags, 0, out, ts, whole) && lo < r
    ensures r <= |m| && Underway(m, src, lo, r - 1, w, top, m[r - 1], 8, out, ts, whole)
  {
    hide Backed, StaysAbove, Expand;
    assert m[r - 1] == m[..w][r - 1] == src[r - 1];
    ParseFlags(src, lo, r, flags);
  }

  lemma ParseFlags(src: seq<byte>, lo: nat, r: nat, flags: byte)
    requires lo < r <= |src|
    ensures Parse(src, lo, r, flags, 0) == Parse(src, lo, r - 1, src[r - 1], 8)
  {
  }

  /** At the end of the stream the output is whole. */
  lemma Finish(m: seq<byte>, src: seq<byte>, lo: nat, r: nat, w: nat, top: nat, flags: byte, out: seq<byte>,
               ts: seq<Token>, whole: seq<byte>)
    requires Underway(m, src, lo, r, w, top, flags, 0, out, ts, whole) && r <= lo
    ensures out == whole && |out| <= top - lo && m[top - |out|..top] == out
    ensures m[..top - |out|] == src[..top - |out|] && m[top..] == src[top..]
  {
    hide StaysAbove, Backed;
  }

  /** `lzss_decompress`: what it leaves below the top is what decoding an untouched copy gives, and all else is as it
      was. */
  method Decompress(mem: array<byte>, end: nat) returns (ret: byte)
    requires end <= mem.Length && InPlaceOk(mem[..], end)
    modifies mem
    ensures var out := Expand(old(Stream(mem[..], end)), []);
            var top := old(Top(mem[..], end));
            && |out| <= top - old(InputStart(mem[..], end))
            && mem[top - |out|..top] == out
            && mem[..top - |out|] == old(mem[..top - |out|]) && mem[top..] == old(mem[top..])
            && ret == if out == [] then 0 else out[0]
  {
    hide Parse, StaysAbove, Underway, LdDword, Expand, Backed;
    ghost var src, ts, out := mem[..], Stream(mem[..], end), [];
    ghost var whole := Expand(ts, out);
    Start(src, end);
    var v1 := LdDword(mem[..], end - 8);
    var v2: nat := end + LdDword(mem[..], end - 4);
    var v3: nat := end - v1 / 0x100_0000;
    var v4: nat := end - v1 % 0x100_0000;
    var top: nat, v5: byte := v2, 0;
    ret := 0;
    while v3 > v4
      invariant Underway(mem[..], src, v4, v3, v2, top, v5, 0, out, ts, whole)
      invariant ret == if out == [] then 0 else out[0]
      decreases v3
    {
      NextFlags(mem[..], src, v4, v3, v2, top, v5, out, ts, whole);
      v3 := v3 - 1;
      v5 := mem[v3];
      var v7: nat := 8;
      ghost var start := v3;
      while true
        invariant v7 <= 8 && Underway(mem[..], src, v4, v3, v2, top, v5, v7, out, ts, whole)
        invariant ret == (if out == [] then 0 else out[0]) && v3 <= start
        decreases v7
      {
        if v7 < 1 {
          break;
        }
        v7 := v7 - 1;
        v2, v3, ret, out := Step(mem, v2, v3, v4, v5, v7 + 1, top, src, ts, out, whole);
        v5 := v5 * 2 % 0x100;
        if v3 <= v4 {
          Finish(mem[..], src, v4, v3, v2, top, 0, out, [], whole);
          return;
        }
        ts := ts[1..];
      }
    }
    Finish(mem[..], src, v4, v3, v2, top, v5, out, ts, whole);
  }
}
