/** Long file names: how they are stored in, picked from and compared with the entries of a directory. */
module LongName {
  import opened Bytes

  const MAX_LFN := 255
  const LLEF := 0x40
  const AM_LFN := 0x0F

  type word = w: int | 0 <= w < 0x1_0000

  /** Case folding maps 0, and only 0, to 0. */
  ghost predicate Folds(up: word -> word) {
    up(0) == 0 && forall c: word :: c != 0 ==> up(c) != 0
  }

  /** A name that can be stored: 1 to 255 units, none of them 0 or 0xFFFF. */
  ghost predicate IsName(name: seq<word>) {
    1 <= |name| <= MAX_LFN && forall i :: 0 <= i < |name| ==> name[i] != 0 && name[i] != 0xFFFF
  }

  /** A working buffer that holds a name and its terminator, with anything after it. */
  ghost predicate Holds(buf: seq<word>, name: seq<word>) {
    |buf| == MAX_LFN + 1 && |name| <= MAX_LFN && buf[..|name|] == name && buf[|name|] == 0
  }

  /** The byte offset of character `s` in a directory entry: the table `LfnOfs`. */
  function LfnOfs(s: nat): (o: nat)
    requires s < 13
    ensures 1 <= o <= 30
  {
    if s < 5 then 1 + 2 * s else if s < 11 then 4 + 2 * s else 6 + 2 * s
  }

  /** Character `s` of an entry. */
  function CharAt(dir: seq<byte>, s: nat): (c: word)
    requires |dir| == 32 && s < 13
  {
    LdWord(dir, LfnOfs(s))
  }

  /** The place in the name of character `s` of the entry of order `ord`. */
  function Place(ord: nat, s: nat): int { (ord - 1) * 13 + s }

  /** What the entry of order `ord` holds at character `s`: the name, its terminator, then filler. */
  function Stored(name: seq<word>, ord: nat, s: nat): word
    requires ord >= 1
  {
    var p := Place(ord, s);
    if p < |name| then name[p] else if p == |name| then 0 else 0xFFFF
  }

  /** The number of entries a name takes. */
  function EntryCount(name: seq<word>): nat { (|name| + 12) / 13 }

  /** `dir` is the entry of order `ord` of `name`: characters, checksum and type, and the last-entry flag on the last
      order only. */
  ghost predicate IsEntryOf(dir: seq<byte>, name: seq<word>, ord: nat, sum: byte) {
    && |dir| == 32 && 1 <= ord <= EntryCount(name) && LdWord(dir, 26) == 0
    && dir[0] == (if ord == EntryCount(name) then ord + LLEF else ord)
    && dir[11] == AM_LFN && dir[12] == 0 && dir[13] == sum
    && forall s :: 0 <= s < 13 ==> CharAt(dir, s) == Stored(name, ord, s)
  }

  /** `st_word` into an entry. */
  method StoreWord(dir: array<byte>, at: nat, w: word)
    requires dir.Length == 32 && at + 2 <= 32
    modifies dir
    ensures dir[..] == Splice(old(dir[..]), at, StWord(w))
    ensures LdWord(dir[..], at) == w
  {
    dir[at] := w % 0x100;
    dir[at + 1] := w / 0x100 % 0x100;
  }

  lemma CharsApart(dir: seq<byte>, s: nat, w: word, t: nat)
    requires |dir| == 32 && s < 13 && t < 13
    ensures t != s ==> CharAt(Splice(dir, LfnOfs(s), StWord(w)), t) == CharAt(dir, t)
    ensures LdWord(Splice(dir, LfnOfs(s), StWord(w)), 26) == LdWord(dir, 26)
    ensures forall k :: (k == 0 || 11 <= k <= 13) ==> Splice(dir, LfnOfs(s), StWord(w))[k] == dir[k]
  {
  }

  /** Puts character `s` of an entry. */
  method PutChar(dir: array<byte>, s: nat, w: word)
    requires dir.Length == 32 && s < 13
    modifies dir
    ensures CharAt(dir[..], s) == w && forall t :: 0 <= t < 13 && t != s ==>
              CharAt(dir[..], t) == old(CharAt(dir[..], t))
    ensures LdWord(dir[..], 26) == old(LdWord(dir[..], 26))
    ensures dir[0] == old(dir[0]) && dir[11] == old(dir[11]) && dir[12] == old(dir[12]) && dir[13] == old(dir[13])
  {
    StoreWord(dir, LfnOfs(s), w);
    forall t | 0 <= t < 13
      ensures t != s ==> CharAt(dir[..], t) == old(CharAt(dir[..], t))
    {
      CharsApart(old(dir[..]), s, w, t);
    }
    CharsApart(old(dir[..]), s, w, s);
  }

  /** `put_lfn`. */
  method PutLfn(lfn: seq<word>, ghost name: seq<word>, dir: array<byte>, order: nat, sum: byte)
    requires dir.Length == 32 && IsName(name) && Holds(lfn, name) && 1 <= order <= EntryCount(name)
    modifies dir
    ensures IsEntryOf(dir[..], name, order, sum)
  {
    dir[13] := sum;
    dir[11] := AM_LFN;
    dir[12] := 0;
    StoreWord(dir, 26, 0);
    hide LdWord, LfnOfs;
    var ord, i, s, wc: word := order, (order - 1) * 13, 0, 0;
    while true
      invariant 0 <= s < 13 && i == (if Place(order, s) <= |name| then Place(order, s) else |name| + 1)
      invariant wc == 0xFFFF <==> Place(order, s) > |name|
      invariant dir[11] == AM_LFN && dir[12] == 0 && dir[13] == sum && LdWord(dir[..], 26) == 0
      invariant forall t :: 0 <= t < s ==> CharAt(dir[..], t) == Stored(name, order, t)
      decreases 13 - s
    {
      if wc != 0xFFFF {
        wc := lfn[i];
        i := i + 1;
      }
      PutChar(dir, s, wc);
      if wc == 0 {
        wc := 0xFFFF;
      }
      s := s + 1;
      if s >= 13 {
        break;
      }
    }
    if wc == 0xFFFF || lfn[i] == 0 {
      ord := ord + LLEF;
    }
    SetOrder(dir, ord);
  }

  /** Sets the order byte, which no character overlaps. */
  method SetOrder(dir: array<byte>, ord: byte)
    requires dir.Length == 32
    modifies dir
    ensures dir[0] == ord && forall k :: 1 <= k < 32 ==> dir[k] == old(dir[k])
    ensures LdWord(dir[..], 26) == old(LdWord(dir[..], 26))
    ensures forall t :: 0 <= t < 13 ==> CharAt(dir[..], t) == old(CharAt(dir[..], t))
  {
    dir[0] := ord;
  }

  /** The order an entry is taken for: its first byte without the last-entry flag. */
  /** An entry byte by byte: section "Long Directory Entries" of the Microsoft FAT32 File System Specification. Its
      characters are five from byte 1 on, six from byte 14 on and two from byte 28 on. */
  lemma EntryBytes(dir: seq<byte>, name: seq<word>, ord: nat, sum: byte, s: nat)
    requires IsEntryOf(dir, name, ord, sum) && s < 13
    ensures dir[0] as int == ord + (if 13 * ord >= |name| then 0x40 else 0)
    ensures dir[11] == 0x0F && dir[12] == 0 && dir[13] == sum && dir[26] == 0 && dir[27] == 0
    ensures s < 5 ==> Stored(name, ord, s) as int == dir[1 + 2 * s] as int + 0x100 * dir[2 + 2 * s] as int
    ensures 5 <= s < 11 ==>
              Stored(name, ord, s) as int == dir[14 + 2 * (s - 5)] as int + 0x100 * dir[15 + 2 * (s - 5)] as int
    ensures 11 <= s ==>
              Stored(name, ord, s) as int == dir[28 + 2 * (s - 11)] as int + 0x100 * dir[29 + 2 * (s - 11)] as int
    ensures var p := 13 * (ord - 1) + s;
            Stored(name, ord, s) == if p < |name| then name[p] else if p == |name| then 0 else 0xFFFF
  {
    assert CharAt(dir, s) == Stored(name, ord, s);
  }

  function OrderOf(b: byte): nat { if b / 0x40 % 2 == 1 then b - 0x40 else b }

  predicate IsLast(b: byte) { b / 0x40 % 2 == 1 }

  /** The first zero character of an entry, 13 if there is none. */
  function ZeroAt(dir: seq<byte>, s: nat): (z: nat)
    requires |dir| == 32 && s <= 13
    ensures s <= z <= 13 && (z < 13 ==> CharAt(dir, z) == 0)
    ensures forall t :: s <= t < z ==> CharAt(dir, t) != 0
    decreases 13 - s
  {
    if s == 13 || CharAt(dir, s) == 0 then s else ZeroAt(dir, s + 1)
  }

  /** The characters of an entry that count: up to the first zero, that one included. */
  function Used(dir: seq<byte>): (n: nat)
    requires |dir| == 32
    ensures 1 <= n <= 13
  {
    if ZeroAt(dir, 0) < 13 then ZeroAt(dir, 0) + 1 else 13
  }

  ghost predicate FillerOk(dir: seq<byte>)
    requires |dir| == 32
  {
    LdWord(dir, 26) == 0 && forall s :: Used(dir) <= s < 13 ==> CharAt(dir, s) == 0xFFFF
  }

  /** When `pick_lfn` accepts an entry. */
  ghost predicate Pickable(dir: seq<byte>)
    requires |dir| == 32
  {
    && FillerOk(dir) && OrderOf(dir[0]) >= 1 && Place(OrderOf(dir[0]), Used(dir)) <= MAX_LFN + 1
    && (IsLast(dir[0]) && ZeroAt(dir, 0) == 13 ==> Place(OrderOf(dir[0]), 13) <= MAX_LFN)
  }

  /** The state of `pick_lfn` after `s` characters: at `i` in the buffer, `wc` the last character stored. */
  ghost predicate Picking(before: seq<word>, now: seq<word>, dir: seq<byte>, s: nat, i: nat, wc: word)
    requires |dir| == 32
  {
    var at, z := Place(OrderOf(dir[0]), 0), ZeroAt(dir, 0);
    && |before| == |now| == MAX_LFN + 1 && s <= 13 && (wc == 0 <==> z < s)
    && (s > 0 ==> 0 <= at <= MAX_LFN && i <= MAX_LFN + 1)
    && i == (if at < 0 then at % TWO_32 else if z < s then at + z + 1 else at + s)
    && (forall k :: 0 <= k <= MAX_LFN ==> now[k] == if at <= k < i && s > 0 then CharAt(dir, k - at) else before[k])
    && forall t :: z < t < s ==> CharAt(dir, t) == 0xFFFF
  }

  lemma PickStart(before: seq<word>, dir: seq<byte>)
    requires |before| == MAX_LFN + 1 && |dir| == 32
    ensures Picking(before, before, dir, 0, (OrderOf(dir[0]) - 1) * 13 % TWO_32, 1)
  {
  }

  lemma PickChar(before: seq<word>, now: seq<word>, dir: seq<byte>, s: nat, i: nat, wc: word)
    requires |dir| == 32 && Picking(before, now, dir, s, i, wc) && s < 13 && wc != 0
    ensures i >= MAX_LFN + 1 ==> !Pickable(dir)
    ensures i < MAX_LFN + 1 ==> Picking(before, now[i := CharAt(dir, s)], dir, s + 1, i + 1, CharAt(dir, s))
  {
    hide LdWord, LfnOfs, FillerOk;
    assert s < Used(dir);
  }

  lemma PickFiller(before: seq<word>, now: seq<word>, dir: seq<byte>, s: nat, i: nat, wc: word)
    requires |dir| == 32 && Picking(before, now, dir, s, i, wc) && s < 13 && wc == 0
    ensures if CharAt(dir, s) != 0xFFFF then !Pickable(dir) else Picking(before, now, dir, s + 1, i, wc)
  {
    hide LdWord, LfnOfs;
  }

  /** What an accepted entry makes of the buffer. */
  ghost predicate PickedInto(before: seq<word>, now: seq<word>, dir: seq<byte>)
    requires |dir| == 32
  {
    && |before| == |now| == MAX_LFN + 1
    && forall k :: 0 <= k <= MAX_LFN ==>
         now[k] == var at := Place(OrderOf(dir[0]), 0);
                   if at <= k < at + Used(dir) then CharAt(dir, k - at)
                   else if IsLast(dir[0]) && ZeroAt(dir, 0) == 13 && k == at + 13 then 0 else before[k]
  }

  lemma PickEnd(before: seq<word>, now: seq<word>, dir: seq<byte>, i: nat, wc: word)
    requires |dir| == 32 && Picking(before, now, dir, 13, i, wc) && LdWord(dir, 26) == 0
    ensures Pickable(dir) <==> !(IsLast(dir[0]) && wc != 0 && i >= MAX_LFN + 1)
    ensures IsLast(dir[0]) && wc != 0 && i <= MAX_LFN ==> PickedInto(before, now[i := 0], dir)
    ensures !(IsLast(dir[0]) && wc != 0) ==> PickedInto(before, now, dir)
  {
    hide LdWord, LfnOfs;
  }

  /** `pick_lfn`: an accepted entry puts its characters in place, and a terminator when it is the last and full. */
  method PickLfn(lfnbuf: array<word>, dir: seq<byte>) returns (r: bool)
    requires lfnbuf.Length == MAX_LFN + 1 && |dir| == 32
    modifies lfnbuf
    ensures r <==> Pickable(dir)
    ensures r ==> PickedInto(old(lfnbuf[..]), lfnbuf[..], dir)
  {
    if LdWord(dir, 26) != 0 {
      return false;
    }
    hide Pickable, Picking, PickedInto, CharAt;
    var at := (OrderOf(dir[0]) - 1) * 13;
    var i: nat, s: nat, wc: word := at % TWO_32, 0, 1;
    ghost var before := lfnbuf[..];
    PickStart(before, dir);
    while s < 13
      invariant s <= 13 && Picking(before, lfnbuf[..], dir, s, i, wc)
    {
      var uc := CharAt(dir, s);
      if wc != 0 {
        PickChar(before, lfnbuf[..], dir, s, i, wc);
        if i >= MAX_LFN + 1 {
          return false;
        }
        ghost var now := lfnbuf[..];
        wc := uc;
        lfnbuf[i] := wc;
        assert lfnbuf[..] == now[i := uc];
        i := i + 1;
      } else {
        PickFiller(before, lfnbuf[..], dir, s, i, wc);
        if uc != 0xFFFF {
          return false;
        }
      }
      s := s + 1;
    }
    PickEnd(before, lfnbuf[..], dir, i, wc);
    if IsLast(dir[0]) && wc != 0 {
      if i >= MAX_LFN + 1 {
        return false;
      }
      ghost var now := lfnbuf[..];
      lfnbuf[i] := 0;
      assert lfnbuf[..] == now[i := 0];
    }
    return true;
  }

  /** When `cmp_lfn` accepts an entry. */
  ghost predicate Comparable(up: word -> word, lfnbuf: seq<word>, dir: seq<byte>)
    requires |dir| == 32 && |lfnbuf| == MAX_LFN + 1
  {
    var ord := dir[0] % 0x40;
    && FillerOk(dir) && ord >= 1 && Place(ord, Used(dir)) <= MAX_LFN + 1
    && (forall s :: 0 <= s < Used(dir) ==> up(CharAt(dir, s)) == up(lfnbuf[Place(ord, s)]))
    && (IsLast(dir[0]) && ZeroAt(dir, 0) == 13 ==> lfnbuf[Place(ord, 13)] == 0)
  }

  /** The state of `cmp_lfn` after `s` characters: at `i` in the name, `wc` the last character compared. */
  ghost predicate Compared(up: word -> word, lfnbuf: seq<word>, dir: seq<byte>, s: nat, i: nat, wc: word)
    requires |dir| == 32 && |lfnbuf| == MAX_LFN + 1
  {
    var at, z := Place(dir[0] as int % 0x40, 0), ZeroAt(dir, 0);
    && s <= 13 && (wc == 0 <==> z < s)
    && (s > 0 ==> 0 <= at <= MAX_LFN && i <= MAX_LFN + 1)
    && i == (if at < 0 then at % TWO_32 else if z < s then at + z + 1 else at + s)
    && (forall t :: 0 <= t < s && t <= z ==> up(CharAt(dir, t)) == up(lfnbuf[at + t]))
    && forall t :: z < t < s ==> CharAt(dir, t) == 0xFFFF
  }

  lemma CompareChar(up: word -> word, lfnbuf: seq<word>, dir: seq<byte>, s: nat, i: nat, wc: word)
    requires |dir| == 32 && |lfnbuf| == MAX_LFN + 1 && Compared(up, lfnbuf, dir, s, i, wc) && s < 13 && wc != 0
    ensures var uc := CharAt(dir, s);
            if i >= MAX_LFN + 1 || up(uc) != up(lfnbuf[i]) then !Comparable(up, lfnbuf, dir)
            else Compared(up, lfnbuf, dir, s + 1, i + 1, uc)
  {
    hide LdWord, LfnOfs;
    var at := Place(dir[0] as int % 0x40, 0);
    assert at >= 0 ==> i == at + s == Place(dir[0] as int % 0x40, s);
    assert s < Used(dir);
  }

  lemma CompareFiller(up: word -> word, lfnbuf: seq<word>, dir: seq<byte>, s: nat, i: nat, wc: word)
    requires |dir| == 32 && |lfnbuf| == MAX_LFN + 1 && Compared(up, lfnbuf, dir, s, i, wc) && s < 13 && wc == 0
    ensures if CharAt(dir, s) != 0xFFFF then !Comparable(up, lfnbuf, dir) else Compared(up, lfnbuf, dir, s + 1, i, wc)
  {
    hide LdWord, LfnOfs;
  }

  lemma CompareEnd(up: word -> word, lfnbuf: seq<word>, dir: seq<byte>, i: nat, wc: word)
    requires |dir| == 32 && |lfnbuf| == MAX_LFN + 1 && Compared(up, lfnbuf, dir, 13, i, wc) && LdWord(dir, 26) == 0
    ensures wc != 0 ==> i <= MAX_LFN
    ensures Comparable(up, lfnbuf, dir) <==> !(IsLast(dir[0]) && wc != 0 && lfnbuf[i] != 0)
  {
    hide LdWord, LfnOfs;
  }

  /** `cmp_lfn`. */
  method CmpLfn(up: word -> word, lfnbuf: seq<word>, dir: seq<byte>) returns (r: bool)
    requires |dir| == 32 && |lfnbuf| == MAX_LFN + 1
    ensures r <==> Comparable(up, lfnbuf, dir)
  {
    if LdWord(dir, 26) != 0 {
      return false;
    }
    var at := (dir[0] as int % 0x40 - 1) * 13;
    var i, s, wc: word := at % TWO_32, 0, 1;
    hide Comparable, Compared, CharAt;
    CompareStart(up, lfnbuf, dir);
    while s < 13
      invariant 0 <= i && 0 <= s <= 13 && Compared(up, lfnbuf, dir, s, i, wc)
    {
      var uc := CharAt(dir, s);
      if wc != 0 {
        CompareChar(up, lfnbuf, dir, s, i, wc);
        if i >= MAX_LFN + 1 || up(uc) != up(lfnbuf[i]) {
          return false;
        }
        i := i + 1;
        wc := uc;
      } else {
        CompareFiller(up, lfnbuf, dir, s, i, wc);
        if uc != 0xFFFF {
          return false;
        }
      }
      s := s + 1;
    }
    CompareEnd(up, lfnbuf, dir, i, wc);
    if IsLast(dir[0]) && wc != 0 && lfnbuf[i] != 0 {
      return false;
    }
    return true;
  }

  lemma CompareStart(up: word -> word, lfnbuf: seq<word>, dir: seq<byte>)
    requires |dir| == 32 && |lfnbuf| == MAX_LFN + 1
    ensures Compared(up, lfnbuf, dir, 0, (dir[0] as int % 0x40 - 1) * 13 % TWO_32, 1)
  {
  }

  /** `entries` are the directory entries of `name`, the last order first. */
  ghost predicate AreEntriesOf(entries: seq<seq<byte>>, name: seq<word>, sum: byte) {
    IsName(name) && |entries| == EntryCount(name)
    && forall k :: 0 <= k < |entries| ==> IsEntryOf(entries[k], name, |entries| - k, sum)
  }

  /** The order byte of a stored entry, without and with the last-entry flag. */
  lemma OrderByte(ord: nat)
    requires 1 <= ord <= 20
    ensures OrderOf(ord) == ord == ord % 0x40 && !IsLast(ord)
    ensures OrderOf(ord + LLEF) == ord == (ord + LLEF) % 0x40 && IsLast(ord + LLEF)
  {
  }

  /** Where the terminator of a stored entry is: only the last one has it, unless that one is full. */
  lemma ZeroOfEntry(dir: seq<byte>, name: seq<word>, ord: nat)
    requires IsName(name) && |dir| == 32 && 1 <= ord && Place(ord, 0) < |name|
    requires forall s :: 0 <= s < 13 ==> CharAt(dir, s) == Stored(name, ord, s)
    ensures ZeroAt(dir, 0) == if Place(ord, 13) <= |name| then 13 else |name| - Place(ord, 0)
  {
    hide LdWord, LfnOfs, CharAt;
    var z := ZeroAt(dir, 0);
    if z < 13 {
      assert CharAt(dir, z) == Stored(name, ord, z);
    }
    if Place(ord, 13) > |name| {
      assert CharAt(dir, |name| - Place(ord, 0)) == 0;
    }
  }

  /** The shape of a stored entry. */
  lemma EntryShape(dir: seq<byte>, name: seq<word>, ord: nat, sum: byte)
    requires IsName(name) && IsEntryOf(dir, name, ord, sum)
    ensures ord <= 20 && Place(ord, 0) < |name| && (ord == EntryCount(name) <==> Place(ord, 13) >= |name|)
    ensures OrderOf(dir[0]) == ord == dir[0] as int % 0x40 && (IsLast(dir[0]) <==> ord == EntryCount(name))
    ensures ZeroAt(dir, 0) == if Place(ord, 13) <= |name| then 13 else |name| - Place(ord, 0)
    ensures FillerOk(dir) && Used(dir) == if Place(ord, 13) <= |name| then 13 else |name| - Place(ord, 0) + 1
    ensures Place(ord, Used(dir)) <= MAX_LFN + 1
    ensures forall s :: 0 <= s < Used(dir) ==>
              CharAt(dir, s) == if Place(ord, s) == |name| then 0 else name[Place(ord, s)]
  {
    OrderByte(ord);
    ZeroOfEntry(dir, name, ord);
    hide LdWord, LfnOfs, CharAt, ZeroAt, OrderOf, IsLast;
  }

  /** The entry of order `ord` agrees with the buffer, as far as its characters go. */
  ghost predicate Agrees(up: word -> word, lfnbuf: seq<word>, name: seq<word>, ord: nat)
    requires |lfnbuf| == MAX_LFN + 1 && |name| <= MAX_LFN
  {
    && (forall p :: Place(ord, 0) <= p < Place(ord, 13) && 0 <= p < |name| ==> up(lfnbuf[p]) == up(name[p]))
    && (ord == EntryCount(name) ==> lfnbuf[|name|] == 0)
  }

  lemma ComparableIffAgrees(up: word -> word, lfnbuf: seq<word>, dir: seq<byte>, name: seq<word>, ord: nat, sum: byte)
    requires Folds(up) && |lfnbuf| == MAX_LFN + 1 && IsName(name) && IsEntryOf(dir, name, ord, sum)
    ensures Comparable(up, lfnbuf, dir) <==> Agrees(up, lfnbuf, name, ord)
  {
    EntryShape(dir, name, ord, sum);
    hide LdWord, LfnOfs, CharAt, Stored, ZeroAt, Used, FillerOk, IsLast, OrderOf, IsEntryOf, EntryCount;
    var n := Used(dir);
    assert Comparable(up, lfnbuf, dir) <==> SameChars(up, lfnbuf, dir, name, ord, n);
    hide Comparable;
    if SameChars(up, lfnbuf, dir, name, ord, n) {
      CharsAgree(up, lfnbuf, dir, name, ord, n);
    }
    if Agrees(up, lfnbuf, name, ord) {
      AgreeChars(up, lfnbuf, dir, name, ord, n);
    }
    hide Agrees, SameChars;
  }

  /** What is left of `Comparable` for a stored entry with `n` characters that count. */
  ghost predicate SameChars(up: word -> word, lfnbuf: seq<word>, dir: seq<byte>, name: seq<word>, ord: nat, n: nat)
    requires |lfnbuf| == MAX_LFN + 1 && |dir| == 32 && 1 <= ord && n <= 13 && Place(ord, n) <= MAX_LFN + 1
  {
    && (forall s :: 0 <= s < n ==> up(CharAt(dir, s)) == up(lfnbuf[Place(ord, s)]))
    && (ord == EntryCount(name) && Place(ord, 13) == |name| ==> |name| > MAX_LFN || lfnbuf[|name|] == 0)
  }

  lemma AgreeChars(up: word -> word, lfnbuf: seq<word>, dir: seq<byte>, name: seq<word>, ord: nat, n: nat)
    requires Folds(up) && |lfnbuf| == MAX_LFN + 1 && |dir| == 32 && 1 <= ord && Place(ord, 0) < |name| <= MAX_LFN
    requires n == if Place(ord, 13) <= |name| then 13 else |name| - Place(ord, 0) + 1
    requires ord == EntryCount(name) <==> Place(ord, 13) >= |name|
    requires forall s :: 0 <= s < n ==> CharAt(dir, s) == if Place(ord, s) == |name| then 0 else name[Place(ord, s)]
    requires Agrees(up, lfnbuf, name, ord)
    ensures SameChars(up, lfnbuf, dir, name, ord, n)
  {
    hide LdWord, LfnOfs, CharAt, EntryCount;
    forall s | 0 <= s < n
      ensures up(CharAt(dir, s)) == up(lfnbuf[Place(ord, s)])
    {
    }
  }

  lemma CharsAgree(up: word -> word, lfnbuf: seq<word>, dir: seq<byte>, name: seq<word>, ord: nat, n: nat)
    requires Folds(up) && |lfnbuf| == MAX_LFN + 1 && |dir| == 32 && 1 <= ord && Place(ord, 0) < |name| <= MAX_LFN
    requires n == if Place(ord, 13) <= |name| then 13 else |name| - Place(ord, 0) + 1
    requires ord == EntryCount(name) <==> Place(ord, 13) >= |name|
    requires forall s :: 0 <= s < n ==> CharAt(dir, s) == if Place(ord, s) == |name| then 0 else name[Place(ord, s)]
    requires SameChars(up, lfnbuf, dir, name, ord, n)
    ensures Agrees(up, lfnbuf, name, ord)
  {
    hide LdWord, LfnOfs, CharAt, EntryCount;
    forall p | Place(ord, 0) <= p < Place(ord, 13) && 0 <= p < |name|
      ensures up(lfnbuf[p]) == up(name[p])
    {
      var s := p - Place(ord, 0);
      assert up(CharAt(dir, s)) == up(lfnbuf[Place(ord, s)]);
    }
    if Place(ord, 13) > |name| {
      var s := |name| - Place(ord, 0);
      assert up(CharAt(dir, s)) == up(lfnbuf[Place(ord, s)]);
    }
  }

  /** The lookup name and the stored name are equal up to case. */
  ghost predicate SameName(up: word -> word, a: seq<word>, b: seq<word>) {
    |a| == |b| && forall p :: 0 <= p < |a| ==> up(a[p]) == up(b[p])
  }

  /** All orders agree with the buffer exactly when the names are equal up to case, whatever follows the terminator. */
  lemma AllAgreeIffSame(up: word -> word, lfnbuf: seq<word>, look: seq<word>, name: seq<word>)
    requires Folds(up) && IsName(name) && Holds(lfnbuf, look) && forall i :: 0 <= i < |look| ==> look[i] != 0
    ensures (forall ord :: 1 <= ord <= EntryCount(name) ==> Agrees(up, lfnbuf, name, ord)) <==> SameName(up, look, name)
  {
    forall p | 0 <= p < |look|
      ensures lfnbuf[p] == look[p] != 0
    {
      assert lfnbuf[..|look|][p] == look[p];
    }
    if forall ord :: 1 <= ord <= EntryCount(name) ==> Agrees(up, lfnbuf, name, ord) {
      assert Agrees(up, lfnbuf, name, EntryCount(name));
      forall p | 0 <= p < |name|
        ensures up(lfnbuf[p]) == up(name[p])
      {
        assert Agrees(up, lfnbuf, name, p / 13 + 1);
      }
    }
  }

  lemma BufferSize(buf: seq<word>, name: seq<word>)
    requires Holds(buf, name)
    ensures |buf| == MAX_LFN + 1
  {
  }

  /** The run of `dir_find` over the LFN entries of one file, and its test at the short entry with checksum `sfn`. */
  method FindLongName(up: word -> word, lfnbuf: seq<word>, entries: seq<seq<byte>>, sfn: byte,
                      ghost look: seq<word>, ghost name: seq<word>, ghost sum: byte) returns (found: bool)
    requires Folds(up) && Holds(lfnbuf, look) && (forall i :: 0 <= i < |look| ==> look[i] != 0)
    requires AreEntriesOf(entries, name, sum)
    ensures found <==> SameName(up, look, name) && sum == sfn
  {
    hide LdWord, LfnOfs, CharAt, Stored, ZeroAt, FillerOk, Used, Comparable, Agrees, SameName, Holds, Folds;
    var ord, s, k := 0xFF, 0xFF, 0;
    ghost var n := |entries|;
    BufferSize(lfnbuf, look);
    while k < |entries|
      invariant 0 <= k <= n && (k > 0 ==> s == sum as int)
      invariant k > 0 ==> ord == if forall o :: n - k < o <= n ==> Agrees(up, lfnbuf, name, o) then n - k else 0xFF
    {
      var dir := entries[k];
      EntryShape(dir, name, n - k, sum);
      ComparableIffAgrees(up, lfnbuf, dir, name, n - k, sum);
      var c := dir[0] as int;
      if IsLast(dir[0]) {
        s := dir[13] as int;
        c := OrderOf(dir[0]);
        ord := c;
      }
      var matched := CmpLfn(up, lfnbuf, dir);
      ord := if c == ord && s == dir[13] as int && matched then ord - 1 else 0xFF;
      k := k + 1;
    }
    AllAgreeIffSame(up, lfnbuf, look, name);
    found := ord == 0 && s == sfn as int;
  }

  /** The run of `dir_read` over the LFN entries of one file: the name comes back whole, whatever the buffer held
      before. */
  method ReadLongName(lfnbuf: array<word>, entries: seq<seq<byte>>, ghost name: seq<word>, ghost sum: byte)
    returns (ord: int)
    requires lfnbuf.Length == MAX_LFN + 1 && AreEntriesOf(entries, name, sum)
    modifies lfnbuf
    ensures ord == 0 && Holds(lfnbuf[..], name)
  {
    hide LdWord, LfnOfs, CharAt, Stored, ZeroAt, FillerOk, Used, PickedInto;
    var s, k := 0xFF, 0;
    ghost var n := |entries|;
    ord := 0xFF;
    while k < |entries|
      invariant 0 <= k <= n && (k > 0 ==> s == sum as int && ord == n - k)
      invariant k > 0 ==> lfnbuf[|name|] == 0
      invariant k > 0 ==> forall p :: 13 * (n - k) <= p < |name| ==> lfnbuf[p] == name[p]
    {
      var dir := entries[k];
      EntryShape(dir, name, n - k, sum);
      var b := dir[0] as int;
      if IsLast(dir[0]) {
        s := dir[13] as int;
        b := OrderOf(dir[0]);
        ord := b;
      }
      ghost var before := lfnbuf[..];
      var picked := PickLfn(lfnbuf, dir);
      PickedChars(before, lfnbuf[..], dir, name, n - k);
      ord := if b == ord && s == dir[13] as int && picked then ord - 1 else 0xFF;
      k := k + 1;
    }
    assert lfnbuf[..][..|name|] == name;
  }

  /** What one picked entry adds to the buffer. */
  lemma PickedChars(before: seq<word>, after: seq<word>, dir: seq<byte>, name: seq<word>, ord: nat)
    requires |before| == |after| == MAX_LFN + 1 && |dir| == 32 && 1 <= ord && Place(ord, 0) < |name| <= MAX_LFN
    requires Used(dir) == (if Place(ord, 13) <= |name| then 13 else |name| - Place(ord, 0) + 1)
    requires ZeroAt(dir, 0) == if Place(ord, 13) <= |name| then 13 else |name| - Place(ord, 0)
    requires forall s :: 0 <= s < Used(dir) ==>
               CharAt(dir, s) == if Place(ord, s) == |name| then 0 else name[Place(ord, s)]
    requires OrderOf(dir[0]) == ord && PickedInto(before, after, dir)
    requires IsLast(dir[0]) <==> Place(ord, 13) >= |name|
    ensures forall p :: Place(ord, 0) <= p < |name| && p < Place(ord, 13) ==> after[p] == name[p]
    ensures forall p :: Place(ord, 13) <= p < |name| ==> after[p] == before[p]
    ensures after[|name|] == if IsLast(dir[0]) then 0 else before[|name|]
  {
    hide LdWord, LfnOfs, CharAt, ZeroAt, Used, IsLast, OrderOf;
    forall p | Place(ord, 0) <= p < |name| && p < Place(ord, 13)
      ensures after[p] == name[p]
    {
      var s := p - Place(ord, 0);
      assert CharAt(dir, s) == name[Place(ord, s)];
    }
  }

  /** The part of `dir_register` that stores a long name: one entry for each order, the last order first, over whatever
      the directory entries held. */
  method StoreLongName(lfn: seq<word>, ghost name: seq<word>, sum: byte) returns (entries: seq<seq<byte>>)
    requires IsName(name) && Holds(lfn, name)
    ensures AreEntriesOf(entries, name, sum)
  {
    hide IsEntryOf;
    var len: nat := 0;
    while lfn[len] != 0
      invariant len <= |name| && forall i :: 0 <= i < |name| ==> lfn[i] == name[i]
      decreases |name| - len
    {
      len := len + 1;
    }
    var order: nat := (len + 12) / 13;
    entries := [];
    while order > 0
      invariant |entries| == EntryCount(name) - order
      invariant forall k :: 0 <= k < |entries| ==> IsEntryOf(entries[k], name, EntryCount(name) - k, sum)
    {
      var dir := new byte[32];
      PutLfn(lfn, name, dir, order, sum);
      entries := entries + [dir[..]];
      order := order - 1;
    }
  }

  /** A stored name is read back whole, and found by exactly the names that are equal to it up to case. */
  method StoreThenFind(up: word -> word, lfn: seq<word>, ghost name: seq<word>, sum: byte, look: seq<word>,
                       ghost lookName: seq<word>, lfnbuf: array<word>)
    returns (ord: int, found: bool)
    requires IsName(name) && Holds(lfn, name) && lfnbuf.Length == MAX_LFN + 1
    requires Folds(up) && Holds(look, lookName) && forall i :: 0 <= i < |lookName| ==> lookName[i] != 0
    modifies lfnbuf
    ensures ord == 0 && Holds(lfnbuf[..], name)
    ensures found <==> SameName(up, lookName, name)
  {
    hide AreEntriesOf, IsName, Holds, SameName;
    var entries := StoreLongName(lfn, name, sum);
    ord := ReadLongName(lfnbuf, entries, name, sum);
    found := FindLongName(up, look, entries, sum, lookName, name, sum);
  }
}
