/** Two-level page tables in word memory: making every mapping readable, writable and executable, and the two
    lookups. */
module PageTable {

  /** The words of the address space. */
  const WORDS := 0x4000_0000
  const L1_REWRITTEN := 1024
  const L2_ENTRIES := 256

  datatype L1Type = Fault | Coarse | Section | Supersection | Reserved

  datatype L2Type = NoPage | LargePage | SmallPage

  function TypeL1(d: bv32): L1Type {
    if d & 3 == 0 then Fault
    else if d & 3 == 1 then Coarse
    else if d & 3 == 2 then (if (d >> 18) & 1 == 0 then Section else Supersection)
    else Reserved
  }

  function TypeL2(d: bv32): L2Type {
    if d & 3 == 1 then LargePage
    else if (d >> 1) & 1 == 1 then SmallPage
    else NoPage
  }

  /** The word index of the second-level table of a coarse descriptor: 21 address bits in units of 1 KiB, less
      0x40000000, in 32-bit address arithmetic. */
  function L2Table(d: bv32): (t: nat)
    ensures t + L2_ENTRIES <= WORDS
  {
    L2Unit(d) as nat * L2_ENTRIES
  }

  function L2Unit(d: bv32): bv22 { ((((d >> 10) & 0x1F_FFFF) - 0x10_0000) & 0x3F_FFFF) as bv22 }

  function L1Index(va: bv32): (i: nat)
    ensures i < 4096
  {
    ((va >> 20) as bv12) as nat
  }

  function L2Index(va: bv32): (i: nat)
    ensures i < L2_ENTRIES
  {
    (((va << 12) >> 24) as bv8) as nat
  }

  /** The bits the rewriter clears and sets, for each type of descriptor. */
  function RwxSection(d: bv32): bv32 { ((d & !0x10) & !0x8000) | 0xC00 }

  function RwxSupersection(d: bv32): bv32 { (d & !0x10) | 0xC00 }

  function RwxLargePage(d: bv32): bv32 { ((d & !0x8000) & !0x200) | 0x30 }

  function RwxSmallPage(d: bv32): bv32 { ((d & !0x1) & !0x200) | 0x30 }

  function RwxL1(d: bv32): bv32 {
    match TypeL1(d)
    case Section => RwxSection(d)
    case Supersection => RwxSupersection(d)
    case _ => d
  }

  function RwxL2(d: bv32): bv32 {
    match TypeL2(d)
    case LargePage => RwxLargePage(d)
    case SmallPage => RwxSmallPage(d)
    case NoPage => d
  }

  /** The user permissions in three bits, read, write and execute, from the access bits of a descriptor. */
  function UserPerm(ap: bv32, apx: bv32, xn: bv32): bv32 {
    if ap >> 1 == 0 then 0
    else ((ap >> 1) | ((if apx == 0 && ap & 1 != 0 then 1 else 0) << 1)) | ((if xn == 0 then 1 else 0) << 2)
  }

  function PermSection(d: bv32): bv32 { UserPerm((d >> 10) & 3, (d >> 15) & 1, (d >> 4) & 1) }

  function PermSupersection(d: bv32): bv32 { UserPerm((d >> 10) & 3, 0, (d >> 4) & 1) }

  function PermLargePage(d: bv32): bv32 { UserPerm((d >> 4) & 3, (d >> 9) & 1, (d >> 15) & 1) }

  function PermSmallPage(d: bv32): bv32 { UserPerm((d >> 4) & 3, (d >> 9) & 1, d & 1) }

  function PermL1(d: bv32): bv32 {
    match TypeL1(d)
    case Section => PermSection(d)
    case Supersection => PermSupersection(d)
    case _ => 0
  }

  function PermL2(d: bv32): bv32 {
    match TypeL2(d)
    case LargePage => PermLargePage(d)
    case SmallPage => PermSmallPage(d)
    case NoPage => 0
  }

  function SectionAddress(d: bv32, va: bv32): bv32 { (((d >> 20) & 0xFFF) << 20) | ((va << 12) >> 12) }

  function SupersectionAddress(d: bv32, va: bv32): bv32 { (((d >> 24) & 0xFF) << 24) | ((va << 8) >> 8) }

  function LargePageAddress(d: bv32, va: bv32): bv32 { (((d >> 16) & 0xFFFF) << 16) | (va & 0xFFFF) }

  function SmallPageAddress(d: bv32, va: bv32): bv32 { (((d >> 12) & 0xF_FFFF) << 12) | (va & 0xFFF) }

  function AddressL1(d: bv32, va: bv32): bv32 {
    match TypeL1(d)
    case Section => SectionAddress(d, va)
    case Supersection => SupersectionAddress(d, va)
    case _ => 0
  }

  function AddressL2(d: bv32, va: bv32): bv32 {
    match TypeL2(d)
    case LargePage => LargePageAddress(d, va)
    case SmallPage => SmallPageAddress(d, va)
    case NoPage => 0
  }

  /** What maps an address: a first-level or a second-level descriptor, or nothing. */
  datatype Mapping = Unmapped | BySection(d: bv32) | ByPage(d: bv32)

  function Walk(w: seq<bv32>, l1: nat, va: bv32): Mapping
    requires |w| == WORDS && l1 + L1Index(va) < WORDS
  {
    var d := w[l1 + L1Index(va)];
    match TypeL1(d)
    case Coarse =>
      var e := w[L2Table(d) + L2Index(va)];
      if TypeL2(e) == NoPage then Unmapped else ByPage(e)
    case Section => BySection(d)
    case Supersection => BySection(d)
    case _ => Unmapped
  }

  /** `L1MMUTable__GetPAFromVA`. */
  function GetPaFromVa(w: seq<bv32>, l1: nat, va: bv32): bv32
    requires |w| == WORDS && l1 + L1Index(va) < WORDS
  {
    var d := w[l1 + L1Index(va)];
    if TypeL1(d) == Coarse then AddressL2(w[L2Table(d) + L2Index(va)], va) else AddressL1(d, va)
  }

  /** `L1MMUTable__GetAddressUserPerm`. */
  function GetAddressUserPerm(w: seq<bv32>, l1: nat, va: bv32): bv32
    requires |w| == WORDS && l1 + L1Index(va) < WORDS
  {
    var d := w[l1 + L1Index(va)];
    if TypeL1(d) == Coarse then PermL2(w[L2Table(d) + L2Index(va)]) else PermL1(d)
  }

  /** What the rewriter keeps of a section and what it makes of it. */
  /** The descriptor formats by their type bits. */
  lemma DescriptorTypes(d: bv32)
    ensures TypeL1(d) == Fault <==> d & 3 == 0
    ensures TypeL1(d) == Coarse <==> d & 3 == 1
    ensures TypeL1(d) == Section <==> d & 0x4_0003 == 2
    ensures TypeL1(d) == Supersection <==> d & 0x4_0003 == 0x4_0002
    ensures TypeL2(d) == LargePage <==> d & 3 == 1
    ensures TypeL2(d) == SmallPage <==> d & 3 == 2 || d & 3 == 3
  {
  }

  /** `a` has the bits of `mask` from `d` and the others from `va`. */
  predicate Mixes(a: bv32, mask: bv32, d: bv32, va: bv32) { a & mask == d & mask && a & !mask == va & !mask }

  /** An address is translated by taking its upper bits from the descriptor and keeping the rest. */
  lemma TranslatedBits(d: bv32, va: bv32)
    ensures TypeL1(d) == Section ==> Mixes(AddressL1(d, va), 0xFFF0_0000, d, va)
    ensures TypeL1(d) == Supersection ==> Mixes(AddressL1(d, va), 0xFF00_0000, d, va)
    ensures TypeL2(d) == LargePage ==> Mixes(AddressL2(d, va), 0xFFFF_0000, d, va)
    ensures TypeL2(d) == SmallPage ==> Mixes(AddressL2(d, va), 0xFFFF_F000, d, va)
  {
    hide SectionAddress, SupersectionAddress, LargePageAddress, SmallPageAddress, TypeL1, TypeL2, Mixes;
    SectionBits(d, va);
    SupersectionBits(d, va);
    LargePageBits(d, va);
    SmallPageBits(d, va);
  }

  lemma SectionBits(d: bv32, va: bv32)
    ensures Mixes(SectionAddress(d, va), 0xFFF0_0000, d, va)
  {
  }

  lemma SupersectionBits(d: bv32, va: bv32)
    ensures Mixes(SupersectionAddress(d, va), 0xFF00_0000, d, va)
  {
  }

  lemma LargePageBits(d: bv32, va: bv32)
    ensures Mixes(LargePageAddress(d, va), 0xFFFF_0000, d, va)
  {
  }

  lemma SmallPageBits(d: bv32, va: bv32)
    ensures Mixes(SmallPageAddress(d, va), 0xFFFF_F000, d, va)
  {
  }

  /** The two indices are the upper twelve bits of the address and the next eight. */
  lemma IndexBits(va: bv32)
    ensures (L1Index(va) as bv12 as bv32) << 20 == va & 0xFFF0_0000
    ensures (L2Index(va) as bv8 as bv32) << 12 == va & 0xF_F000
  {
    Index12((va >> 20) as bv12);
    Index8(((va << 12) >> 24) as bv8);
  }

  /** The table of a coarse descriptor in units of 1 KiB ... */
  lemma TableUnits(d: bv32)
    ensures L2Unit(d) as bv32 == (((d >> 10) & 0x1F_FFFF) - 0x10_0000) & 0x3F_FFFF
  {
  }

  /** ... which is the address in its 21 address bits, less 0x40000000. */
  lemma TableAddress(d: bv32)
    ensures ((((d >> 10) & 0x1F_FFFF) - 0x10_0000) & 0x3F_FFFF) << 10 == (d & 0x7FFF_FC00) - 0x4000_0000
  {
  }

  lemma Index12(a: bv12)
    ensures (a as nat) as bv12 == a
  {
  }

  lemma Index8(a: bv8)
    ensures (a as nat) as bv8 == a
  {
  }

  lemma SectionType(d: bv32)
    requires TypeL1(d) == Section
    ensures TypeL1(RwxSection(d)) == Section
  {
  }

  lemma SectionKept(d: bv32)
    ensures RwxSection(d) >> 20 == d >> 20
    ensures (d ^ RwxSection(d)) & !0x8C10 == 0
    ensures RwxSection(RwxSection(d)) == RwxSection(d)
    ensures PermSection(RwxSection(d)) == 7
  {
  }

  lemma SupersectionType(d: bv32)
    requires TypeL1(d) == Supersection
    ensures TypeL1(RwxSupersection(d)) == Supersection
  {
  }

  lemma SupersectionKept(d: bv32)
    ensures RwxSupersection(d) >> 24 == d >> 24
    ensures (d ^ RwxSupersection(d)) & !0xC10 == 0
    ensures RwxSupersection(RwxSupersection(d)) == RwxSupersection(d)
    ensures PermSupersection(RwxSupersection(d)) == 7
  {
  }

  lemma LargePageType(d: bv32)
    requires TypeL2(d) == LargePage
    ensures TypeL2(RwxLargePage(d)) == LargePage
  {
  }

  lemma LargePageKept(d: bv32)
    ensures RwxLargePage(d) >> 16 == d >> 16
    ensures (d ^ RwxLargePage(d)) & !0x8230 == 0
    ensures RwxLargePage(RwxLargePage(d)) == RwxLargePage(d)
    ensures PermLargePage(RwxLargePage(d)) == 7
  {
  }

  lemma SmallPageType(d: bv32)
    requires TypeL2(d) == SmallPage
    ensures TypeL2(RwxSmallPage(d)) == SmallPage
  {
  }

  lemma SmallPageKept(d: bv32)
    ensures RwxSmallPage(d) >> 12 == d >> 12
    ensures (d ^ RwxSmallPage(d)) & !0x231 == 0
    ensures RwxSmallPage(RwxSmallPage(d)) == RwxSmallPage(d)
    ensures PermSmallPage(RwxSmallPage(d)) == 7
  {
  }

  /** A rewritten first-level descriptor has the type and the address of the old one, grants user read, write and
      execute when it maps anything, and is a fixed point. */
  lemma RwxL1Keeps(d: bv32, va: bv32)
    ensures TypeL1(RwxL1(d)) == TypeL1(d) && AddressL1(RwxL1(d), va) == AddressL1(d, va)
    ensures PermL1(RwxL1(d)) == if TypeL1(d) == Section || TypeL1(d) == Supersection then 7 else 0
    ensures RwxL1(RwxL1(d)) == RwxL1(d) && (TypeL1(d) == Coarse ==> RwxL1(d) == d)
  {
    hide TypeL1, RwxSection, RwxSupersection, PermSection, PermSupersection;
    SectionKept(d);
    SupersectionKept(d);
    if TypeL1(d) == Section {
      SectionType(d);
    } else if TypeL1(d) == Supersection {
      SupersectionType(d);
    }
  }

  lemma RwxL2Keeps(d: bv32, va: bv32)
    ensures TypeL2(RwxL2(d)) == TypeL2(d) && AddressL2(RwxL2(d), va) == AddressL2(d, va)
    ensures PermL2(RwxL2(d)) == if TypeL2(d) == NoPage then 0 else 7
    ensures RwxL2(RwxL2(d)) == RwxL2(d)
  {
    hide TypeL2, RwxLargePage, RwxSmallPage, PermLargePage, PermSmallPage;
    LargePageKept(d);
    SmallPageKept(d);
    if TypeL2(d) == LargePage {
      LargePageType(d);
    } else if TypeL2(d) == SmallPage {
      SmallPageType(d);
    }
  }

  /** User access by the access permission bits of the architecture, AP and its extension APX. */
  datatype Access = NoAccess | ReadOnly | ReadWrite

  function UserAccess(apx: bv32, ap: bv32): Access {
    if ap == 0 || ap == 1 then NoAccess
    else if ap == 2 || apx != 0 then ReadOnly
    else ReadWrite
  }

  /** Bit 0 says readable, bit 1 writable, bit 2 executable. */
  lemma PermMeans(ap: bv32, apx: bv32, xn: bv32)
    requires ap <= 3
    ensures var p := UserPerm(ap, apx, xn);
            && (p & 1 == 1 <==> UserAccess(apx, ap) != NoAccess)
            && (p & 2 == 2 <==> UserAccess(apx, ap) == ReadWrite)
            && (p & 4 == 4 <==> UserAccess(apx, ap) != NoAccess && xn == 0)
            && p <= 7
  {
  }

  /** The access that the architecture gives to a descriptor, with APX in bit 15 of both kinds of section. */
  function AccessL1(d: bv32): Access {
    if TypeL1(d) == Section || TypeL1(d) == Supersection then UserAccess((d >> 15) & 1, (d >> 10) & 3) else NoAccess
  }

  /** The header calls bits 15 to 17 of a supersection reserved, so neither the rewriter nor the permission lookup sees
      its APX: after a rewrite the mapping is writable exactly when that bit was clear or the mapping is a plain
      section. */
  lemma SupersectionsKeepApx(d: bv32)
    requires TypeL1(d) == Section || TypeL1(d) == Supersection
    ensures AccessL1(RwxL1(d)) == ReadWrite <==> TypeL1(d) == Section || (d >> 15) & 1 == 0
  {
    hide TypeL1, RwxSection, RwxSupersection;
    SectionAccess(d);
    if TypeL1(d) == Section {
      SectionType(d);
    } else {
      SupersectionType(d);
    }
  }

  lemma SectionAccess(d: bv32)
    ensures (RwxSection(d) >> 15) & 1 == 0 && (RwxSection(d) >> 10) & 3 == 3
    ensures (RwxSupersection(d) >> 15) & 1 == (d >> 15) & 1 && (RwxSupersection(d) >> 10) & 3 == 3
  {
  }

  /** Word `i` lies in a second-level table of one of the first `n` entries. */
  ghost predicate InL2(w: seq<bv32>, l1: nat, n: nat, i: int)
    requires l1 + n <= |w|
  {
    exists e :: l1 <= e < l1 + n && Holds(w[e], i)
  }

  ghost predicate Holds(d: bv32, i: int) { TypeL1(d) == Coarse && L2Table(d) <= i < L2Table(d) + L2_ENTRIES }

  /** No second-level table overlaps the first-level table. Second-level tables may be shared or overlap. */
  ghost predicate TablesApart(w: seq<bv32>, l1: nat, n: nat) {
    && |w| == WORDS && l1 + n <= |w|
    && forall i :: l1 <= i < l1 + n ==> !InL2(w, l1, n, i)
  }

  /** What word `i` becomes after `n` entries. */
  ghost function RwxWord(w: seq<bv32>, l1: nat, n: nat, i: int): bv32
    requires l1 + n <= |w| && 0 <= i < |w|
  {
    if l1 <= i < l1 + n then RwxL1(w[i]) else if InL2(w, l1, n, i) then RwxL2(w[i]) else w[i]
  }

  ghost function AllRwx(w: seq<bv32>, l1: nat): seq<bv32>
    requires l1 + L1_REWRITTEN <= |w|
  {
    seq(|w|, i requires 0 <= i < |w| => RwxWord(w, l1, L1_REWRITTEN, i))
  }

  lemma FewerTables(w: seq<bv32>, l1: nat, n: nat, k: nat, i: int)
    requires k <= n && l1 + n <= |w| && InL2(w, l1, k, i)
    ensures InL2(w, l1, n, i)
  {
  }

  /** One more entry. */
  lemma NextEntry(w: seq<bv32>, l1: nat, k: nat, i: int)
    requires TablesApart(w, l1, L1_REWRITTEN) && k < L1_REWRITTEN && 0 <= i < |w|
    ensures var d := w[l1 + k];
            RwxWord(w, l1, k, l1 + k) == d
            && RwxWord(w, l1, k + 1, i) == if i == l1 + k then RwxL1(d)
              else if Holds(d, i) then RwxL2(RwxWord(w, l1, k, i)) else RwxWord(w, l1, k, i)
  {
    hide TypeL1, RwxL1, RwxL2, L2Table;
    RwxL2Keeps(w[i], 0);
    if InL2(w, l1, k, l1 + k) {
      FewerTables(w, l1, L1_REWRITTEN, k, l1 + k);
    }
    if InL2(w, l1, k, i) {
      FewerTables(w, l1, k + 1, k, i);
      FewerTables(w, l1, L1_REWRITTEN, k, i);
    }
    if InL2(w, l1, k + 1, i) {
      FewerTables(w, l1, L1_REWRITTEN, k + 1, i);
    }
    assert InL2(w, l1, k + 1, i) <==> InL2(w, l1, k, i) || Holds(w[l1 + k], i);
  }

  lemma FirstEntry(w: seq<bv32>, l1: nat)
    requires l1 + L1_REWRITTEN <= |w|
    ensures forall i :: 0 <= i < |w| ==> w[i] == RwxWord(w, l1, 0, i)
  {
  }

  lemma NotOwnTable(w: seq<bv32>, l1: nat, k: nat)
    requires TablesApart(w, l1, L1_REWRITTEN) && k < L1_REWRITTEN
    ensures !Holds(w[l1 + k], l1 + k)
  {
    if Holds(w[l1 + k], l1 + k) {
      assert InL2(w, l1, L1_REWRITTEN, l1 + k);
    }
  }

  class Memory {
    var words: seq<bv32>

    constructor (words: seq<bv32>)
      ensures this.words == words
    {
      this.words := words;
    }

    /** `L2MMUTable__RWXForAll`. */
    method RwxL2ForAll(table: nat)
      requires table + L2_ENTRIES <= |words|
      modifies this
      ensures |words| == old(|words|)
      ensures forall i :: 0 <= i < |words| ==>
                words[i] == if table <= i < table + L2_ENTRIES then RwxL2(old(words)[i]) else old(words)[i]
    {
      hide RwxL2;
      var at: nat := table;
      while at != table + L2_ENTRIES
        invariant table <= at <= table + L2_ENTRIES && |words| == old(|words|)
        invariant forall i :: 0 <= i < |words| ==>
                    words[i] == if table <= i < at then RwxL2(old(words)[i]) else old(words)[i]
        decreases table + L2_ENTRIES - at
      {
        words := words[at := RwxL2(words[at])];
        at := at + 1;
      }
    }

    /** `L1MMUTable__RWXForAll`. */
    method RwxL1ForAll(l1: nat)
      requires |words| == WORDS && TablesApart(words, l1, L1_REWRITTEN)
      modifies this
      ensures words == AllRwx(old(words), l1)
    {
      hide TypeL1, RwxL1, RwxL2, RwxWord, InL2;
      ghost var w := words;
      var k: nat := 0;
      FirstEntry(w, l1);
      while k != L1_REWRITTEN
        invariant k <= L1_REWRITTEN && |words| == |w|
        invariant forall i :: 0 <= i < |w| ==> words[i] == RwxWord(w, l1, k, i)
        decreases L1_REWRITTEN - k
      {
        forall i | 0 <= i < |w|
          ensures RwxWord(w, l1, k + 1, i) == if i == l1 + k then RwxL1(w[l1 + k])
                    else if Holds(w[l1 + k], i) then RwxL2(words[i]) else words[i]
        {
          NextEntry(w, l1, k, i);
        }
        NextEntry(w, l1, k, 0);
        var d := words[l1 + k];
        RwxL1Keeps(d, 0);
        if TypeL1(d) == Coarse {
          RwxL2ForAll(L2Table(d));
          NotOwnTable(w, l1, k);
        } else {
          words := words[l1 + k := RwxL1(d)];
        }
        k := k + 1;
      }
    }
  }

  /** A table of 1024 to 4096 entries that no second-level table overlaps. */
  ghost predicate Table(w: seq<bv32>, l1: nat, n: nat) { L1_REWRITTEN <= n <= 4096 && TablesApart(w, l1, n) }

  lemma RewritesApart(w: seq<bv32>, l1: nat, n: nat, i: int)
    requires Table(w, l1, n) && l1 <= i < l1 + n
    ensures AllRwx(w, l1)[i] == if i < l1 + L1_REWRITTEN then RwxL1(w[i]) else w[i]
  {
    if InL2(w, l1, L1_REWRITTEN, i) {
      FewerTables(w, l1, n, L1_REWRITTEN, i);
    }
  }

  lemma PageRewritten(w: seq<bv32>, l1: nat, n: nat, e: nat, i: int)
    requires Table(w, l1, n) && e < n && Holds(w[l1 + e], i)
    ensures AllRwx(w, l1)[i] == w[i] || AllRwx(w, l1)[i] == RwxL2(w[i])
    ensures e < L1_REWRITTEN ==> AllRwx(w, l1)[i] == RwxL2(w[i])
  {
    hide TypeL1, L2Table, RwxL2, RwxL1;
    InMemory(w[l1 + e], i);
    assert InL2(w, l1, n, i);
    assert e < L1_REWRITTEN ==> InL2(w, l1, L1_REWRITTEN, i);
  }

  lemma InMemory(d: bv32, i: int)
    requires Holds(d, i)
    ensures 0 <= i < WORDS
  {
  }

  lemma SameSize(w: seq<bv32>, l1: nat)
    requires l1 + L1_REWRITTEN <= |w|
    ensures |AllRwx(w, l1)| == |w|
  {
  }

  /** Making a table readable, writable and executable moves no mapping, even where tables share pages. */
  lemma RwxKeepsAddresses(w: seq<bv32>, l1: nat, n: nat, va: bv32)
    requires Table(w, l1, n) && L1Index(va) < n
    ensures |AllRwx(w, l1)| == WORDS && GetPaFromVa(AllRwx(w, l1), l1, va) == GetPaFromVa(w, l1, va)
  {
    hide TypeL1, TypeL2, L2Table, RwxL2, RwxL1, AddressL1, AddressL2, RwxWord, AllRwx, L1Index, L2Index;
    SameSize(w, l1);
    var e := l1 + L1Index(va);
    RewritesApart(w, l1, n, e);
    RwxL1Keeps(w[e], va);
    if TypeL1(w[e]) == Coarse {
      var i := L2Table(w[e]) + L2Index(va);
      PageRewritten(w, l1, n, L1Index(va), i);
      RwxL2Keeps(w[i], va);
    }
  }

  lemma RwxKeepsMappings(w: seq<bv32>, l1: nat, n: nat, va: bv32)
    requires Table(w, l1, n) && L1Index(va) < n
    ensures |AllRwx(w, l1)| == WORDS
    ensures Walk(AllRwx(w, l1), l1, va) == Unmapped <==> Walk(w, l1, va) == Unmapped
  {
    hide TypeL1, TypeL2, L2Table, RwxL2, RwxL1, AddressL1, AddressL2, RwxWord, AllRwx, L1Index, L2Index;
    SameSize(w, l1);
    var e := l1 + L1Index(va);
    RewritesApart(w, l1, n, e);
    RwxL1Keeps(w[e], va);
    if TypeL1(w[e]) == Coarse {
      var i := L2Table(w[e]) + L2Index(va);
      PageRewritten(w, l1, n, L1Index(va), i);
      RwxL2Keeps(w[i], va);
    }
  }

  /** Afterwards the user may do everything with each address that the rewritten entries map, and nothing with the
      others. */
  lemma RwxGrantsAll(w: seq<bv32>, l1: nat, n: nat, va: bv32)
    requires Table(w, l1, n) && L1Index(va) < 1024
    ensures |AllRwx(w, l1)| == WORDS
    ensures GetAddressUserPerm(AllRwx(w, l1), l1, va) == if Walk(w, l1, va) == Unmapped then 0 else 7
  {
    hide TypeL1, TypeL2, L2Table, RwxL2, RwxL1, PermL1, PermL2, RwxWord, AllRwx, L1Index, L2Index;
    SameSize(w, l1);
    var e := l1 + L1Index(va);
    RewritesApart(w, l1, n, e);
    RwxL1Keeps(w[e], va);
    if TypeL1(w[e]) == Coarse {
      var i := L2Table(w[e]) + L2Index(va);
      PageRewritten(w, l1, n, L1Index(va), i);
      RwxL2Keeps(w[i], va);
    }
  }

  lemma SameTables(w: seq<bv32>, l1: nat, n: nat, i: int)
    requires Table(w, l1, n)
    ensures InL2(AllRwx(w, l1), l1, n, i) <==> InL2(w, l1, n, i)
    ensures InL2(AllRwx(w, l1), l1, L1_REWRITTEN, i) <==> InL2(w, l1, L1_REWRITTEN, i)
  {
    hide TypeL1, L2Table, RwxL1, RwxWord;
    var w1 := AllRwx(w, l1);
    forall e | l1 <= e < l1 + n
      ensures Holds(w1[e], i) <==> Holds(w[e], i)
    {
      RewritesApart(w, l1, n, e);
      RwxL1Keeps(w[e], 0);
    }
  }

  /** A second rewrite changes nothing. */
  lemma RwxTwice(w: seq<bv32>, l1: nat, n: nat)
    requires Table(w, l1, n)
    ensures Table(AllRwx(w, l1), l1, n)
    ensures AllRwx(AllRwx(w, l1), l1) == AllRwx(w, l1)
  {
    hide TypeL1, RwxL1, RwxL2, InL2;
    var w1 := AllRwx(w, l1);
    forall i | 0 <= i < |w|
      ensures AllRwx(w1, l1)[i] == w1[i]
    {
      SameTables(w, l1, n, i);
      RwxL1Keeps(w[i], 0);
      RwxL2Keeps(w[i], 0);
    }
    forall i | l1 <= i < l1 + n
      ensures !InL2(w1, l1, n, i)
    {
      SameTables(w, l1, n, i);
    }
  }
}
