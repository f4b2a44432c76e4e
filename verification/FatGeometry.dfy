/** Volume geometry: what `mount_volume` computes from the BIOS parameter block of a FAT12/16/32 volume. */
module FatGeometry {
  import opened Bytes

  const MAX_FAT12 := 0xFF5
  const MAX_FAT16 := 0xFFF5
  const MAX_FAT32 := 0x0FFF_FFF5

  datatype FatType = Fat12 | Fat16 | Fat32

  /** `n` stretches of `size` sectors. */
  function Span(size: nat, n: nat): nat { size * n }

  /** The fields of the BIOS parameter block that `mount_volume` reads. */
  datatype Bpb = Bpb(
    bytsPerSec: nat, secPerClus: nat, rsvdSecCnt: nat, numFats: nat, rootEntCnt: nat, totSec16: nat,
    fatSz16: nat, totSec32: nat, fatSz32: nat, fsVer32: nat, rootClus32: nat)
  {
    predicate InRange() {
      && bytsPerSec < 0x1_0000 && secPerClus < 0x100 && rsvdSecCnt < 0x1_0000 && numFats < 0x100
      && rootEntCnt < 0x1_0000 && totSec16 < 0x1_0000 && fatSz16 < 0x1_0000 && totSec32 < TWO_32
      && fatSz32 < TWO_32 && fsVer32 < 0x1_0000 && rootClus32 < TWO_32
    }

    function FatSectors(): nat { if fatSz16 == 0 then fatSz32 else fatSz16 }

    function TotalSectors(): nat { if totSec16 == 0 then totSec32 else totSec16 }

    /** The clusters that fit behind `sysect` system sectors. */
    function ClustersBehind(sysect: nat): nat {
      if secPerClus == 0 || TotalSectors() < sysect then 0 else (TotalSectors() - sysect) / secPerClus
    }

    /** Reserved, FAT and root directory sectors, before any 32-bit wrap. */
    function SystemSectors(): nat { rsvdSecCnt + Span(numFats, FatSectors()) + rootEntCnt / 16 }
  }

  function ParseBpb(win: Sector): (b: Bpb)
    ensures b.InRange()
  {
    Bpb(LdWord(win, 11), win[13], LdWord(win, 14), win[16], LdWord(win, 17), LdWord(win, 19),
        LdWord(win, 22), LdDword(win, 32), LdDword(win, 36), LdWord(win, 42), LdDword(win, 44))
  }

  /** Where the fields are in a boot sector, byte by byte: sections "BPB" and "Extended BPB" of the Microsoft FAT32 File
      System Specification. */
  lemma BpbBytes(win: Sector)
    ensures var b := ParseBpb(win);
            && b.bytsPerSec % 0x100 == win[11] && b.bytsPerSec / 0x100 == win[12] && b.secPerClus == win[13]
            && b.rsvdSecCnt % 0x100 == win[14] && b.rsvdSecCnt / 0x100 == win[15] && b.numFats == win[16]
            && b.rootEntCnt % 0x100 == win[17] && b.rootEntCnt / 0x100 == win[18]
            && b.totSec16 % 0x100 == win[19] && b.totSec16 / 0x100 == win[20]
            && b.fatSz16 % 0x100 == win[22] && b.fatSz16 / 0x100 == win[23]
            && b.fsVer32 % 0x100 == win[42] && b.fsVer32 / 0x100 == win[43]
    ensures var b := ParseBpb(win);
            && DwordIs(b.totSec32, win[32..36]) && DwordIs(b.fatSz32, win[36..40]) && DwordIs(b.rootClus32, win[44..48])
  {
    hide LdWord, LdDword;
    LoadedBytes(win, 11);
    LoadedBytes(win, 14);
    LoadedBytes(win, 17);
    LoadedBytes(win, 19);
    LoadedBytes(win, 22);
    LoadedBytes(win, 32);
    LoadedBytes(win, 36);
    LoadedBytes(win, 42);
    LoadedBytes(win, 44);
  }

  /** The four bytes of a number, the least significant first. */
  predicate DwordIs(v: nat, b: seq<byte>)
    requires |b| == 4
  {
    v % 0x100 == b[0] && v / 0x100 % 0x100 == b[1] && v / 0x1_0000 % 0x100 == b[2] && v / 0x100_0000 == b[3]
  }

  predicate PowerOfTwoByte(c: nat) {
    c == 1 || c == 2 || c == 4 || c == 8 || c == 16 || c == 32 || c == 64 || c == 128
  }

  function MaxClusters(t: FatType): nat {
    match t
    case Fat12 => MAX_FAT12
    case Fat16 => MAX_FAT16
    case Fat32 => MAX_FAT32
  }

  /** Section "FAT Type Determination" of the Microsoft FAT32 File System Specification: the count of clusters alone
      decides. */
  function MinClusters(t: FatType): nat {
    match t
    case Fat12 => 1
    case Fat16 => MAX_FAT12 + 1
    case Fat32 => MAX_FAT16 + 1
  }

  /** The first byte of FAT entry `c`, and one past its last byte. */
  function EntryStart(t: FatType, c: nat): nat {
    match t
    case Fat12 => c + c / 2
    case Fat16 => 2 * c
    case Fat32 => 4 * c
  }

  function EntryEnd(t: FatType, c: nat): nat {
    EntryStart(t, c) + if t == Fat32 then 4 else 2
  }

  datatype Geometry = Geometry(
    fsType: FatType, nFats: nat, csize: nat, nRootDir: nat, fsize: nat, nFatent: nat,
    volbase: nat, fatbase: nat, dirbase: nat, database: nat)
  {
    /** The regions of the volume lie in order, without overlap, below LBA 2^32, and the FAT holds every entry. */
    ghost predicate Layout() {
      && (nFats == 1 || nFats == 2)
      && PowerOfTwoByte(csize)
      && 3 <= nFatent <= MaxClusters(fsType) + 2
      && EntryEnd(fsType, nFatent - 1) <= fsize * SECTOR_SIZE
      && volbase < fatbase
      && fatbase + (if nFats == 1 then fsize else 2 * fsize) <= database
      && End() <= TWO_32
    }

    /** One past the last data sector. */
    function End(): nat {
      database + Span(csize, if nFatent < 2 then 0 else nFatent - 2)
    }

    ghost predicate InFat1(s: int) { fatbase <= s < fatbase + fsize }

    ghost predicate InFat2(s: int) { nFats == 2 && fatbase + fsize <= s < fatbase + 2 * fsize }

    /** `clst2sect`: the first sector of a cluster, or 0 when the cluster number is not valid. */
    function ClstToSect(clst: nat): nat {
      var c := (clst - 2) % TWO_32;
      if nFatent < 2 || c >= nFatent - 2 then 0 else (database + Span(csize, c)) % TWO_32
    }
  }

  datatype MountResult = Mounted(geo: Geometry) | NoFilesystem

  /** The FAT part of `mount_volume`: every check and every 32-bit computation of the source. */
  function MountVolume(b: Bpb, bsect: nat): (r: MountResult)
    requires b.InRange() && bsect < TWO_32
  {
    if b.bytsPerSec != SECTOR_SIZE then NoFilesystem
    else if b.numFats != 1 && b.numFats != 2 then NoFilesystem
    else if !PowerOfTwoByte(b.secPerClus) then NoFilesystem
    else if b.rootEntCnt % 16 != 0 then NoFilesystem
    else if b.rsvdSecCnt == 0 then NoFilesystem
    else
      var fasize := Span(b.numFats, b.FatSectors()) % TWO_32;
      var tsect := b.TotalSectors();
      var sysect := (b.rsvdSecCnt + fasize + b.rootEntCnt / 16) % TWO_32;
      if tsect < sysect then NoFilesystem
      else
        var nclst := b.ClustersBehind(sysect);
        if nclst == 0 || nclst > MAX_FAT32 then NoFilesystem
        else
          var fmt := if nclst <= MAX_FAT12 then Fat12 else if nclst <= MAX_FAT16 then Fat16 else Fat32;
          var fatbase := (bsect + b.rsvdSecCnt) % TWO_32;
          if fmt == Fat32 && (b.fsVer32 != 0 || b.rootEntCnt != 0) then NoFilesystem
          else if fmt != Fat32 && b.rootEntCnt == 0 then NoFilesystem
          else if b.FatSectors() < (NeededFatBytes(fmt, nclst + 2) + 511) / SECTOR_SIZE then NoFilesystem
          else
            Mounted(Geometry(fmt, b.numFats, b.secPerClus, b.rootEntCnt, b.FatSectors(), nclst + 2, bsect, fatbase,
                             if fmt == Fat32 then b.rootClus32 else (fatbase + fasize) % TWO_32,
                             (bsect + sysect) % TWO_32))
  }

  /** `szbfat`: the bytes a FAT of `n` entries needs. */
  function NeededFatBytes(t: FatType, n: nat): nat {
    match t
    case Fat12 => n * 3 / 2 + n % 2
    case Fat16 => n * 2
    case Fat32 => n * 4
  }

  /** The last entry of the FAT fits the needed bytes, the half-byte one of FAT12 included. */
  lemma LastEntryFits(t: FatType, n: nat)
    requires n >= 3
    ensures EntryEnd(t, n - 1) <= NeededFatBytes(t, n)
  {
  }

  /** No region of the volume passes the 32-bit LBA limit: what a BPB must satisfy for its mount to be sound. */
  predicate FitsLba(b: Bpb, bsect: nat) {
    && b.SystemSectors() < TWO_32
    && bsect + b.SystemSectors() + Span(b.secPerClus, b.ClustersBehind(b.SystemSectors())) <= TWO_32
  }

  lemma SectorsRoundUp(bytes: nat, sectors: nat)
    requires (bytes + 511) / SECTOR_SIZE <= sectors
    ensures bytes <= sectors * SECTOR_SIZE
  {
  }

  /** Multiplication by the number of FATs, which is 1 or 2. */
  lemma FatArea(b: Bpb)
    requires b.numFats == 1 || b.numFats == 2
    ensures Span(b.numFats, b.FatSectors()) == if b.numFats == 1 then b.FatSectors() else 2 * b.FatSectors()
  {
  }

  /** What the checks of `MountVolume` leave about a mounted volume. */
  lemma MountFacts(b: Bpb, bsect: nat)
    requires b.InRange() && bsect < TWO_32
    requires MountVolume(b, bsect).Mounted?
    ensures var g := MountVolume(b, bsect).geo;
            && g.nFats == b.numFats && (g.nFats == 1 || g.nFats == 2)
            && (if g.nFats == 1 then g.fsize else 2 * g.fsize) == Span(b.numFats, b.FatSectors())
            && PowerOfTwoByte(g.csize) && MinClusters(g.fsType) <= g.nFatent - 2 <= MaxClusters(g.fsType)
            && EntryEnd(g.fsType, g.nFatent - 1) <= g.fsize * SECTOR_SIZE
            && b.rsvdSecCnt > 0 && g.volbase == bsect && g.csize == b.secPerClus
  {
    var g := MountVolume(b, bsect).geo;
    FatArea(b);
    LastEntryFits(g.fsType, g.nFatent);
    SectorsRoundUp(NeededFatBytes(g.fsType, g.nFatent), g.fsize);
  }

  /** What it is for `g` to be the volume of a parameter block, in sectors and clusters. Sums are cut to 32 bits. */
  ghost predicate Describes(b: Bpb, bsect: nat, g: Geometry) {
    var fat := if b.fatSz16 == 0 then b.fatSz32 else b.fatSz16;
    var total := if b.totSec16 == 0 then b.totSec32 else b.totSec16;
    var system := (b.rsvdSecCnt + Span(b.numFats, fat) + b.rootEntCnt / 16) % TWO_32;
    && b.bytsPerSec == 512 && b.numFats in {1, 2} && b.secPerClus in {1, 2, 4, 8, 16, 32, 64, 128}
    && b.rsvdSecCnt > 0 && b.rootEntCnt % 16 == 0
    && g.nFats == b.numFats && g.csize == b.secPerClus && g.nRootDir == b.rootEntCnt && g.fsize == fat
    && g.volbase == bsect && g.fatbase == (bsect + b.rsvdSecCnt) % TWO_32 && g.database == (bsect + system) % TWO_32
    && g.nFatent >= 3
    && system + Span(b.secPerClus, g.nFatent - 2) <= total < system + Span(b.secPerClus, g.nFatent - 1)
    && match g.fsType
       case Fat12 =>
         && g.nFatent - 2 <= 0xFF5 && b.rootEntCnt > 0 && 3 * g.nFatent <= 2 * (512 * fat)
         && g.dirbase == (bsect + b.rsvdSecCnt + Span(b.numFats, fat)) % TWO_32
       case Fat16 =>
         && 0xFF5 < g.nFatent - 2 <= 0xFFF5 && b.rootEntCnt > 0 && 2 * g.nFatent <= 512 * fat
         && g.dirbase == (bsect + b.rsvdSecCnt + Span(b.numFats, fat)) % TWO_32
       case Fat32 =>
         && 0xFFF5 < g.nFatent - 2 <= 0x0FFF_FFF5 && b.rootEntCnt == 0 && b.fsVer32 == 0
         && 4 * g.nFatent <= 512 * fat && g.dirbase == b.rootClus32
  }

  /** The checks and the computations of `MountVolume`, one after the other. */
  ghost predicate Checked(b: Bpb, bsect: nat, g: Geometry, fats: nat, system: nat, n: nat, needed: nat) {
    && b.bytsPerSec == SECTOR_SIZE && (b.numFats == 1 || b.numFats == 2) && PowerOfTwoByte(b.secPerClus)
    && b.rootEntCnt % 16 == 0 && b.rsvdSecCnt > 0 && system <= b.TotalSectors() && 0 < n
    && g.nFats == b.numFats && g.csize == b.secPerClus && g.nRootDir == b.rootEntCnt && g.fsize == b.FatSectors()
    && g.nFatent == n + 2 && g.volbase == bsect && g.fatbase == (bsect + b.rsvdSecCnt) % TWO_32
    && g.database == (bsect + system) % TWO_32
    && (match g.fsType
        case Fat12 => n <= MAX_FAT12 && b.rootEntCnt > 0 && g.dirbase == (g.fatbase + fats) % TWO_32
        case Fat16 => MAX_FAT12 < n <= MAX_FAT16 && b.rootEntCnt > 0 && g.dirbase == (g.fatbase + fats) % TWO_32
        case Fat32 =>
          MAX_FAT16 < n <= MAX_FAT32 && b.rootEntCnt == 0 && b.fsVer32 == 0 && g.dirbase == b.rootClus32)
    && needed <= b.FatSectors()
  }

  /** The FAT area of `MountVolume`, and the system sectors, in 32 bits. */
  function FatAreaCut(b: Bpb): nat { Span(b.numFats, b.FatSectors()) % TWO_32 }

  function SystemCut(b: Bpb): nat { (b.rsvdSecCnt + FatAreaCut(b) + b.rootEntCnt / 16) % TWO_32 }

  function FatNeeded(g: Geometry): nat { SectorsNeeded(NeededFatBytes(g.fsType, g.nFatent)) }

  lemma MountChecks(b: Bpb, bsect: nat, g: Geometry)
    requires b.InRange() && bsect < TWO_32
    ensures MountVolume(b, bsect) == Mounted(g)
       <==> Checked(b, bsect, g, FatAreaCut(b), SystemCut(b), b.ClustersBehind(SystemCut(b)), FatNeeded(g))
  {
    hide Span, Bpb.InRange, Bpb.FatSectors, Bpb.TotalSectors, Bpb.ClustersBehind, NeededFatBytes, PowerOfTwoByte;
  }

  /** A boot sector mounts exactly if its fields describe a volume, and then to that volume. */
  lemma MountsIff(b: Bpb, bsect: nat, g: Geometry)
    requires b.InRange() && bsect < TWO_32
    ensures MountVolume(b, bsect) == Mounted(g) <==> Describes(b, bsect, g)
  {
    hide MountVolume, NeededFatBytes, FatNeeded, SystemCut, FatAreaCut, Bpb.ClustersBehind, Bpb.InRange, Span;
    MountChecks(b, bsect, g);
    CutSums(b, bsect);
    NeededSectors(g, b.FatSectors());
    if b.secPerClus > 0 && SystemCut(b) <= b.TotalSectors() && g.nFatent >= 2 {
      ClustersAre(b, SystemCut(b), g.nFatent - 2);
    }
  }

  lemma ClustersAre(b: Bpb, system: nat, n: nat)
    requires b.secPerClus > 0 && system <= b.TotalSectors()
    ensures n == b.ClustersBehind(system)
       <==> system + Span(b.secPerClus, n) <= b.TotalSectors() < system + Span(b.secPerClus, n + 1)
  {
    hide Bpb.TotalSectors;
    Quotient(b.TotalSectors() - system, b.secPerClus, n);
    assert Span(b.secPerClus, n) == n * b.secPerClus && Span(b.secPerClus, n + 1) == (n + 1) * b.secPerClus;
  }

  /** The FAT holds `n` entries of 12, 16 or 32 bits. */
  lemma NeededSectors(g: Geometry, sectors: nat)
    ensures FatNeeded(g) <= sectors
       <==> match g.fsType
            case Fat12 => 3 * g.nFatent <= 2 * (512 * sectors)
            case Fat16 => 2 * g.nFatent <= 512 * sectors
            case Fat32 => 4 * g.nFatent <= 512 * sectors
  {
    var bytes := NeededFatBytes(g.fsType, g.nFatent);
    assert g.fsType == Fat12 ==> 2 * bytes == 3 * g.nFatent + g.nFatent % 2;
    hide NeededFatBytes, SectorsNeeded;
    SectorsRounded(bytes, sectors);
  }

  function SectorsNeeded(bytes: nat): nat { (bytes + 511) / SECTOR_SIZE }

  lemma SectorsRounded(bytes: nat, sectors: nat)
    ensures SectorsNeeded(bytes) <= sectors <==> bytes <= 512 * sectors
  {
  }

  lemma CutSums(b: Bpb, bsect: nat)
    ensures SystemCut(b) == (b.rsvdSecCnt + Span(b.numFats, b.FatSectors()) + b.rootEntCnt / 16) % TWO_32
    ensures ((bsect + b.rsvdSecCnt) % TWO_32 + FatAreaCut(b)) % TWO_32
         == (bsect + b.rsvdSecCnt + Span(b.numFats, b.FatSectors())) % TWO_32
  {
    hide Bpb.FatSectors, Span;
    SumsCut(bsect, b.rsvdSecCnt, Span(b.numFats, b.FatSectors()), b.rootEntCnt / 16);
  }

  /** Cutting a part of a sum to 32 bits does not matter. */
  lemma SumsCut(bsect: nat, rsvd: nat, fats: nat, root: nat)
    ensures (rsvd + fats % TWO_32 + root) % TWO_32 == (rsvd + fats + root) % TWO_32
    ensures ((bsect + rsvd) % TWO_32 + fats % TWO_32) % TWO_32 == (bsect + rsvd + fats) % TWO_32
  {
    CutOne(rsvd + root, fats);
    CutOne(fats % TWO_32, bsect + rsvd);
    CutOne(bsect + rsvd, fats);
  }

  lemma CutOne(x: nat, y: nat)
    ensures (x + y % TWO_32) % TWO_32 == (x + y) % TWO_32
  {
    var r := x + y % TWO_32;
    assert x + y == r + TWO_32 * (y / TWO_32);
    assert (r + TWO_32 * (y / TWO_32)) % TWO_32 == r % TWO_32;
  }

  lemma Quotient(a: nat, c: nat, n: nat)
    requires c > 0
    ensures n == a / c <==> n * c <= a < (n + 1) * c
  {
    var q := a / c;
    assert q * c <= a < (q + 1) * c;
    if n < q {
      assert (n + 1) * c <= q * c;
    } else if n > q {
      assert (q + 1) * c <= n * c;
    }
  }

  /** The computed sector numbers of a mounted volume. */
  lemma MountSectors(b: Bpb, bsect: nat)
    requires b.InRange() && bsect < TWO_32
    requires MountVolume(b, bsect).Mounted?
    ensures var g := MountVolume(b, bsect).geo;
            var sysect := (b.rsvdSecCnt + Span(b.numFats, b.FatSectors()) % TWO_32 + b.rootEntCnt / 16) % TWO_32;
            && b.secPerClus > 0 && sysect <= b.TotalSectors()
            && g.nFatent - 2 == b.ClustersBehind(sysect) >= 1
            && g.fatbase == (bsect + b.rsvdSecCnt) % TWO_32 && g.database == (bsect + sysect) % TWO_32
  {
  }

  lemma SystemSum(bsect: nat, rsvd: nat, fat: nat, root: nat)
    requires bsect < TWO_32 && 0 < rsvd < 0x1_0000 && root < 0x1000
    requires fat < TWO_32 * 2
    ensures rsvd + fat + root < TWO_32 ==> (rsvd + fat % TWO_32 + root) % TWO_32 == rsvd + fat + root
    ensures bsect < (bsect + rsvd) % TWO_32 &&
            (bsect + rsvd) % TWO_32 + fat <= (bsect + (rsvd + fat % TWO_32 + root) % TWO_32) % TWO_32
            ==> bsect + rsvd + fat + root < TWO_32
  {
    assert (bsect + rsvd) % TWO_32 == if bsect + rsvd < TWO_32 then bsect + rsvd else bsect + rsvd - TWO_32;
    assert fat % TWO_32 == if fat < TWO_32 then fat else fat - TWO_32;
  }

  lemma SpanBounds(b: Bpb, sysect: nat)
    requires b.secPerClus > 0 && sysect <= b.TotalSectors()
    ensures Span(b.secPerClus, b.ClustersBehind(sysect)) <= b.TotalSectors() - sysect
    ensures b.ClustersBehind(sysect) >= 1 ==> Span(b.secPerClus, b.ClustersBehind(sysect)) >= 1
  {
    var n := b.ClustersBehind(sysect);
    if n >= 1 {
      assert b.secPerClus * n == b.secPerClus + b.secPerClus * (n - 1);
    }
  }

  lemma SoundWhenFits(b: Bpb, bsect: nat)
    requires b.InRange() && bsect < TWO_32
    requires MountVolume(b, bsect).Mounted? && FitsLba(b, bsect)
    ensures MountVolume(b, bsect).geo.Layout()
    ensures MountVolume(b, bsect).geo.End() <= bsect + b.TotalSectors()
  {
    hide MountVolume, Span, EntryEnd, MaxClusters, PowerOfTwoByte, Bpb.ClustersBehind, Bpb.TotalSectors, Bpb.FatSectors;
    MountFacts(b, bsect);
    MountSectors(b, bsect);
    FatArea(b);
    SystemSum(bsect, b.rsvdSecCnt, Span(b.numFats, b.FatSectors()), b.rootEntCnt / 16);
    SpanBounds(b, b.SystemSectors());
    assert MountVolume(b, bsect).geo.database == bsect + b.SystemSectors();
  }

  lemma FitsWhenSound(b: Bpb, bsect: nat)
    requires b.InRange() && bsect < TWO_32
    requires MountVolume(b, bsect).Mounted? && MountVolume(b, bsect).geo.Layout()
    ensures FitsLba(b, bsect)
  {
    hide MountVolume, Span, EntryEnd, MaxClusters, PowerOfTwoByte, Bpb.ClustersBehind, Bpb.TotalSectors, Bpb.FatSectors;
    MountFacts(b, bsect);
    MountSectors(b, bsect);
    FatArea(b);
    SystemSum(bsect, b.rsvdSecCnt, Span(b.numFats, b.FatSectors()), b.rootEntCnt / 16);
    assert MountVolume(b, bsect).geo.database == bsect + b.SystemSectors();
  }

  /** A mounted volume has a sound layout exactly when its parameter block stays below LBA 2^32. */
  lemma MountLayout(b: Bpb, bsect: nat)
    requires b.InRange() && bsect < TWO_32
    requires MountVolume(b, bsect).Mounted?
    ensures MountVolume(b, bsect).geo.Layout() <==> FitsLba(b, bsect)
    ensures FitsLba(b, bsect) ==> MountVolume(b, bsect).geo.End() <= bsect + b.TotalSectors()
  {
    if MountVolume(b, bsect).geo.Layout() {
      FitsWhenSound(b, bsect);
    }
    if FitsLba(b, bsect) {
      SoundWhenFits(b, bsect);
    }
  }

  /** A parameter block whose two FATs wrap the 32-bit FAT area: it mounts, with its data area on top of its FATs. */
  lemma WrappingMountExample()
    ensures var b := Bpb(512, 1, 1, 2, 16, 5000, 0, 0, 0x8000_0000, 0, 0);
            MountVolume(b, 0).Mounted? && MountVolume(b, 0).geo.database < MountVolume(b, 0).geo.fatbase + 2
            && !FitsLba(b, 0)
  {
  }
}
