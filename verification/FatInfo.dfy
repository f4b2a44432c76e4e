/** The FSInfo sector of a FAT32 volume: the free count and the last cluster allocated, across a sync and the next
    mount. */
module FatInfo {
  import opened Bytes
  import opened FatAllocator
  import opened FatChains
  import opened FatDisk
  import opened FatEntry
  import opened FatGeometry
  import opened FatRuns
  import opened FatVolume

  const LEAD := 0x4161_5252
  const STRUC := 0x6141_7272
  const BOOT := 0xAA55
  const UNKNOWN := 0xFFFF_FFFF

  predicate Signed(s: Sector) { LdWord(s, 510) == BOOT && LdDword(s, 0) == LEAD && LdDword(s, 484) == STRUC }

  function FreeCount(s: Sector): (n: nat)
    ensures n < TWO_32
  {
    LdDword(s, 488)
  }

  function NextFree(s: Sector): (n: nat)
    ensures n < TWO_32
  {
    LdDword(s, 492)
  }

  /** The sector that a sync stores. */
  function InfoSector(free: nat, last: nat): (s: Sector)
  {
    var zeros: Sector := seq(512, i => 0);
    var signed := Splice(Splice(Splice(zeros, 510, StWord(BOOT)), 0, StDword(LEAD)), 484, StDword(STRUC));
    Splice(Splice(signed, 488, StDword(free)), 492, StDword(last))
  }

  /** A dword of a sector after another stretch of it was stored. */
  lemma DwordApart(s: seq<byte>, at: nat, x: seq<byte>, p: nat)
    requires at + |x| <= |s| && p + 4 <= |s| && (p + 4 <= at || at + |x| <= p)
    ensures LdDword(Splice(s, at, x), p) == LdDword(s, p)
  {
  }

  /** The signatures byte by byte: section "FSInfo Sector Structure" of the Microsoft FAT32 File System Specification. */
  lemma SignatureBytes(s: Sector)
    ensures Signed(s) <==> s[0..4] == [0x52, 0x52, 0x61, 0x41] && s[484..488] == [0x72, 0x72, 0x41, 0x61]
                           && s[510..512] == [0x55, 0xAA]
  {
    LoadedBytes(s, 0);
    LoadedBytes(s, 484);
    hide LdDword;
  }

  /** The other fields of the FSInfo sector, its zeros, and the field of the boot sector that says where it is. */
  lemma InfoBytes(s: Sector, free: nat, last: nat)
    requires free < TWO_32 && last < TWO_32
    ensures DwordIs(FreeCount(s), s[488..492]) && DwordIs(NextFree(s), s[492..496])
    ensures FsInfo32(s) % 0x100 == s[48] && FsInfo32(s) / 0x100 == s[49]
    ensures forall i :: 4 <= i < 484 || 496 <= i < 510 ==> InfoSector(free, last)[i] == 0
  {
    LoadedBytes(s, 48);
    LoadedBytes(s, 488);
    LoadedBytes(s, 492);
    hide LdDword, LdWord, Splice;
  }

  /** What a sync stores is what the next mount loads. */
  lemma InfoRoundTrip(free: nat, last: nat)
    requires free < TWO_32 && last < TWO_32
    ensures Signed(InfoSector(free, last))
    ensures FreeCount(InfoSector(free, last)) == free && NextFree(InfoSector(free, last)) == last
  {
    hide LdDword, StDword;
    var z: Sector := seq(512, i => 0);
    var a := Splice(z, 510, StWord(BOOT));
    var b := Splice(a, 0, StDword(LEAD));
    var c := Splice(b, 484, StDword(STRUC));
    var d := Splice(c, 488, StDword(free));
    var e := Splice(d, 492, StDword(last));
    DwordRoundTrip(a, 0, LEAD);
    DwordRoundTrip(b, 484, STRUC);
    DwordRoundTrip(c, 488, free);
    DwordRoundTrip(d, 492, last);
    DwordApart(b, 484, StDword(STRUC), 0);
    DwordApart(c, 488, StDword(free), 0);
    DwordApart(d, 492, StDword(last), 0);
    DwordApart(c, 488, StDword(free), 484);
    DwordApart(d, 492, StDword(last), 484);
    DwordApart(d, 492, StDword(last), 488);
    assert e[510] == 0x55 && e[511] == 0xAA;
  }

  /** The numbers a mount takes from the sector. */
  function Loaded(s: Sector): (nat, nat) { if Signed(s) then (FreeCount(s), NextFree(s)) else (UNKNOWN, UNKNOWN) }

  /** Where FSInfo is, next to the boot sector. */
  function InfoAt(g: Geometry): nat { g.volbase + 1 }

  /** An enabled FSInfo sector that need not be rewritten gives the free count and the last cluster allocated. */
  ghost predicate InfoCurrent(fs: Volume)
    reads fs, fs.win, fs.disk`sectors
    requires fs.Valid()
  {
    fs.geo.fsType == Fat32 && fs.fsiEnabled && !fs.fsiDirty ==>
      (fs.freeClst, fs.lastClst) == Loaded(fs.Logical()[InfoAt(fs.geo)])
  }

  /** Whether a sync writes FSInfo. */
  predicate Rewrites(fs: Volume)
    reads fs`fsiEnabled, fs`fsiDirty
  {
    fs.geo.fsType == Fat32 && fs.fsiEnabled && fs.fsiDirty
  }

  /** Two reserved sectors at least. */
  predicate HasRoom(g: Geometry) { g.fsType == Fat32 ==> InfoAt(g) < g.fatbase }

  /** Allocation and removal keep FSInfo current: they change nothing but the FATs, and mark what they count. Where
      FSInfo is in the FAT this needs the mark. */
  twostate lemma AllocatorKeepsInfo(fs: Volume)
    requires old(fs.Valid()) && fs.Valid() && old(InfoCurrent(fs)) && fs.OnlyFats() && fs.InfoMarked()
    ensures HasRoom(fs.geo) || !fs.fsiEnabled || fs.fsiDirty ==> InfoCurrent(fs)
  {
    hide Volume.Logical, Loaded;
  }

  /** `memset`, or `st_word` and `st_dword`, into the window. */
  method PutBytes(a: array<byte>, at: nat, x: seq<byte>)
    requires at + |x| <= a.Length
    modifies a
    ensures a[..] == Splice(old(a[..]), at, x)
  {
    forall k | 0 <= k < |x| {
      a[at + k] := x[k];
    }
  }

  method FillInfo(win: array<byte>, free: nat, last: nat)
    requires win.Length == 512
    modifies win
    ensures win[..] == InfoSector(free, last)
  {
    hide Splice, StWord, StDword;
    var zeros: Sector := seq(512, i => 0);
    forall k | 0 <= k < 512 {
      win[k] := 0;
    }
    assert win[..] == zeros;
    PutBytes(win, 510, StWord(BOOT));
    PutBytes(win, 0, StDword(LEAD));
    PutBytes(win, 484, StDword(STRUC));
    PutBytes(win, 488, StDword(free));
    PutBytes(win, 492, StDword(last));
  }

  /** Outside the FATs a sector may change without harm to entries and mirror. */
  lemma OutsideFats(g: Geometry, s0: seq<Sector>, s1: seq<Sector>, at: nat)
    requires g.Layout() && g.End() <= |s0| == |s1| && at < g.fatbase
    requires forall i :: 0 <= i < |s0| && i != at ==> s1[i] == s0[i]
    ensures FatEntries(g, s1) == FatEntries(g, s0)
    ensures GoodMirror(g, s0, false, 0) <==> GoodMirror(g, s1, false, 0)
  {
    SameFat(g, s0, s1);
    hide FatEntries;
  }

  lemma BeforeFats(g: Geometry)
    requires g.Layout()
    ensures g.volbase < InfoAt(g) <= g.fatbase < g.End() && !g.InFat2(InfoAt(g)) && !g.InFat2(g.volbase)
    ensures g.fsType == Fat32 ==> (HasRoom(g) <==> !g.InFat1(InfoAt(g)))
  {
  }

  lemma MirrorLeavesFat(g: Geometry, s0: seq<Sector>, s1: seq<Sector>)
    requires g.Layout() && g.End() <= |s0| && SameButMirror(g, s0, s1)
    ensures FatEntries(g, s1) == FatEntries(g, s0)
    ensures s1[InfoAt(g)] == s0[InfoAt(g)]
  {
    SameFat(g, s0, s1);
    hide FatEntries;
  }

  lemma MirrorAnywhere(g: Geometry, secs: seq<Sector>, a: nat, b: nat)
    requires g.Layout() && g.End() <= |secs|
    ensures GoodMirror(g, secs, false, a) == GoodMirror(g, secs, false, b)
  {
  }

  /** The sectors after a sync, apart from the mirror. */
  function Synced(g: Geometry, secs: seq<Sector>, rewrite: bool, free: nat, last: nat): (r: seq<Sector>)
    requires InfoAt(g) < |secs|
    ensures |r| == |secs|
  {
    if rewrite then secs[InfoAt(g) := InfoSector(free, last)] else secs
  }

  /** With one reserved sector only, FSInfo is the first sector of the FAT, and there it says that cluster 2 is free. */
  lemma OneReservedSector(g: Geometry, secs: seq<Sector>, free: nat, last: nat)
    requires g.Layout() && g.End() <= |secs| && g.fsType == Fat32 && !HasRoom(g)
    ensures InfoAt(g) < |secs| && FatEntries(g, Synced(g, secs, true, free, last))[2] == 0
  {
    hide StDword, StWord;
    BeforeFats(g);
    EntryFits(g, 2);
    var s, l := InfoSector(free, last), Synced(g, secs, true, free, last);
    assert s[8] == 0 && s[9] == 0 && s[10] == 0 && s[11] == 0;
    var b := FatBytes(g, l);
    assert b[8] == s[8] && b[9] == s[9] && b[10] == s[10] && b[11] == s[11];
  }

  /** A sync keeps the FAT if it does not rewrite FSInfo or if there are two reserved sectors; otherwise it frees
      cluster 2. */
  lemma SyncedEntries(g: Geometry, secs: seq<Sector>, rewrite: bool, free: nat, last: nat)
    requires g.Layout() && g.End() <= |secs| && (rewrite ==> g.fsType == Fat32)
    ensures InfoAt(g) < |secs|
    ensures !rewrite || HasRoom(g) ==> FatEntries(g, Synced(g, secs, rewrite, free, last)) == FatEntries(g, secs)
    ensures FatEntries(g, Synced(g, secs, rewrite, free, last))[2] == FatEntries(g, secs)[2]
       <==> !rewrite || HasRoom(g) || FatEntries(g, secs)[2] == 0
  {
    hide InfoSector, FatEntries;
    BeforeFats(g);
    if rewrite {
      if HasRoom(g) {
        OutsideFats(g, secs, Synced(g, secs, rewrite, free, last), InfoAt(g));
      } else {
        OneReservedSector(g, secs, free, last);
      }
    }
  }

  /** The FSInfo write of `sync_fs`, whose failure goes unnoticed. */
  method WriteInfo(fs: Volume)
    requires fs.Valid() && !fs.wflag && fs.geo.fsType == Fat32 && fs.freeClst < TWO_32 && fs.lastClst < TWO_32
    modifies fs`winsect, fs`fsiDirty, fs.win, fs.disk
    ensures !fs.fsiDirty && fs.disk.faults >= old(fs.disk.faults) && |fs.disk.sectors| == |old(fs.disk.sectors)|
    ensures forall i :: 0 <= i < |fs.disk.sectors| && i != InfoAt(fs.geo) ==>
              fs.disk.sectors[i] == old(fs.disk.sectors)[i]
    ensures HasRoom(fs.geo) || fs.disk.faults == old(fs.disk.faults) ==> fs.Valid()
    ensures HasRoom(fs.geo) ==> fs.Entries() == old(fs.Entries()) && (fs.Mirrored() <==> old(fs.Mirrored()))
    ensures fs.disk.faults == old(fs.disk.faults) ==>
              && InfoCurrent(fs) && InfoAt(fs.geo) < |fs.disk.sectors|
              && fs.disk.sectors == Synced(fs.geo, old(fs.disk.sectors), true, fs.freeClst, fs.lastClst)
  {
    hide InfoSector, Signed, FreeCount, NextFree, FatEntries, GoodMirror, Geometry.Layout;
    ghost var secs := fs.disk.sectors;
    FillInfo(fs.win, fs.freeClst, fs.lastClst);
    fs.winsect := fs.geo.volbase + 1;
    BeforeFats(fs.geo);
    var ok := fs.disk.Write(fs.winsect, fs.win[..]);
    fs.fsiDirty := false;
    if ok {
      WriteOneSector(secs, fs.winsect, fs.win[..]);
      InfoRoundTrip(fs.freeClst, fs.lastClst);
    }
    if HasRoom(fs.geo) {
      OutsideFats(fs.geo, secs, fs.disk.sectors, fs.winsect);
      MirrorAnywhere(fs.geo, secs, old(fs.winsect), 0);
      MirrorAnywhere(fs.geo, fs.disk.sectors, fs.winsect, 0);
    }
  }

  /** What `sync_fs` makes of a volume when no transfer fails: entry 2 of the FAT stays exactly if FSInfo is not
      rewritten, or has a reserved sector of its own, or the entry was 0; all of the FAT stays in the first two
      cases. */
  ghost predicate SyncOutcome(g: Geometry, secs: seq<Sector>, rewrite: bool, free: nat, last: nat, fat: seq<nat>,
                              fat1: seq<nat>)
    requires g.Layout() && g.End() <= |secs| && |fat| == |fat1| == g.nFatent
  {
    && InfoAt(g) < |secs| && fat1 == FatEntries(g, Synced(g, secs, rewrite, free, last))
    && (!rewrite || HasRoom(g) ==> fat1 == fat)
    && (fat1[2] == fat[2] <==> !rewrite || HasRoom(g) || fat[2] == 0)
  }

  /** `sync_fs`. */
  method SyncFs(fs: Volume) returns (res: FResult)
    requires fs.Valid() && fs.freeClst < TWO_32 && fs.lastClst < TWO_32
    modifies fs`wflag, fs`winsect, fs`fsiDirty, fs.win, fs.disk
    ensures fs.disk.faults >= old(fs.disk.faults) && |fs.disk.sectors| == |old(fs.disk.sectors)|
    ensures res == FrOk ==> !fs.wflag && !Rewrites(fs)
    ensures res == FrOk ==> forall i :: 0 <= i < |fs.disk.sectors| && !fs.geo.InFat2(i) && i != InfoAt(fs.geo) ==>
                              fs.disk.sectors[i] == old(fs.Logical())[i]
    ensures HasRoom(fs.geo) || !old(Rewrites(fs)) || fs.disk.faults == old(fs.disk.faults) ==> fs.Valid()
    ensures HasRoom(fs.geo) || !old(Rewrites(fs)) ==> fs.Entries() == old(fs.Entries())
    ensures fs.disk.faults == old(fs.disk.faults) ==>
              && res == FrOk && (old(InfoCurrent(fs)) ==> InfoCurrent(fs))
              && SyncOutcome(fs.geo, old(fs.Logical()), old(Rewrites(fs)), fs.freeClst, fs.lastClst, old(fs.Entries()),
                             fs.Entries())
              && (old(fs.Mirrored()) && (HasRoom(fs.geo) || !old(Rewrites(fs))) ==> fs.Mirrored())
  {
    hide Signed, FreeCount, NextFree, FatEntries, Geometry.Layout, GoodMirror, Synced;
    ghost var secs, rewrite := fs.Logical(), Rewrites(fs);
    BeforeFats(fs.geo);
    SyncedEntries(fs.geo, secs, rewrite, fs.freeClst, fs.lastClst);
    res := fs.SyncWindow();
    MirrorLeavesFat(fs.geo, secs, fs.Logical());
    if res == FrOk {
      ghost var secs1 := fs.disk.sectors;
      if fs.geo.fsType == Fat32 && fs.fsiEnabled && fs.fsiDirty {
        WriteInfo(fs);
      }
      SyncedMirror(fs.geo, secs, secs1, rewrite, fs.freeClst, fs.lastClst);
    }
  }

  lemma SyncedMirror(g: Geometry, s0: seq<Sector>, s1: seq<Sector>, rewrite: bool, free: nat, last: nat)
    requires g.Layout() && g.End() <= |s0| && SameButMirror(g, s0, s1)
    ensures InfoAt(g) < |s0| == |s1|
    ensures FatEntries(g, Synced(g, s1, rewrite, free, last)) == FatEntries(g, Synced(g, s0, rewrite, free, last))
  {
    hide InfoSector;
    BeforeFats(g);
    SameFat(g, Synced(g, s0, rewrite, free, last), Synced(g, s1, rewrite, free, last));
    hide FatEntries;
  }

  /** The end of `mount_volume`: the free count and the last cluster allocated, from FSInfo if the volume has a signed
      one. */
  method LoadInfo(fs: Volume, fsInfo32: nat)
    requires fs.Valid() && !fs.wflag && fs.winsect != InfoAt(fs.geo)
    modifies fs, fs.win, fs.disk
    ensures fs.Valid() && !fs.wflag && fs.disk.sectors == old(fs.disk.sectors) && fs.disk.faults >= old(fs.disk.faults)
    ensures !fs.fsiDirty && fs.freeClst < TWO_32 && fs.lastClst < TWO_32
    ensures fs.fsiEnabled ==> fs.geo.fsType == Fat32 && fsInfo32 == 1
    ensures InfoCurrent(fs) && (!fs.fsiEnabled ==> fs.freeClst == UNKNOWN && fs.lastClst == UNKNOWN)
    ensures fs.disk.faults == old(fs.disk.faults) ==> (fs.fsiEnabled <==> fs.geo.fsType == Fat32 && fsInfo32 == 1)
  {
    hide LdWord, LdDword, GoodMirror, Geometry.Layout, FatEntries, Overlay;
    BeforeFats(fs.geo);
    fs.lastClst, fs.freeClst := UNKNOWN, UNKNOWN;
    fs.fsiDirty, fs.fsiEnabled := false, false;
    if fs.geo.fsType == Fat32 && fsInfo32 == 1 {
      var res := fs.MoveWindow(fs.geo.volbase + 1);
      if res == FrOk {
        fs.fsiEnabled := true;
        var s: Sector := fs.win[..];
        if LdWord(s, 510) == BOOT && LdDword(s, 0) == LEAD && LdDword(s, 484) == STRUC {
          fs.freeClst := LdDword(s, 488);
          fs.lastClst := LdDword(s, 492);
        }
      }
    }
  }

  datatype MountCode = MountOk | MountDiskError | MountNoFilesystem

  /** A volume whose boot sector is at `bsect`, if it has one, has a sound layout and ends within the device. */
  ghost predicate FitsDevice(secs: seq<Sector>, bsect: nat) {
    && bsect < |secs| <= NO_SECTOR
    && match MountVolume(ParseBpb(secs[bsect]), bsect)
       case NoFilesystem => true
       case Mounted(g) => g.Layout() && g.End() <= |secs|
  }

  /** The FSInfo field of a boot sector. */
  function FsInfo32(boot: Sector): nat { LdWord(boot, 48) }

  /** `mount_volume`, from the boot sector on. */
  method Mount(disk: Disk, bsect: nat) returns (fs: Volume?, code: MountCode)
    requires FitsDevice(disk.sectors, bsect)
    modifies disk
    ensures disk.sectors == old(disk.sectors) && disk.faults >= old(disk.faults) && (fs == null <==> code != MountOk)
    ensures code == MountDiskError ==> disk.faults > old(disk.faults)
    ensures code == MountNoFilesystem ==> MountVolume(ParseBpb(disk.sectors[bsect]), bsect) == NoFilesystem
    ensures fs != null ==>
              && fresh(fs) && fresh(fs.win) && fs.disk == disk
              && MountVolume(ParseBpb(disk.sectors[bsect]), bsect) == Mounted(fs.geo)
              && fs.Valid() && !fs.wflag && fs.Logical() == disk.sectors && InfoCurrent(fs)
              && !fs.fsiDirty && fs.freeClst < TWO_32 && fs.lastClst < TWO_32
              && (fs.fsiEnabled ==> fs.geo.fsType == Fat32 && FsInfo32(disk.sectors[bsect]) == 1)
              && (!fs.fsiEnabled ==> fs.freeClst == UNKNOWN && fs.lastClst == UNKNOWN)
    ensures disk.faults == old(disk.faults) ==> code != MountDiskError
    ensures disk.faults == old(disk.faults) && fs != null ==>
              (fs.fsiEnabled <==> fs.geo.fsType == Fat32 && FsInfo32(disk.sectors[bsect]) == 1)
  {
    hide ParseBpb, MountVolume, Geometry.Layout, LdWord, Loaded;
    var buf := new byte[512];
    var ok := disk.Read(bsect, 1, buf, 0);
    if !ok {
      return null, MountDiskError;
    }
    var boot: Sector := buf[..];
    assert boot == disk.sectors[bsect] by {
      forall k | 0 <= k < 512
        ensures boot[k] == disk.sectors[bsect][k]
      {
        assert buf[0 + k] == disk.sectors[bsect + k / SECTOR_SIZE][k % SECTOR_SIZE];
      }
    }
    match MountVolume(ParseBpb(boot), bsect) {
      case NoFilesystem => return null, MountNoFilesystem;
      case Mounted(geo) =>
        fs := new Volume(geo, disk, UNKNOWN, UNKNOWN);
        MountFacts(ParseBpb(boot), bsect);
        BeforeFats(geo);
        forall k | 0 <= k < 512 {
          fs.win[k] := buf[k];
        }
        fs.winsect := bsect;
        LoadInfo(fs, FsInfo32(boot));
        CleanWindow(fs);
        return fs, MountOk;
    }
  }

  lemma CleanWindow(fs: Volume)
    requires fs.Valid() && !fs.wflag
    ensures fs.Logical() == fs.disk.sectors
  {
  }

  /** An unknown count is never wrong. */
  lemma UnknownCount(fs: Volume)
    requires fs.Valid()
    ensures CountExact(fs.Entries(), UNKNOWN)
  {
    hide CountFree;
    FatentBounds(fs.geo);
  }

  /** The boot sector of the volume is the one it was mounted from. */
  ghost predicate HasBoot(fs: Volume)
    reads fs, fs.win, fs.disk`sectors
    requires fs.Valid()
  {
    var boot := fs.Logical()[fs.geo.volbase];
    && MountVolume(ParseBpb(boot), fs.geo.volbase) == Mounted(fs.geo)
    && (fs.fsiEnabled <==> fs.geo.fsType == Fat32 && FsInfo32(boot) == 1)
  }

  /** A sync, and a mount of the same disk: without a fault the volume comes back with the FAT that the sync leaves,
      which is the old one unless FSInfo was rewritten without a reserved sector of its own, and with an exact count of
      it. */
  method SyncThenMount(fs: Volume) returns (fs1: Volume?)
    requires fs.Valid() && fs.freeClst < TWO_32 && fs.lastClst < TWO_32 && HasBoot(fs)
    requires InfoCurrent(fs) && CountExact(fs.Entries(), fs.freeClst)
    modifies fs, fs.win, fs.disk
    ensures fs1 != null ==> fs1.Valid() && fresh(fs1) && fs1.geo == fs.geo && fs1.disk == fs.disk && InfoCurrent(fs1)
    ensures fs.disk.faults == old(fs.disk.faults) ==>
              && fs1 != null && (fs1.fsiEnabled <==> old(fs.fsiEnabled))
              && (fs1.fsiEnabled ==> fs1.freeClst == old(fs.freeClst) && fs1.lastClst == old(fs.lastClst))
              && SyncOutcome(fs.geo, old(fs.Logical()), old(Rewrites(fs)), old(fs.freeClst), old(fs.lastClst),
                             old(fs.Entries()), fs1.Entries())
              && (HasRoom(fs.geo) || !old(Rewrites(fs)) ==> CountExact(fs1.Entries(), fs1.freeClst))
  {
    hide FatEntries, GoodMirror, Geometry.Layout, CountExact, Volume.Logical, SyncOutcome, MountVolume, ParseBpb,
         LdWord, Loaded, LdDword;
    BeforeFats(fs.geo);
    var res := SyncFs(fs);
    fs1 := null;
    if res == FrOk {
      if fs.disk.faults == old(fs.disk.faults) {
        CleanWindow(fs);
      }
      var code;
      fs1, code := Mount(fs.disk, fs.geo.volbase);
      if fs1 != null {
        UnknownCount(fs1);
      }
    }
  }
}
