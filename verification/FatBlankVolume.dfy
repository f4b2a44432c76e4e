/** A blank volume with a new file on it: a mounted state that every invariant of the file layers holds of. */
module FatBlankVolume {
  import opened Bytes
  import opened FatAllocator
  import opened FatChains
  import opened FatDisk
  import opened FatEntry
  import opened FatFile
  import opened FatFileBytes
  import opened FatFileMap
  import opened FatGeometry
  import opened FatInfo
  import opened FatRuns
  import opened FatVolume

  /** A FAT12 volume of three one-sector clusters, with two FATs and a root directory of one sector each. */
  const GEO := Geometry(Fat12, 2, 1, 16, 1, 5, 0, 1, 3, 4)

  const ZEROS: Sector := seq(512, i => 0)

  /** Its boot sector: 512 bytes a sector, one reserved sector, 16 root entries and 7 sectors in all. */
  const BOOT_SECTOR: Sector :=
    ZEROS[12 := 2][13 := 1][14 := 1][16 := 2][17 := 16][19 := 7][22 := 1]

  const SECTORS: seq<Sector> := [BOOT_SECTOR, ZEROS, ZEROS, ZEROS, ZEROS, ZEROS, ZEROS]

  lemma BlankBpb()
    ensures ParseBpb(BOOT_SECTOR) == Bpb(512, 1, 1, 2, 16, 7, 1, 0, 0, 0, 0)
  {
  }

  /** The boot sector mounts to the geometry. */
  lemma BlankMounts()
    ensures MountVolume(ParseBpb(BOOT_SECTOR), 0) == Mounted(GEO) && GEO.Layout() && GEO.End() == 7
  {
    hide ParseBpb;
    BlankBpb();
    assert Span(2, 1) == 2 && Span(1, 3) == 3;
  }

  /** Zero bytes are free entries. */
  lemma ZeroEntries(secs: seq<Sector>)
    requires secs == SECTORS && GEO.Layout() && GEO.End() == 7
    ensures FatEntries(GEO, secs) == [0, 0, 0, 0, 0]
  {
    var b, fat := FatBytes(GEO, secs), FatEntries(GEO, secs);
    forall c | 0 <= c < 5
      ensures fat[c] == 0
    {
      EntryFits(GEO, c);
      assert secs[1] == ZEROS;
      assert b[c + c / 2] == 0 && b[c + c / 2 + 1] == 0;
    }
  }

  /** A FAT without used entries is the empty set of chains. */
  lemma BlankIsPartition(fat: seq<nat>)
    requires fat == [0, 0, 0, 0, 0]
    ensures Partition(fat, {})
  {
  }

  lemma NoSectors()
    requires GEO.Layout()
    ensures ClustersOk(GEO, []) && FileSectors(GEO, []) == []
  {
    assert Capacity(GEO, 0) == 0;
  }

  /** A mounted blank volume with a new file on it; only a disk fault stops the mount. */
  method NewFile() returns (disk: Disk, f: File?)
    ensures fresh(disk) && (disk.faults == 0 ==> f != null)
    ensures f != null ==>
              && f.fs.disk == disk && fresh(f) && fresh(f.buf) && fresh(f.fs) && fresh(f.fs.win) && f.fs.geo == GEO
              && f.Valid() && f.canRead && f.canWrite && f.err == FrOk && f.fptr == 0 && f.Content() == []
              && f.ch == [] && f.chains == {}
  {
    hide Partition, CountExact, Geometry.Layout, Volume.Logical, MountVolume, ParseBpb, InfoCurrent;
    disk := new Disk(SECTORS);
    BlankMounts();
    NoSectors();
    var fs, code := Mount(disk, 0);
    f := null;
    if fs != null {
      ZeroEntries(disk.sectors);
      BlankIsPartition(fs.Entries());
      UnknownCount(fs);
      f := new File(fs, true, true, 0, 0, [], {});
    }
  }

  /** The only file of the volume has at most the three clusters, and all of them on a full disk. */
  lemma OnlyChain(fat: seq<nat>, chains: set<seq<nat>>, ch: seq<nat>)
    requires |fat| == 5 && Partition(fat, chains) && chains - {ch} == {} && (ch in chains || ch == [])
    ensures |ch| <= 3 && (NoneFree(fat) ==> |ch| == 3)
  {
    hide IsChain;
    if ch in chains {
      ChainIn(fat, chains, ch);
      AtMostThree(fat, chains, ch);
    }
    if NoneFree(fat) {
      AllThree(fat, chains, ch);
    }
  }

  /** Distinct clusters of three. */
  lemma AtMostThree(fat: seq<nat>, chains: set<seq<nat>>, s: seq<nat>)
    requires |fat| == 5 && Partition(fat, chains) && s in chains && NoDuplicates(s)
    ensures |s| <= 3
  {
    forall i | 0 <= i < |s|
      ensures 2 <= s[i] < 5
    {
      UsedInChain(fat, chains, s, s[i]);
    }
    if |s| > 3 {
      FourOfThree(s);
    }
  }

  lemma FourOfThree(s: seq<nat>)
    requires |s| > 3 && forall i :: 0 <= i < |s| ==> 2 <= s[i] < 5
    ensures !NoDuplicates(s)
  {
    assert s[0] == s[1] || s[0] == s[2] || s[0] == s[3] || s[1] == s[2] || s[1] == s[3] || s[2] == s[3];
  }

  lemma AllThree(fat: seq<nat>, chains: set<seq<nat>>, s: seq<nat>)
    requires |fat| == 5 && Partition(fat, chains) && chains - {s} == {} && NoneFree(fat)
    ensures |s| >= 3
  {
    InOnlyChain(fat, chains, s, 2);
    InOnlyChain(fat, chains, s, 3);
    InOnlyChain(fat, chains, s, 4);
    var i :| 0 <= i < |s| && s[i] == 2;
    var j :| 0 <= j < |s| && s[j] == 3;
    var k :| 0 <= k < |s| && s[k] == 4;
  }

  lemma InOnlyChain(fat: seq<nat>, chains: set<seq<nat>>, s: seq<nat>, c: nat)
    requires 2 <= c < |fat| && Partition(fat, chains) && chains - {s} == {} && NoneFree(fat)
    ensures c in s
  {
    assert fat[c] != 0;
    var t :| t in chains && c in t;
    assert t !in chains - {s};
  }

  /** The first bytes written to a new file are the file, as far as the three clusters reach, and are what reading it
      back gives. */
  method FirstWrite(data: seq<byte>, rbuff: array<byte>) returns (f: File?, res: FResult, n: nat)
    requires |data| < TWO_32 && |data| <= rbuff.Length
    modifies rbuff
    ensures res == FrOk ==> f != null && f.Valid() && n == (if |data| < 1536 then |data| else 1536)
    ensures res == FrOk ==> f.Content() == data[..n] && rbuff[..n] == data[..n]
  {
    hide Allocated, Partition, CountExact, NoneFree, Geometry.Layout, Volume.Logical, File.Content, File.View;
    var disk;
    disk, f := NewFile();
    if f == null {
      return f, FrDiskErr, 0;
    }
    res, n := WriteSeekRead(f, data, rbuff);
    if res == FrOk {
      assert Patched([], 0, data[..n]) == data[..n];
      f.CoreChains();
      OnlyChain(f.fs.Entries(), f.chains, f.ch);
      assert |f.Sectors()| == |f.ch|;
    }
  }
}
