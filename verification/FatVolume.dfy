/** The file system object: a one-sector write-back window over the disk, and FAT entries read and written through
    it. */
module FatVolume {
  import opened Bytes
  import opened FatDisk
  import opened FatEntry
  import opened FatGeometry

  const NO_SECTOR := 0xFFFF_FFFF
  const DISK_ERROR := 0xFFFF_FFFF
  const INTERNAL_ERROR := 1

  datatype FResult = FrOk | FrDiskErr | FrIntErr | FrDenied

  /** The bytes of the first FAT on the sectors `secs`. */
  ghost function FatBytes(g: Geometry, secs: seq<Sector>): (b: seq<byte>)
    requires g.Layout() && g.End() <= |secs|
    ensures |b| == g.fsize * SECTOR_SIZE
  {
    seq(g.fsize * SECTOR_SIZE, k requires 0 <= k < g.fsize * SECTOR_SIZE =>
      secs[g.fatbase + k / SECTOR_SIZE][k % SECTOR_SIZE])
  }

  /** The FAT as a plain array of entries. */
  ghost function FatEntries(g: Geometry, secs: seq<Sector>): (fat: seq<nat>)
    requires g.Layout() && g.End() <= |secs|
    ensures |fat| == g.nFatent && forall c :: 0 <= c < |fat| ==> fat[c] < 0x1000_0000
  {
    var b := FatBytes(g, secs);
    seq(g.nFatent, c requires 0 <= c < g.nFatent => EntryFits(g, c); Entry(g.fsType, b, c))
  }

  /** The bits above the entries of a FAT32 FAT. */
  ghost function FatTopBits(g: Geometry, secs: seq<Sector>): (tops: seq<nat>)
    requires g.Layout() && g.End() <= |secs|
  {
    var b := FatBytes(g, secs);
    seq(g.nFatent, c requires 0 <= c < g.nFatent => EntryFits(g, c); TopBits(g.fsType, b, c))
  }

  lemma EntryFits(g: Geometry, c: nat)
    requires g.Layout() && c < g.nFatent
    ensures EntryEnd(g.fsType, c) <= g.fsize * SECTOR_SIZE
  {
  }

  /** The two disks differ at most in the second FAT. */
  ghost predicate SameButMirror(g: Geometry, s0: seq<Sector>, s1: seq<Sector>) {
    |s0| == |s1| && forall i :: 0 <= i < |s0| && !g.InFat2(i) ==> s1[i] == s0[i]
  }

  /** The two disks differ at most in the FATs. */
  ghost predicate SameButFats(g: Geometry, s0: seq<Sector>, s1: seq<Sector>) {
    |s0| == |s1| && forall i :: 0 <= i < |s0| && !g.InFat1(i) && !g.InFat2(i) ==> s1[i] == s0[i]
  }

  lemma MirrorIsFat(g: Geometry, s0: seq<Sector>, s1: seq<Sector>)
    requires SameButMirror(g, s0, s1)
    ensures SameButFats(g, s0, s1)
  {
  }

  lemma SameFat(g: Geometry, s0: seq<Sector>, s1: seq<Sector>)
    requires g.Layout() && g.End() <= |s0| && |s1| == |s0| && forall i :: g.InFat1(i) ==> s1[i] == s0[i]
    ensures FatBytes(g, s1) == FatBytes(g, s0)
    ensures FatEntries(g, s1) == FatEntries(g, s0) && FatTopBits(g, s1) == FatTopBits(g, s0)
  {
    var b0, b1 := FatBytes(g, s0), FatBytes(g, s1);
    forall k | 0 <= k < |b0|
      ensures b1[k] == b0[k]
    {
      assert g.InFat1(g.fatbase + k / SECTOR_SIZE);
    }
    assert b0 == b1;
  }

  /** Storing bytes in one sector of the FAT splices them into the FAT bytes. */
  lemma StoreInFat(g: Geometry, s0: seq<Sector>, s: nat, ofs: nat, x: seq<byte>)
    requires g.Layout() && g.End() <= |s0| && g.InFat1(s) && ofs + |x| <= SECTOR_SIZE
    ensures (s - g.fatbase) * SECTOR_SIZE + ofs + |x| <= g.fsize * SECTOR_SIZE
    ensures FatBytes(g, s0[s := Splice(s0[s], ofs, x)])
              == Splice(FatBytes(g, s0), (s - g.fatbase) * SECTOR_SIZE + ofs, x)
  {
    var s1 := s0[s := Splice(s0[s], ofs, x)];
    var at := (s - g.fatbase) * SECTOR_SIZE + ofs;
    assert at + |x| <= g.fsize * SECTOR_SIZE;
    var b1, r := FatBytes(g, s1), Splice(FatBytes(g, s0), at, x);
    forall k | 0 <= k < |b1|
      ensures b1[k] == r[k]
    {
      if k / SECTOR_SIZE == s - g.fatbase {
        assert at <= k < at + |x| <==> ofs <= k % SECTOR_SIZE < ofs + |x|;
      }
    }
  }

  /** Replacing the FAT bytes by those of `PutEntry` updates one array element. */
  lemma PutInArray(g: Geometry, s0: seq<Sector>, s1: seq<Sector>, c: nat, v: nat)
    requires g.Layout() && g.End() <= |s0| && g.End() <= |s1| && c < g.nFatent
    requires EntryEnd(g.fsType, c) <= g.fsize * SECTOR_SIZE
    requires FatBytes(g, s1) == PutEntry(g.fsType, FatBytes(g, s0), c, v)
    ensures FatEntries(g, s1) == FatEntries(g, s0)[c := Mask(g.fsType, v)]
    ensures FatTopBits(g, s1) == FatTopBits(g, s0)
  {
    var b := FatBytes(g, s0);
    forall d | 0 <= d < g.nFatent
      ensures FatEntries(g, s1)[d] == FatEntries(g, s0)[c := Mask(g.fsType, v)][d]
      ensures FatTopBits(g, s1)[d] == FatTopBits(g, s0)[d]
    {
      EntryFits(g, d);
      PutGet(g.fsType, b, c, v, d);
    }
  }

  lemma SameBytes(g: Geometry, s0: seq<Sector>, s1: seq<Sector>)
    requires g.Layout() && g.End() <= |s0| && g.End() <= |s1| && FatBytes(g, s1) == FatBytes(g, s0)
    ensures FatEntries(g, s1) == FatEntries(g, s0) && FatTopBits(g, s1) == FatTopBits(g, s0)
  {
  }

  /** A FAT12 store torn between its two bytes spoils no entry but its own. */
  lemma TornInArray(g: Geometry, s0: seq<Sector>, s1: seq<Sector>, c: nat, v: nat)
    requires g.Layout() && g.End() <= |s0| && g.End() <= |s1| && c < g.nFatent && g.fsType == Fat12
    requires EntryEnd(Fat12, c) <= g.fsize * SECTOR_SIZE
    requires FatBytes(g, s1) == PutFirst12(FatBytes(g, s0), c, v)
    ensures forall d :: 0 <= d < g.nFatent && d != c ==> FatEntries(g, s1)[d] == FatEntries(g, s0)[d]
    ensures FatTopBits(g, s1) == FatTopBits(g, s0)
  {
    forall d | 0 <= d < g.nFatent && d != c
      ensures FatEntries(g, s1)[d] == FatEntries(g, s0)[d]
    {
      EntryFits(g, d);
      PutFirst12Others(FatBytes(g, s0), c, v, d);
    }
  }

  /** The second FAT, if there is one, agrees with the first except at a sector not yet written back. */
  ghost predicate GoodMirror(g: Geometry, secs: seq<Sector>, dirty: bool, at: nat)
    requires g.Layout() && g.End() <= |secs|
  {
    g.nFats == 2 ==>
      forall i :: g.fatbase <= i < g.fatbase + g.fsize && !(dirty && at == i) ==> secs[i + g.fsize] == secs[i]
  }

  /** Writing a sector back, and to the second FAT too if it lies in the first, makes a good mirror of one with an
      exception. */
  lemma MirrorAfterSync(g: Geometry, secs: seq<Sector>, at: nat, secs1: seq<Sector>)
    requires g.Layout() && g.End() <= |secs| == |secs1| && at < |secs|
    requires forall i :: 0 <= i < |secs| && i != at + g.fsize ==> secs1[i] == secs[i]
    requires g.nFats == 2 && g.InFat1(at) ==> secs1[at + g.fsize] == secs[at]
    requires !(g.nFats == 2 && g.InFat1(at)) ==> secs1 == secs
    ensures SameButMirror(g, secs, secs1)
    ensures GoodMirror(g, secs, true, at) ==> GoodMirror(g, secs1, false, at)
  {
  }

  class Volume {
    const geo: Geometry
    const disk: Disk
    const win: array<byte>
    var winsect: nat
    var wflag: bool
    /** The last cluster allocated, the number of free clusters, and whether FSInfo must be rewritten. */
    var lastClst: nat
    var freeClst: nat
    var fsiDirty: bool
    /** Whether the volume has an FSInfo sector that may be written. */
    var fsiEnabled: bool

    ghost predicate Valid()
      reads this`wflag, this`winsect, win, disk`sectors
    {
      && geo.Layout() && geo.End() <= |disk.sectors| <= NO_SECTOR
      && win.Length == 512
      && (wflag ==> winsect < |disk.sectors|)
      && (!wflag && geo.InFat1(winsect) ==> win[..] == disk.sectors[winsect])
    }

    /** The disk as the driver sees it: its sectors, with a dirty window in place of the one it belongs to. */
    ghost function Logical(): (secs: seq<Sector>)
      reads this`wflag, this`winsect, win, disk`sectors
      requires win.Length == 512
      ensures |secs| == |disk.sectors|
    {
      Overlay(disk.sectors, wflag, winsect, win[..])
    }

    ghost function Entries(): (fat: seq<nat>)
      reads this`wflag, this`winsect, win, disk`sectors
      requires Valid()
      ensures |fat| == geo.nFatent && forall c :: 0 <= c < |fat| ==> fat[c] < 0x1000_0000
    {
      FatEntries(geo, Logical())
    }

    ghost function Tops(): seq<nat>
      reads this`wflag, this`winsect, win, disk`sectors
      requires Valid()
    {
      FatTopBits(geo, Logical())
    }

    /** The second FAT, if there is one, agrees with the first except where the window is still dirty. */
    ghost predicate Mirrored()
      reads this`wflag, this`winsect, win, disk`sectors
      requires Valid()
    {
      GoodMirror(geo, Logical(), wflag, winsect)
    }

    /** With the window clean, the second FAT is a copy of the first. */
    lemma MirrorIsCopy()
      requires Valid() && Mirrored() && !wflag && geo.nFats == 2
      ensures disk.sectors[geo.fatbase + geo.fsize..geo.fatbase + 2 * geo.fsize]
                == disk.sectors[geo.fatbase..geo.fatbase + geo.fsize]
    {
      var a, b := disk.sectors[geo.fatbase..geo.fatbase + geo.fsize],
          disk.sectors[geo.fatbase + geo.fsize..geo.fatbase + 2 * geo.fsize];
      forall k | 0 <= k < geo.fsize
        ensures a[k] == b[k]
      {
        assert Logical()[geo.fatbase + k + geo.fsize] == Logical()[geo.fatbase + k];
      }
    }

    /** Nothing but the mirror has changed on the disk as the driver sees it, and without a fault the mirror stays
        good. */
    twostate predicate Unmoved()
      reads this`wflag, this`winsect, win, disk
      requires old(Valid()) && Valid()
    {
      && SameButMirror(geo, old(Logical()), Logical())
      && (wflag ==> old(wflag) && winsect == old(winsect))
      && |disk.sectors| == |old(disk.sectors)|
      && disk.faults >= old(disk.faults)
      && (disk.faults == old(disk.faults) && old(Mirrored()) ==> Mirrored())
    }

    /** A change of the free count or of the last cluster allocated is marked for FSInfo. */
    twostate predicate InfoMarked()
      reads this`freeClst, this`lastClst, this`fsiDirty, this`fsiEnabled
    {
      && fsiEnabled == old(fsiEnabled) && (old(fsiDirty) ==> fsiDirty)
      && (fsiDirty || (freeClst == old(freeClst) && lastClst == old(lastClst)))
    }

    /** Only the FATs have changed, and without a fault the mirror stays good. */
    twostate predicate OnlyFats()
      reads this`wflag, this`winsect, win, disk
      requires old(Valid()) && Valid()
    {
      && SameButFats(geo, old(Logical()), Logical())
      && (wflag ==> geo.InFat1(winsect) || (old(wflag) && winsect == old(winsect)))
      && |disk.sectors| == |old(disk.sectors)|
      && disk.faults >= old(disk.faults)
      && (disk.faults == old(disk.faults) && old(Mirrored()) ==> Mirrored())
    }

    constructor (geo: Geometry, disk: Disk, lastClst: nat, freeClst: nat)
      requires geo.Layout() && geo.End() <= |disk.sectors| <= NO_SECTOR
      ensures Valid() && fresh(win) && this.geo == geo && this.disk == disk
      ensures Logical() == disk.sectors && !wflag && this.lastClst == lastClst && this.freeClst == freeClst
      ensures !fsiDirty && !fsiEnabled && winsect == NO_SECTOR
    {
      this.geo := geo;
      this.disk := disk;
      win := new byte[512];
      winsect := NO_SECTOR;
      wflag := false;
      this.lastClst, this.freeClst, fsiDirty, fsiEnabled := lastClst, freeClst, false, false;
    }

    /** The write of `sync_window` to the second FAT, whose failure goes unnoticed. */
    method MirrorWindow()
      requires Valid() && !wflag && geo.nFats == 2 && geo.InFat1(winsect)
      modifies disk
      ensures Valid() && |disk.sectors| == |old(disk.sectors)|
      ensures forall i :: 0 <= i < |disk.sectors| && i != winsect + geo.fsize ==>
                disk.sectors[i] == old(disk.sectors[i])
      ensures disk.faults >= old(disk.faults)
      ensures disk.faults == old(disk.faults) ==> disk.sectors[winsect + geo.fsize] == win[..]
    {
      var ok := disk.Write(winsect + geo.fsize, win[..]);
      if ok {
        WriteOneSector(old(disk.sectors), winsect + geo.fsize, win[..]);
      }
    }

    /** `sync_window`: writes a dirty window back, and to the second FAT when it lies in the first. */
    method SyncWindow() returns (res: FResult)
      requires Valid()
      modifies this`wflag, disk
      ensures Valid() && (res == FrOk || res == FrDiskErr)
      ensures Unmoved()
      ensures res == FrOk ==> !wflag
      ensures res != FrOk ==> wflag
      ensures !old(wflag) ==> disk.sectors == old(disk.sectors)
      ensures disk.faults == old(disk.faults) ==> res == FrOk
    {
      hide GoodMirror;
      res := FrOk;
      if wflag {
        var ok := disk.Write(winsect, win[..]);
        if ok {
          WriteOneSector(old(disk.sectors), winsect, win[..]);
          assert disk.sectors == old(Logical());
          wflag := false;
          if (winsect - geo.fatbase) % TWO_32 < geo.fsize {
            if geo.nFats == 2 {
              MirrorWindow();
            }
          }
          if disk.faults == old(disk.faults) {
            MirrorAfterSync(geo, old(Logical()), winsect, disk.sectors);
          }
        } else {
          res := FrDiskErr;
        }
      }
    }

    /** `move_window`: brings sector `sect` into the window, whatever it takes, without changing what the driver
        sees. */
    method MoveWindow(sect: nat) returns (res: FResult)
      requires Valid() && sect < |disk.sectors|
      modifies this`wflag, this`winsect, win, disk
      ensures Valid() && (res == FrOk || res == FrDiskErr)
      ensures Unmoved()
      ensures res == FrOk ==> winsect == sect && (geo.InFat1(sect) ==> win[..] == Logical()[sect])
      ensures res == FrOk && (old(winsect) == sect ==> old(win[..]) == old(Logical())[sect]) ==>
                win[..] == Logical()[sect]
      ensures !old(wflag) ==> disk.sectors == old(disk.sectors)
      ensures disk.faults == old(disk.faults) ==> res == FrOk
    {
      res := FrOk;
      if sect != winsect {
        res := SyncWindow();
        if res == FrOk {
          label synced:
          var ok := disk.Read(sect, 1, win, 0);
          if ok {
            forall k | 0 <= k < 512
              ensures win[k] == disk.sectors[sect][k]
            {
              assert win[0 + k] == disk.sectors[sect + k / SECTOR_SIZE][k % SECTOR_SIZE];
            }
            assert win[..] == disk.sectors[sect];
            winsect := sect;
          } else {
            winsect := NO_SECTOR;
            res := FrDiskErr;
          }
          assert Logical() == old@synced(Logical());
        }
      }
    }

    /** A `disk_write` that goes past the window, to data sectors the window does not hold dirty. */
    method WriteData(s: nat, data: seq<byte>) returns (ok: bool)
      requires Valid() && geo.database <= s && |data| % SECTOR_SIZE == 0
      requires wflag ==> !(s <= winsect < s + |data| / SECTOR_SIZE)
      modifies disk
      ensures Valid() && Entries() == old(Entries()) && |disk.sectors| == |old(disk.sectors)|
      ensures ok ==> Logical() == WriteSectors(old(Logical()), s, data)
      ensures !ok ==> disk.faults > old(disk.faults)
      ensures disk.faults >= old(disk.faults)
      ensures forall i :: 0 <= i < |disk.sectors| && !(s <= i < s + |data| / SECTOR_SIZE) ==>
                Logical()[i] == old(Logical())[i]
    {
      hide FatEntries, FatBytes, Mirrored;
      ok := disk.Write(s, data);
      SameFat(geo, old(Logical()), Logical());
    }

    /** A byte, word or dword store into a window that holds a sector of the first FAT. */
    method StoreWin(ofs: nat, x: seq<byte>)
      requires Valid() && geo.InFat1(winsect) && ofs + |x| <= SECTOR_SIZE
      requires win[..] == Logical()[winsect]
      modifies this`wflag, win
      ensures Valid() && winsect == old(winsect) && win[..] == Logical()[winsect]
      ensures Logical() == old(Logical())[winsect := Splice(old(Logical()[winsect]), ofs, x)]
      ensures old(Mirrored()) ==> Mirrored()
    {
      forall i | 0 <= i < |x| {
        win[ofs + i] := x[i];
      }
      wflag := true;
      assert win[..] == Splice(old(win[..]), ofs, x);
    }

    /** The FAT bytes as the driver sees them. */
    ghost function Bytes(): (b: seq<byte>)
      reads this`wflag, this`winsect, win, disk`sectors
      requires Valid()
      ensures |b| == geo.fsize * SECTOR_SIZE
    {
      FatBytes(geo, Logical())
    }

    /** A stretch of FAT bytes inside one sector. */
    lemma SectorOfFatBytes(secs: seq<Sector>, at: nat, size: nat)
      requires geo.Layout() && geo.End() <= |secs|
      requires at % SECTOR_SIZE + size <= SECTOR_SIZE && at + size <= geo.fsize * SECTOR_SIZE && size > 0
      ensures geo.InFat1(geo.fatbase + at / SECTOR_SIZE)
      ensures secs[geo.fatbase + at / SECTOR_SIZE][at % SECTOR_SIZE..at % SECTOR_SIZE + size]
                == FatBytes(geo, secs)[at..at + size]
    {
      var ofs, sec, b := at % SECTOR_SIZE, secs[geo.fatbase + at / SECTOR_SIZE], FatBytes(geo, secs);
      var x, y := sec[ofs..ofs + size], b[at..at + size];
      forall k | 0 <= k < size
        ensures x[k] == y[k]
      {
        assert (at + k) / SECTOR_SIZE == at / SECTOR_SIZE && (at + k) % SECTOR_SIZE == ofs + k;
      }
    }

    /** Brings the `size` bytes of the FAT from byte `at` on into the window. */
    method MoveToFatBytes(at: nat, ghost size: nat) returns (res: FResult)
      requires Valid() && at % SECTOR_SIZE + size <= SECTOR_SIZE && at + size <= geo.fsize * SECTOR_SIZE && size > 0
      modifies this`wflag, this`winsect, win, disk
      ensures Valid() && (res == FrOk || res == FrDiskErr) && Unmoved()
      ensures Bytes() == old(Bytes()) && Entries() == old(Entries()) && Tops() == old(Tops())
      ensures disk.faults == old(disk.faults) ==> res == FrOk
      ensures res == FrOk ==>
                geo.InFat1(winsect) && winsect == geo.fatbase + at / SECTOR_SIZE && win[..] == Logical()[winsect]
      ensures res == FrOk ==> win[..][at % SECTOR_SIZE..at % SECTOR_SIZE + size] == Bytes()[at..at + size]
    {
      SectorOfFatBytes(Logical(), at, size);
      res := MoveWindow(geo.fatbase + at / SECTOR_SIZE);
      SameFat(geo, old(Logical()), Logical());
      SectorOfFatBytes(Logical(), at, size);
    }

    /** Where the bytes of an entry are, and what they say. */
    lemma EntryOfBytes(c: nat)
      requires Valid() && c < geo.nFatent
      ensures var t, at, b := geo.fsType, EntryStart(geo.fsType, c), Bytes();
              at + (if t == Fat32 then 4 else 2) <= |b|
              && Entries()[c] == match t
                                 case Fat12 => var wc := b[at] as int + 0x100 * b[at + 1] as int;
                                               if c % 2 == 1 then wc / 0x10 else wc % 0x1000
                                 case Fat16 => LdWord(b[at..at + 2], 0)
                                 case Fat32 => LdDword(b[at..at + 4], 0) % 0x1000_0000
    {
      EntryFits(geo, c);
    }

    static lemma ByteOfSlice(s: seq<byte>, p: nat, t: seq<byte>, q: nat)
      requires p < |s| && q < |t| && s[p..p + 1] == t[q..q + 1]
      ensures s[p] == t[q]
    {
      assert s[p] == s[p..p + 1][0] && t[q] == t[q..q + 1][0];
    }

    /** The FAT12 case of `get_fat`: the two bytes of an entry may lie in different sectors. */
    method GetFat12(clst: nat) returns (val: nat)
      requires Valid() && geo.fsType == Fat12 && clst < geo.nFatent
      modifies this`wflag, this`winsect, win, disk
      ensures Valid() && Unmoved() && Bytes() == old(Bytes())
      ensures val == old(Entries())[clst] || (val == DISK_ERROR && disk.faults > old(disk.faults))
    {
      hide Logical, Mirrored, Bytes, Entries, Tops, FatBytes, FatEntries, FatTopBits, Entry, EntryEnd, Geometry.Layout;
      val := DISK_ERROR;
      EntryOfBytes(clst);
      var bc := clst + clst / 2;
      ghost var b := Bytes();
      var res := MoveToFatBytes(bc, 1);
      if res == FrOk {
        var wc := win[..][bc % SECTOR_SIZE] as int;
        ByteOfSlice(win[..], bc % SECTOR_SIZE, b, bc);
        bc := bc + 1;
        res := MoveToFatBytes(bc, 1);
        if res == FrOk {
          ByteOfSlice(win[..], bc % SECTOR_SIZE, b, bc);
          wc := wc + 0x100 * win[..][bc % SECTOR_SIZE] as int;
          val := if clst % 2 == 1 then wc / 0x10 else wc % 0x1000;
        }
      }
    }

    lemma AlignedWords(c: nat)
      ensures c * 2 % SECTOR_SIZE + 2 <= SECTOR_SIZE && c * 4 % SECTOR_SIZE + 4 <= SECTOR_SIZE
    {
    }

    /** The FAT16 and FAT32 cases of `get_fat`. */
    method GetFatWord(clst: nat) returns (val: nat)
      requires Valid() && geo.fsType != Fat12 && clst < geo.nFatent
      modifies this`wflag, this`winsect, win, disk
      ensures Valid() && Unmoved() && Bytes() == old(Bytes())
      ensures val == old(Entries())[clst] || (val == DISK_ERROR && disk.faults > old(disk.faults))
    {
      hide LdWord, LdDword, Logical, Mirrored, Bytes, Entries, Tops, FatBytes, FatEntries, FatTopBits, Entry, EntryEnd,
           LdWord, LdDword, Geometry.Layout;
      val := DISK_ERROR;
      EntryOfBytes(clst);
      AlignedWords(clst);
      if geo.fsType == Fat16 {
        var ofs := clst * 2 % SECTOR_SIZE;
        var res := MoveToFatBytes(clst * 2, 2);
        if res == FrOk {
          val := LdWord(win[..][ofs..ofs + 2], 0);
        }
      } else {
        var ofs := clst * 4 % SECTOR_SIZE;
        var res := MoveToFatBytes(clst * 4, 4);
        if res == FrOk {
          val := LdDword(win[..][ofs..ofs + 4], 0) % 0x1000_0000;
        }
      }
    }

    /** `get_fat`. */
    method GetFat(clst: nat) returns (val: nat)
      requires Valid()
      modifies this`wflag, this`winsect, win, disk
      ensures Valid() && Unmoved() && Entries() == old(Entries()) && Tops() == old(Tops())
      ensures clst < 2 || clst >= geo.nFatent ==> val == INTERNAL_ERROR
      ensures 2 <= clst < geo.nFatent ==>
                val == old(Entries())[clst] || (val == DISK_ERROR && disk.faults > old(disk.faults))
    {
      if clst < 2 || clst >= geo.nFatent {
        val := INTERNAL_ERROR;
      } else if geo.fsType == Fat12 {
        val := GetFat12(clst);
      } else {
        val := GetFatWord(clst);
      }
    }

    /** Stores bytes of the FAT that are in the window. */
    method StoreFatBytes(at: nat, x: seq<byte>)
      requires Valid() && at % SECTOR_SIZE + |x| <= SECTOR_SIZE && at + |x| <= geo.fsize * SECTOR_SIZE && |x| > 0
      requires winsect == geo.fatbase + at / SECTOR_SIZE && win[..] == Logical()[winsect]
      modifies this`wflag, win
      ensures Valid() && OnlyFats()
      ensures Bytes() == Splice(old(Bytes()), at, x) && geo.InFat1(winsect)
    {
      hide FatBytes, FatEntries, FatTopBits, Splice, Geometry.Layout;
      SectorOfFatBytes(Logical(), at, |x|);
      StoreInFat(geo, Logical(), winsect, at % SECTOR_SIZE, x);
      StoreWin(at % SECTOR_SIZE, x);
    }

    /** The first byte of a FAT12 entry in `put_fat`. */
    method PutFirstHalf12(clst: nat, val: nat) returns (res: FResult)
      requires Valid() && geo.fsType == Fat12 && clst < geo.nFatent
      modifies this`wflag, this`winsect, win, disk
      ensures Valid() && OnlyFats() && (res == FrOk || res == FrDiskErr)
      ensures EntryEnd(Fat12, clst) <= |Bytes()|
      ensures Bytes() == if res == FrOk then PutFirst12(old(Bytes()), clst, val) else old(Bytes())
      ensures res == FrOk ==> geo.InFat1(winsect)
      ensures disk.faults == old(disk.faults) ==> res == FrOk
    {
      hide Logical, Mirrored, Bytes, Entries, Tops, FatBytes, FatEntries, FatTopBits, Entry, FirstByte12, SecondByte12,
           LdDword, StWord, StDword, Dword32, Splice, Geometry.Layout;
      EntryFits(geo, clst);
      var bc := clst + clst / 2;
      ghost var b := Bytes();
      res := MoveToFatBytes(bc, 1);
      if res == FrOk {
        var p := win[..][bc % SECTOR_SIZE];
        assert p == b[bc..bc + 1][0];
        StoreFatBytes(bc, [FirstByte12(clst, p, val)]);
      }
    }

    /** The second byte of a FAT12 entry in `put_fat`, which may be in the next sector. */
    method PutSecondHalf12(clst: nat, val: nat) returns (res: FResult)
      requires Valid() && geo.fsType == Fat12 && clst < geo.nFatent
      modifies this`wflag, this`winsect, win, disk
      ensures Valid() && OnlyFats() && (res == FrOk || res == FrDiskErr)
      ensures EntryEnd(Fat12, clst) <= |Bytes()|
      ensures Bytes() == if res == FrOk then PutSecond12(old(Bytes()), clst, val) else old(Bytes())
      ensures res == FrOk ==> geo.InFat1(winsect)
      ensures disk.faults == old(disk.faults) ==> res == FrOk
    {
      hide Logical, Mirrored, Bytes, Entries, Tops, FatBytes, FatEntries, FatTopBits, Entry, FirstByte12, SecondByte12,
           LdDword, StWord, StDword, Dword32, Splice, Geometry.Layout;
      EntryFits(geo, clst);
      var bc := clst + clst / 2 + 1;
      ghost var b := Bytes();
      res := MoveToFatBytes(bc, 1);
      if res == FrOk {
        var p := win[..][bc % SECTOR_SIZE];
        assert p == b[bc..bc + 1][0];
        StoreFatBytes(bc, [SecondByte12(clst, p, val)]);
      }
    }

    /** The FAT12 case of `put_fat`; a failure between its two sectors leaves the first byte stored. */
    method PutFat12(clst: nat, val: nat) returns (res: FResult)
      requires Valid() && geo.fsType == Fat12 && clst < geo.nFatent
      modifies this`wflag, this`winsect, win, disk
      ensures Valid() && OnlyFats() && (res == FrOk || res == FrDiskErr)
      ensures EntryEnd(Fat12, clst) <= |old(Bytes())|
      ensures res == FrOk ==> Bytes() == PutEntry(Fat12, old(Bytes()), clst, val) && geo.InFat1(winsect)
      ensures res != FrOk ==> Bytes() == old(Bytes()) || Bytes() == PutFirst12(old(Bytes()), clst, val)
      ensures disk.faults == old(disk.faults) ==> res == FrOk
    {
      hide Logical, Mirrored, Bytes, Entries, Tops, FatBytes, FatEntries, FatTopBits, PutFirst12, PutSecond12,
           Geometry.Layout;
      res := PutFirstHalf12(clst, val);
      if res == FrOk {
        res := PutSecondHalf12(clst, val);
      }
    }

    /** The FAT16 case of `put_fat`. */
    method PutFat16(clst: nat, val: nat) returns (res: FResult)
      requires Valid() && geo.fsType == Fat16 && clst < geo.nFatent
      modifies this`wflag, this`winsect, win, disk
      ensures Valid() && OnlyFats() && (res == FrOk || res == FrDiskErr)
      ensures EntryEnd(Fat16, clst) <= |old(Bytes())|
      ensures Bytes() == if res == FrOk then PutEntry(Fat16, old(Bytes()), clst, val) else old(Bytes())
      ensures res == FrOk ==> geo.InFat1(winsect)
      ensures disk.faults == old(disk.faults) ==> res == FrOk
    {
      hide Logical, Mirrored, Bytes, Entries, Tops, FatBytes, FatEntries, FatTopBits, Entry, FirstByte12, SecondByte12,
           LdDword, StWord, StDword, Dword32, Splice, Geometry.Layout;
      EntryFits(geo, clst);
      AlignedWords(clst);
      res := MoveToFatBytes(clst * 2, 2);
      if res == FrOk {
        StoreFatBytes(clst * 2, StWord(val));
      }
    }

    /** The FAT32 case of `put_fat`, which keeps the four bits above the entry. */
    method PutFat32(clst: nat, val: nat) returns (res: FResult)
      requires Valid() && geo.fsType == Fat32 && clst < geo.nFatent
      modifies this`wflag, this`winsect, win, disk
      ensures Valid() && OnlyFats() && (res == FrOk || res == FrDiskErr)
      ensures EntryEnd(Fat32, clst) <= |old(Bytes())|
      ensures Bytes() == if res == FrOk then PutEntry(Fat32, old(Bytes()), clst, val) else old(Bytes())
      ensures res == FrOk ==> geo.InFat1(winsect)
      ensures disk.faults == old(disk.faults) ==> res == FrOk
    {
      PutEntryIs32(Bytes(), clst, val);
      hide Logical, Mirrored, Bytes, Entries, Tops, FatBytes, FatEntries, FatTopBits, Entry, PutEntry, LdDword, StDword,
           Dword32, Splice, Geometry.Layout;
      EntryFits(geo, clst);
      AlignedWords(clst);
      var was;
      was, res := LoadDword(clst * 4);
      if res == FrOk {
        StoreFatBytes(clst * 4, StDword(Dword32(was, val)));
      }
    }

    /** The dword of the FAT that starts at byte `at`. */
    method LoadDword(at: nat) returns (was: nat, res: FResult)
      requires Valid() && at + 4 <= |Bytes()| && at % SECTOR_SIZE + 4 <= SECTOR_SIZE
      modifies this`wflag, this`winsect, win, disk
      ensures Valid() && (res == FrOk || res == FrDiskErr) && Unmoved() && Bytes() == old(Bytes())
      ensures disk.faults == old(disk.faults) ==> res == FrOk
      ensures res == FrOk ==>
                geo.InFat1(winsect) && winsect == geo.fatbase + at / SECTOR_SIZE && win[..] == Logical()[winsect]
      ensures res == FrOk ==> was == LdDword(Bytes(), at)
    {
      hide Logical, Mirrored, Bytes, Entries, Tops, LdDword, Geometry.Layout;
      was := 0;
      res := MoveToFatBytes(at, 4);
      if res == FrOk {
        LoadSlice(Bytes(), at);
        was := LdDword(win[..][at % SECTOR_SIZE..at % SECTOR_SIZE + 4], 0);
      }
    }

    static lemma PutEntryIs32(b: seq<byte>, c: nat, v: nat)
      ensures 4 * c + 4 <= |b| ==>
                PutEntry(Fat32, b, c, v) == Splice(b, c * 4, StDword(Dword32(LdDword(b, c * 4), v)))
    {
    }

    static lemma LoadSlice(b: seq<byte>, at: nat)
      requires at + 4 <= |b|
      ensures LdDword(b[at..at + 4], 0) == LdDword(b, at)
    {
    }

    /** `put_fat`: one element of the FAT array changes, and nothing else on the volume. */
    method PutFat(clst: nat, val: nat) returns (res: FResult)
      requires Valid()
      modifies this`wflag, this`winsect, win, disk
      ensures Valid() && OnlyFats() && Tops() == old(Tops())
      ensures res == FrIntErr <==> clst < 2 || clst >= geo.nFatent
      ensures res == FrOk || res == FrDiskErr || res == FrIntErr
      ensures res == FrOk ==> Entries() == old(Entries())[clst := Mask(geo.fsType, val)] && geo.InFat1(winsect)
      ensures res != FrOk ==> forall d :: 0 <= d < geo.nFatent && d != clst ==> Entries()[d] == old(Entries())[d]
      ensures res == FrIntErr ==> Logical() == old(Logical()) && Entries() == old(Entries())
      ensures disk.faults == old(disk.faults) && res != FrIntErr ==> res == FrOk
    {
      hide Logical, Mirrored, FatBytes, FatEntries, FatTopBits, PutEntry, PutFirst12, Geometry.Layout;
      res := FrIntErr;
      if 2 <= clst < geo.nFatent {
        EntryFits(geo, clst);
        ghost var s0 := Logical();
        if geo.fsType == Fat12 {
          res := PutFat12(clst, val);
          if res != FrOk && Bytes() != old(Bytes()) {
            TornInArray(geo, s0, Logical(), clst, val);
          }
        } else if geo.fsType == Fat16 {
          res := PutFat16(clst, val);
        } else {
          res := PutFat32(clst, val);
        }
        if res == FrOk {
          PutInArray(geo, s0, Logical(), clst, val);
        } else if Bytes() == old(Bytes()) {
          SameBytes(geo, s0, Logical());
        }
      }
    }
  }
}
