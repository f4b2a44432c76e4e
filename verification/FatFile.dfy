/** An open file: `f_read`, `f_write` and `f_lseek` over a private sector buffer, direct transfers and a growing
    chain. */
module FatFile {
  import opened Bytes
  import opened FatAllocator
  import opened FatChains
  import opened FatDisk
  import opened FatFileBytes
  import opened FatFileMap
  import opened FatGeometry
  import opened FatRuns
  import opened FatVolume

  /** A well-formed FAT holds no entry 1. */
  lemma NoBadEntry(fat: seq<nat>, chains: set<seq<nat>>, c: nat)
    requires Partition(fat, chains) && 2 <= c < |fat|
    ensures fat[c] != 1
  {
    hide PairwiseDisjoint;
    if fat[c] != 0 {
      var s :| s in chains && c in s;
      hide CoversUsed;
      assert IsChain(fat, s);
      var i :| 0 <= i < |s| && s[i] == c;
      if i < |s| - 1 {
        assert fat[s[i]] == s[i + 1];
      }
    }
  }

  lemma ChainOk(g: Geometry, fat: seq<nat>, chains: set<seq<nat>>, s: seq<nat>)
    requires g.Layout() && |fat| == g.nFatent && Partition(fat, chains) && s in chains
    ensures ClustersOk(g, s)
  {
    hide CoversUsed, PairwiseDisjoint;
    ChainAcyclic(fat, s);
  }

  /** The successor of a cluster of a chain. */
  lemma NextInChain(fat: seq<nat>, chains: set<seq<nat>>, s: seq<nat>, i: nat)
    requires Partition(fat, chains) && s in chains && i < |s|
    ensures 2 <= s[i] < |fat| && if i + 1 < |s| then fat[s[i]] == s[i + 1] < |fat| && s[i + 1] >= 2
              else fat[s[i]] >= |fat|
  {
    hide CoversUsed, PairwiseDisjoint;
    assert IsChain(fat, s);
  }

  /** How a chain set with the chain `ch` (none when `ch` is empty) becomes one with `ch1` in its place. */
  ghost predicate Regrown(chains: set<seq<nat>>, ch: seq<nat>, chains1: set<seq<nat>>, ch1: seq<nat>) {
    ch <= ch1 && ch1 in chains1 && chains1 - {ch1} == chains - {ch}
  }

  lemma ChainsNotEmpty(fat: seq<nat>, chains: set<seq<nat>>)
    requires Partition(fat, chains)
    ensures [] !in chains
  {
    hide CoversUsed, PairwiseDisjoint;
    assert AllChains(fat, chains);
  }

  /** `create_chain` called on a cluster of the file's chain: its successor, a fresh cluster at the end, or a full
      disk. */
  lemma FollowOutcome(a: Alloc, chains: set<seq<nat>>, ch: seq<nat>, i: nat, e: nat, r: nat, b: Alloc)
    requires |a.fat| >= 3 && CountExact(a.fat, a.free) && Partition(a.fat, chains) && e >= |a.fat|
    requires ch in chains && i < |ch| && CreateOutcome(a.fat, a.free, ch[i], e, r, b.fat, b.free)
    ensures i + 1 < |ch| ==> r == ch[i + 1] >= 2 && b == a
    ensures i + 1 == |ch| && r == 0 ==> b == a && (a.free == 0 || NoneFree(a.fat))
    ensures i + 1 == |ch| && r != 0 ==> b.fat != a.fat && 2 <= r < |a.fat| == |b.fat| && CountExact(b.fat, b.free)
    ensures i + 1 == |ch| && r != 0 ==>
              Partition(b.fat, chains - {ch} + {ch + [r]}) && Regrown(chains, ch, chains - {ch} + {ch + [r]}, ch + [r])
  {
    hide Partition, CountFree, IsChain;
    NextInChain(a.fat, chains, ch, i);
    if i + 1 == |ch| && r != 0 {
      assert r != 1 by {
        forall c | 2 <= c < |a.fat|
          ensures a.fat[c] != 1
        {
          NoBadEntry(a.fat, chains, c);
        }
      }
      var s := StretchKeeps(a, chains, ch[i], e, r);
      SameEnd(a.fat, chains, s, ch);
      StretchedIsNew(a.fat, chains, ch, r);
      FreeBound(a.fat);
    }
  }

  lemma SameEnd(fat: seq<nat>, chains: set<seq<nat>>, s: seq<nat>, t: seq<nat>)
    requires Partition(fat, chains) && s in chains && t in chains && |s| > 0 && |t| > 0 && Last(s) == Last(t)
    ensures s == t
  {
    assert Last(s) in s && Last(t) in t;
  }

  lemma StretchedIsNew(fat: seq<nat>, chains: set<seq<nat>>, ch: seq<nat>, r: nat)
    requires Partition(fat, chains) && ch in chains && |ch| > 0
    ensures ch + [r] !in chains
  {
    assert ch[0] in ch && ch[0] in ch + [r];
  }

  /** `create_chain(0)` for a file without clusters: a fresh cluster, or a full disk. */
  lemma StartOutcome(a: Alloc, chains: set<seq<nat>>, e: nat, r: nat, b: Alloc)
    requires |a.fat| >= 3 && CountExact(a.fat, a.free) && Partition(a.fat, chains) && e >= |a.fat|
    requires CreateOutcome(a.fat, a.free, 0, e, r, b.fat, b.free)
    ensures r == 0 ==> b == a && (a.free == 0 || NoneFree(a.fat))
    ensures r != 0 ==> b.fat != a.fat && 2 <= r < |a.fat| == |b.fat| && CountExact(b.fat, b.free)
    ensures r != 0 ==> Partition(b.fat, chains + {[r]}) && Regrown(chains, [], chains + {[r]}, [r])
  {
    hide Partition, CountFree, IsChain;
    if r != 0 {
      assert r != 1 by {
        forall c | 2 <= c < |a.fat|
          ensures a.fat[c] != 1
        {
          NoBadEntry(a.fat, chains, c);
        }
      }
      StartKeeps(a, chains, e, r);
      FreeBound(a.fat);
      ChainsNotEmpty(a.fat, chains);
    }
  }

  /** A change of the FATs alone, and a longer sector list, leave the gathered bytes as they are. */
  lemma FatsDoNotMatter(g: Geometry, v: seq<Sector>, w: seq<Sector>, dirty: bool, at: nat, b: seq<byte>,
                        s: seq<nat>, t: seq<nat>, size: nat)
    requires SameButFats(g, v, w) && |b| == 512 && s <= t && size <= |s| * SECTOR_SIZE
    requires NoDuplicates(t) && forall j :: 0 <= j < |t| ==> t[j] < |v| && !g.InFat1(t[j]) && !g.InFat2(t[j])
    ensures SectorsOk(v, s) && SectorsOk(w, t)
    ensures Gather(Overlay(w, dirty, at, b), t, size) == Gather(Overlay(v, dirty, at, b), s, size)
  {
    assert forall j :: 0 <= j < |s| ==> s[j] == t[j];
    var x, y := Overlay(v, dirty, at, b), Overlay(w, dirty, at, b);
    GatherSame(x, y, t, size);
    GatherPrefix(x, s, t, size);
  }

  /** Outside the FATs and the sectors `s`, the two disks agree. */
  ghost predicate KeptOutside(g: Geometry, s: seq<nat>, v: seq<Sector>, w: seq<Sector>) {
    |v| == |w| && forall i :: 0 <= i < |v| && !g.InFat1(i) && !g.InFat2(i) && i !in s ==> w[i] == v[i]
  }

  lemma KeptTwice(g: Geometry, s: seq<nat>, t: seq<nat>, u: seq<Sector>, v: seq<Sector>, w: seq<Sector>)
    requires s <= t && KeptOutside(g, s, u, v) && KeptOutside(g, t, v, w)
    ensures KeptOutside(g, t, u, w)
  {
  }

  /** The FAT is a partition into `chains`, with an exact free count. */
  ghost predicate Allocated(fat: seq<nat>, free: nat, chains: set<seq<nat>>) {
    Partition(fat, chains) && CountExact(fat, free)
  }

  /** The clusters `ch` of a file that starts at cluster `sclust`, 0 for none, are one of the chains. */
  ghost predicate Owned(g: Geometry, chains: set<seq<nat>>, ch: seq<nat>, sclust: nat) {
    ClustersOk(g, ch) && if ch == [] then sclust == 0 else ch in chains && sclust == ch[0]
  }

  /** The file fits its sectors, the buffer is dirty only for one of them, and the window is dirty for none. */
  ghost predicate Fits(s: seq<nat>, fptr: nat, objsize: nat, dirty: bool, sect: nat, wflag: bool, winsect: nat) {
    && fptr <= objsize < TWO_32 && objsize <= |s| * SECTOR_SIZE
    && (sect in s || (sect == 0 && !dirty)) && (wflag ==> winsect !in s)
  }

  class File {
    const fs: Volume
    const canRead: bool
    const canWrite: bool
    const buf: array<byte>
    var err: FResult
    var fptr: nat
    var objsize: nat
    var sclust: nat
    var clust: nat
    var sect: nat
    /** `FA_DIRTY` and `FA_MODIFIED`. */
    var dirty: bool
    var modified: bool
    /** The file's clusters, and the chains of the volume. */
    ghost var ch: seq<nat>
    ghost var chains: set<seq<nat>>

    ghost function Sectors(): (s: seq<nat>)
      reads this`ch
      requires ClustersOk(fs.geo, ch)
      ensures |s| == Capacity(fs.geo, |ch|)
    {
      FileSectors(fs.geo, ch)
    }

    /** The volume is sound, and the file's size, chain and buffer belong to it. */
    ghost predicate Core()
      reads this`fptr, this`objsize, this`sclust, this`sect, this`dirty, this`ch, this`chains, buf, fs, fs.win,
            fs.disk`sectors
    {
      && fs.Valid() && buf.Length == 512 && buf != fs.win
      && Allocated(fs.Entries(), fs.freeClst, chains)
      && Owned(fs.geo, chains, ch, sclust)
      && Fits(Sectors(), fptr, objsize, dirty, sect, fs.wflag, fs.winsect)
    }

    /** A clean buffer agrees with the sector it stands for. */
    ghost predicate BufferMatches()
      reads this`fptr, this`objsize, this`sclust, this`sect, this`dirty, this`ch, this`chains, buf, fs, fs.win,
            fs.disk`sectors
      requires Core()
    {
      !dirty && sect in Sectors() ==> buf[..] == fs.Logical()[sect]
    }

    /** Sector `j` is in the chain, and `clust` is the chain element that holds it. */
    ghost predicate ClusterAt(j: nat)
      reads this`clust, this`ch
      requires ClustersOk(fs.geo, ch)
    {
      j < |Sectors()| && ClusterIndex(fs.geo, j) < |ch| && clust == ch[ClusterIndex(fs.geo, j)]
    }

    /** `clust` is the chain element of byte `fptr - 1`, and the buffer holds the sector `fptr` is inside of. */
    ghost predicate Positioned()
      reads this`fptr, this`clust, this`sect, this`ch
      requires ClustersOk(fs.geo, ch)
    {
      && (fptr > 0 ==> ClusterAt((fptr - 1) / SECTOR_SIZE))
      && (fptr % SECTOR_SIZE != 0 ==> fptr / SECTOR_SIZE < |Sectors()| && sect == Sectors()[fptr / SECTOR_SIZE])
    }

    ghost predicate Valid()
      reads this`clust, this`fptr, this`objsize, this`sclust, this`sect, this`dirty, this`ch, this`chains, buf, fs,
            fs.win, fs.disk`sectors
    {
      Core() && BufferMatches() && Positioned()
    }

    /** The current cluster is the chain element that holds the byte before the position. */
    lemma CurrentCluster()
      requires ClustersOk(fs.geo, ch) && Positioned() && fptr > 0
      ensures 0 <= ClusterOfByte(fs.geo, fptr - 1) < |ch| && clust == ch[ClusterOfByte(fs.geo, fptr - 1)]
    {
      hide FileSectors, ClusterBytes, Geometry.Layout;
      ByteToCluster(fs.geo, fptr - 1);
    }

    /** The disk with the window and the file's buffer laid over it. */
    ghost function View(): (secs: seq<Sector>)
      reads this`fptr, this`objsize, this`sclust, this`sect, this`dirty, this`ch, this`chains, buf, fs, fs.win,
            fs.disk`sectors
      requires Core()
      ensures |secs| == |fs.Logical()|
    {
      Overlay(fs.Logical(), dirty, sect, buf[..])
    }

    lemma SectorsFit()
      requires Core()
      ensures SectorsOk(View(), Sectors()) && SectorsOk(fs.Logical(), Sectors())
      ensures forall j :: 0 <= j < |Sectors()| ==> !fs.geo.InFat1(Sectors()[j]) && !fs.geo.InFat2(Sectors()[j])
    {
      hide Allocated;
      FileSectorsDistinct(fs.geo, ch);
    }

    /** The bytes of the file. */
    ghost function Content(): (c: seq<byte>)
      reads this`fptr, this`objsize, this`sclust, this`sect, this`dirty, this`ch, this`chains, buf, fs, fs.win,
            fs.disk`sectors
      requires Core()
      ensures |c| == objsize
    {
      SectorsFit();
      Gather(View(), Sectors(), objsize)
    }

    lemma PositionInside()
      requires Core()
      ensures fptr <= |Content()|
    {
      hide Allocated, Owned;
    }

    /** The file's chain only grew, by clusters that were free; other chains and their sectors are untouched. */
    twostate predicate OthersKept()
      reads this`fptr, this`objsize, this`sclust, this`sect, this`dirty, this`ch, this`chains, buf, fs, fs.win, fs.disk
      requires old(Core()) && Core()
    {
      && old(ch) <= ch && chains - {ch} == old(chains - {ch})
      && old(Sectors()) <= Sectors() && fs.disk.faults >= old(fs.disk.faults)
      && KeptOutside(fs.geo, Sectors(), old(fs.Logical()), fs.Logical())
    }

    /** The state `f_open` gives an existing file: its start cluster and size from the directory entry, and an empty
        buffer. */
    constructor (fs: Volume, canRead: bool, canWrite: bool, sclust: nat, objsize: nat, ghost ch: seq<nat>,
                 ghost chains: set<seq<nat>>)
      requires fs.Valid() && Allocated(fs.Entries(), fs.freeClst, chains) && Owned(fs.geo, chains, ch, sclust)
      requires objsize < TWO_32 && objsize <= Capacity(fs.geo, |ch|) * SECTOR_SIZE
      requires fs.wflag ==> fs.winsect !in FileSectors(fs.geo, ch)
      ensures Valid() && err == FrOk && fptr == 0 && this.objsize == objsize && this.ch == ch && this.chains == chains
      ensures this.fs == fs && this.canRead == canRead && this.canWrite == canWrite && fresh(buf)
    {
      hide Allocated;
      this.fs, this.canRead, this.canWrite := fs, canRead, canWrite;
      this.sclust, this.objsize := sclust, objsize;
      err, fptr, sect, dirty, modified := FrOk, 0, 0, false, false;
      buf := new byte[512](_ => 0);
      this.ch, this.chains := ch, chains;
      new;
      assert 0 !in Sectors();
    }

    twostate lemma ChainsKept()
      requires old(Core()) && Core() && OthersKept()
      ensures old(ch) <= ch && chains - {ch} == old(chains - {ch})
    {
      hide Allocated, KeptOutside;
    }

    /** A known count of 0 means that no cluster is free. */
    lemma CountedFull()
      requires Core()
      ensures fs.freeClst == 0 ==> NoneFree(fs.Entries())
    {
      hide Partition, CountFree;
      CoreChains();
      NoneCounted(fs.Entries());
    }

    /** The part of `Core` about chains. */
    lemma CoreChains()
      requires Core()
      ensures ClustersOk(fs.geo, ch) && Allocated(fs.Entries(), fs.freeClst, chains) && Partition(fs.Entries(), chains)
      ensures (ch in chains || ch == []) && |fs.Entries()| == fs.geo.nFatent >= 3 && fs.Valid() && objsize < TWO_32
    {
      hide Partition, CountExact;
    }

    /** Every other chain of the volume is still there, and its sectors hold what they held. */
    twostate lemma OtherFileKept(o: seq<nat>)
      requires old(Core()) && Core() && OthersKept() && o in old(chains) && o != old(ch)
      ensures o in chains && ClustersOk(fs.geo, o)
      ensures forall k :: 0 <= k < |FileSectors(fs.geo, o)| ==>
                FileSectors(fs.geo, o)[k] < |fs.Logical()|
                && fs.Logical()[FileSectors(fs.geo, o)[k]] == old(fs.Logical())[FileSectors(fs.geo, o)[k]]
    {
      hide Volume.Logical, CountExact, CoversUsed, AllChains, FileSectors;
      assert o in chains - {ch};
      ChainOk(fs.geo, fs.Entries(), chains, o);
      var s := FileSectors(fs.geo, o);
      forall k | 0 <= k < |s|
        ensures s[k] < |fs.Logical()| && fs.Logical()[s[k]] == old(fs.Logical())[s[k]]
      {
        if s[k] in Sectors() {
          var j :| 0 <= j < |Sectors()| && Sectors()[j] == s[k];
          DisjointChains(fs.Entries(), chains, ch, o);
          OtherFilesDisjoint(fs.geo, ch, o, j, k);
        }
      }
    }

    static lemma DisjointChains(fat: seq<nat>, chains: set<seq<nat>>, s: seq<nat>, t: seq<nat>)
      requires Partition(fat, chains) && (s in chains || s == []) && t in chains && s != t
      ensures forall x :: !(x in s && x in t)
    {
    }

    /** The write-back of a dirty buffer. */
    method FlushBuf() returns (ok: bool)
      requires Core() && BufferMatches()
      modifies this`dirty, fs.disk
      ensures Core() && OthersKept()
      ensures ok ==> !dirty && Content() == old(Content()) && BufferMatches() && View() == old(View())
      ensures fs.Entries() == old(fs.Entries())
      ensures !ok ==> fs.disk.faults > old(fs.disk.faults)
    {
      hide Allocated;
      ok := true;
      if dirty {
        ok := fs.WriteData(sect, buf[..]);
        if ok {
          WriteOneSector(old(fs.Logical()), sect, buf[..]);
          dirty := false;
        }
      }
    }

    /** The file's fields, but for its chain, are as they were. */
    twostate predicate SameFields()
      reads this, buf
    {
      && old(ch) <= ch && (sclust == old(sclust) || old(ch) == [])
      && sect == old(sect) && dirty == old(dirty) && buf[..] == old(buf[..]) && objsize == old(objsize)
      && fptr == old(fptr)
    }

    /** A change of the FATs alone, with a longer chain at most, keeps the file in order ... */
    twostate lemma CoreOverFats()
      requires old(Core()) && fs.Valid() && SameFields() && fs.OnlyFats()
      requires Allocated(fs.Entries(), fs.freeClst, chains) && Owned(fs.geo, chains, ch, sclust)
      requires old(Sectors()) <= Sectors() && (ch != old(ch) ==> fs.geo.InFat1(fs.winsect))
      ensures Core()
    {
      hide Allocated, Volume.Logical, Volume.Entries, Volume.Mirrored;
      assert Fits(old(Sectors()), fptr, objsize, dirty, sect, old(fs.wflag), old(fs.winsect));
      assert sect in old(Sectors()) ==> sect in Sectors();
    }

    /** ... with the same bytes ... */
    twostate lemma ContentOverFats()
      requires old(Core()) && Core() && SameFields() && SameButFats(fs.geo, old(fs.Logical()), fs.Logical())
      requires old(Sectors()) <= Sectors()
      ensures Content() == old(Content())
    {
      hide Allocated, Volume.Logical;
      SectorsFit();
      FatsDoNotMatter(fs.geo, old(fs.Logical()), fs.Logical(), dirty, sect, buf[..], old(Sectors()), Sectors(),
                      objsize);
    }

    /** ... and the same clean buffer. */
    twostate lemma BufferOverFats()
      requires old(Core()) && Core() && SameFields() && SameButFats(fs.geo, old(fs.Logical()), fs.Logical())
      requires old(Sectors()) <= Sectors() && old(BufferMatches())
      ensures BufferMatches()
    {
      hide Allocated, Volume.Logical;
      SectorsFit();
    }

    /** Follows the chain from its element `i`, stretching it at its end: the file side of `create_chain(clst)`. */
    method FollowChain(clst: nat, ghost i: nat) returns (r: nat)
      requires Core() && BufferMatches() && i < |ch| && clst == ch[i]
      modifies this`ch, this`chains, fs, fs.win, fs.disk
      ensures fs.Valid() && fs.disk.faults >= old(fs.disk.faults)
      ensures r == DISK_ERROR ==> fs.disk.faults > old(fs.disk.faults)
      ensures r != DISK_ERROR ==> Core() && BufferMatches() && OthersKept() && Content() == old(Content())
      ensures r == 0 ==> ch == old(ch) && i + 1 == |ch| && (fs.freeClst == 0 || NoneFree(fs.Entries()))
      ensures r != DISK_ERROR && r != 0 ==> i + 1 < |ch| && r == ch[i + 1] >= 2
    {
      hide Partition, CreateOutcome, CountExact, NoneFree, Content, BufferMatches, Fits, Volume.Logical,
           Volume.Entries, Volume.Mirrored;
      ghost var a := Alloc(fs.Entries(), fs.freeClst);
      FatentBounds(fs.geo);
      r := CreateChain(fs, clst);
      if r != DISK_ERROR {
        ghost var b := Alloc(fs.Entries(), fs.freeClst);
        FollowOutcome(a, chains, ch, i, EndMark(fs.geo), r, b);
        if i + 1 == |ch| && r != 0 {
          chains := chains - {ch} + {ch + [r]};
          ch := ch + [r];
          ChainOk(fs.geo, b.fat, chains, ch);
          FileSectorsGrow(fs.geo, old(ch), r);
        }
        CoreOverFats();
        ContentOverFats();
        BufferOverFats();
      }
    }

    /** Gives a file without clusters its first one: the file side of `create_chain(0)`. */
    method StartChain() returns (r: nat)
      requires Core() && BufferMatches() && ch == []
      modifies this`ch, this`chains, this`sclust, fs, fs.win, fs.disk
      ensures fs.Valid() && fs.disk.faults >= old(fs.disk.faults)
      ensures r == DISK_ERROR ==> fs.disk.faults > old(fs.disk.faults)
      ensures r != DISK_ERROR ==> Core() && BufferMatches() && OthersKept() && Content() == old(Content())
      ensures r == 0 ==> ch == [] && (fs.freeClst == 0 || NoneFree(fs.Entries()))
      ensures r != DISK_ERROR && r != 0 ==> |ch| > 0 && r == ch[0] >= 2
    {
      hide Partition, CreateOutcome, CountExact, NoneFree, Content, BufferMatches, Fits, Volume.Logical,
           Volume.Entries, Volume.Mirrored;
      ghost var a := Alloc(fs.Entries(), fs.freeClst);
      FatentBounds(fs.geo);
      r := CreateChain(fs, 0);
      if r != DISK_ERROR {
        ghost var b := Alloc(fs.Entries(), fs.freeClst);
        StartOutcome(a, chains, EndMark(fs.geo), r, b);
        if r != 0 {
          chains := chains + {[r]};
          ch := [r];
          sclust := r;
          ChainOk(fs.geo, b.fat, chains, ch);
        }
        CoreOverFats();
        ContentOverFats();
        BufferOverFats();
        ChainsNotEmpty(a.fat, old(chains));
      }
    }

    /** The chain element that holds the first sector of cluster `j / csize` of the file follows the one before it. */
    lemma NextCluster(j: nat)
      requires ClustersOk(fs.geo, ch) && j > 0 && SectorInCluster(fs.geo, j) == 0
      ensures ClusterIndex(fs.geo, j) == ClusterIndex(fs.geo, j - 1) + 1
      ensures ClusterIndex(fs.geo, j) < |ch| ==> j < |Sectors()|
    {
      hide Span, SectorInCluster, ClusterIndex;
      var g, q := fs.geo, ClusterIndex(fs.geo, j);
      PlaceOfSector(g, j);
      SpanGrows(g.csize, 0, q);
      if q == 0 {
        assert Span(g.csize, 0) == 0 by { EmptySpan(g.csize); }
      }
      SpanGrows(g.csize, q - 1, q);
      QuotientUnique(g, j - 1, q - 1, g.csize - 1);
      IndexInChain(g, |ch|, j);
    }

    /** A cluster boundary right behind the last element of the chain is the end of the file's sectors. */
    lemma ChainEnd(j: nat)
      requires ClustersOk(fs.geo, ch) && SectorInCluster(fs.geo, j) == 0 && ClusterIndex(fs.geo, j) == |ch|
      ensures j == |Sectors()|
    {
      hide Span, SectorInCluster, ClusterIndex;
      PlaceOfSector(fs.geo, j);
    }

    static lemma EmptySpan(k: nat)
      ensures Span(k, 0) == 0
    {
    }

    /** What `f_write` does at a cluster boundary: it moves to the next cluster, creating or stretching the chain. */
    method AdvanceForWrite() returns (full: bool, res: FResult)
      requires Valid() && fptr % SECTOR_SIZE == 0 && SectorInCluster(fs.geo, fptr / SECTOR_SIZE) == 0
      modifies this`ch, this`chains, this`sclust, this`clust, fs, fs.win, fs.disk
      ensures fs.Valid() && fs.disk.faults >= old(fs.disk.faults)
      ensures res == FrOk || (fs.disk.faults > old(fs.disk.faults) && (res == FrDiskErr || res == FrIntErr))
      ensures res == FrOk ==> Core() && BufferMatches() && OthersKept() && Content() == old(Content())
      ensures res == FrOk && full ==> Positioned() && (fs.freeClst == 0 || NoneFree(fs.Entries()))
      ensures res == FrOk && full ==> fptr == |Sectors()| * SECTOR_SIZE
      ensures res == FrOk && !full ==> ClusterAt(fptr / SECTOR_SIZE)
    {
      hide Allocated, NoneFree, Content, BufferMatches, Fits, Span, SectorInCluster, ClusterIndex, Volume.Logical,
           Volume.Entries, Volume.Mirrored;
      var clst;
      full, res := false, FrOk;
      ghost var j := fptr / SECTOR_SIZE;
      if fptr == 0 {
        QuotientOfZero(fs.geo);
        clst := sclust;
        if clst == 0 {
          clst := StartChain();
        }
      } else {
        NextCluster(j);
        clst := FollowChain(clust, ClusterIndex(fs.geo, j - 1));
      }
      if clst == 0 {
        full := true;
        ChainEnd(j);
        return;
      }
      if clst == INTERNAL_ERROR || clst == DISK_ERROR {
        res := if clst == INTERNAL_ERROR then FrIntErr else FrDiskErr;
        return;
      }
      clust := clst;
      IndexInChain(fs.geo, |ch|, j);
    }

    /** `clst2sect` of the current cluster, plus the offset in it, is the file's sector `j`. */
    lemma SectorOfCluster(j: nat)
      requires fs.geo.Layout() && ClustersOk(fs.geo, ch) && ClusterAt(j)
      ensures fs.geo.ClstToSect(clust) > 0
      ensures fs.geo.ClstToSect(clust) + SectorInCluster(fs.geo, j) == Sectors()[j]
    {
      hide Span, SectorInCluster, ClusterIndex, Geometry.Layout, Geometry.ClstToSect;
      ClstToSectIsFirst(fs.geo, clust);
    }

    /** Copies `x` into the buffer from index `at` on. */
    method FillBuf(at: nat, x: seq<byte>)
      requires buf.Length == 512 && at + |x| <= 512
      modifies buf
      ensures buf[..] == Splice(old(buf[..]), at, x)
    {
      forall i | 0 <= i < |x| {
        buf[at + i] := x[i];
      }
    }

    /** The effect of a direct write on the file's bytes and on a clean buffer. */
    lemma DirectWriteEffect(v: seq<Sector>, s: seq<nat>, size: nat, j: nat, x: seq<byte>)
      requires SectorsOk(v, s) && j * SECTOR_SIZE <= size <= |s| * SECTOR_SIZE
      requires |x| % SECTOR_SIZE == 0 && |x| > 0 && j + |x| / SECTOR_SIZE <= |s|
      requires forall k :: j <= k < j + |x| / SECTOR_SIZE ==> s[k] == s[j] + (k - j)
      ensures var w, n := WriteSectors(v, s[j], x), |x| / SECTOR_SIZE;
              && j * SECTOR_SIZE + |x| <= |s| * SECTOR_SIZE
              && Gather(w, s, if j * SECTOR_SIZE + |x| > size then j * SECTOR_SIZE + |x| else size)
                 == Patched(Gather(v, s, size), j * SECTOR_SIZE, x)
              && forall i :: 0 <= i < |v| && !(s[j] <= i < s[j] + n) ==> w[i] == v[i]
    {
      WriteRun(v, s, j, x);
      PatchRun(v, WriteSectors(v, s[j], x), s, size, j, x);
    }

    /** The bytes of the file's sectors, up to `size`. */
    ghost function Extent(size: nat): (c: seq<byte>)
      reads this`fptr, this`objsize, this`sclust, this`sect, this`dirty, this`ch, this`chains, buf, fs, fs.win,
            fs.disk`sectors
      requires Core() && size <= |Sectors()| * SECTOR_SIZE
      ensures |c| == size
    {
      SectorsFit();
      Gather(View(), Sectors(), size)
    }

    /** The pointer update at the end of an iteration of `f_write`. */
    method StepForward(n: nat)
      requires Core() && BufferMatches() && n > 0 && fptr + n < TWO_32
      requires ClusterAt((fptr + n - 1) / SECTOR_SIZE)
      requires (fptr + n) % SECTOR_SIZE != 0 ==> sect == Sectors()[(fptr + n - 1) / SECTOR_SIZE]
      modifies this`fptr, this`objsize
      ensures Valid() && OthersKept() && View() == old(View())
      ensures fptr == old(fptr) + n && objsize == if fptr > old(objsize) then fptr else old(objsize)
      ensures old(objsize) <= |Sectors()| * SECTOR_SIZE && objsize <= |Sectors()| * SECTOR_SIZE
              && Content() == old(Extent(if fptr + n > objsize then fptr + n else objsize))
    {
      hide Allocated, Owned, Span, SectorInCluster, ClusterIndex, Volume.Logical, Volume.Entries, Volume.Mirrored,
           Gather;
      fptr := fptr + n;
      objsize := if fptr > objsize then fptr else objsize;
    }

    /** A run of sectors inside one cluster of the file: all are file sectors, so the window is dirty for none of
        them. */
    lemma RunOfFile(j: nat, n: nat)
      requires Core() && ClusterAt(j) && 0 < n && SectorInCluster(fs.geo, j) + n <= fs.geo.csize
      ensures j + n <= |Sectors()| && ClusterAt(j + n - 1)
      ensures forall k :: j <= k < j + n ==> Sectors()[k] == Sectors()[j] + (k - j)
      ensures fs.wflag ==> !(Sectors()[j] <= fs.winsect < Sectors()[j] + n)
      ensures Sectors()[j] + n <= |fs.disk.sectors| < TWO_32
    {
      hide Allocated, Span, SectorInCluster, ClusterIndex, Volume.Logical, Volume.Entries, FileSectors;
      RunInCluster(fs.geo, ch, j, n);
      SameCluster(fs.geo, j, n - 1);
      var s := Sectors();
      assert s[j + n - 1] == s[j] + (n - 1);
      if s[j] <= fs.winsect < s[j] + n {
        assert s[j + (fs.winsect - s[j])] == fs.winsect;
      }
    }

    /** Data written to a run of the file's own sectors is nobody else's business. */
    twostate lemma OthersOverData(n: nat)
      requires old(Core()) && Core() && ch == old(ch) && chains == old(chains)
               && fptr == old(fptr) && old(ClusterAt(fptr / SECTOR_SIZE))
      requires 0 < n && SectorInCluster(fs.geo, fptr / SECTOR_SIZE) + n <= fs.geo.csize
      requires |fs.disk.sectors| == |old(fs.disk.sectors)| && fs.disk.faults >= old(fs.disk.faults)
      requires forall i :: 0 <= i < |fs.disk.sectors|
                           && !(Sectors()[fptr / SECTOR_SIZE] <= i < Sectors()[fptr / SECTOR_SIZE] + n) ==>
                 fs.Logical()[i] == old(fs.Logical())[i]
      ensures OthersKept()
    {
      hide Allocated, Span, SectorInCluster, ClusterIndex, Volume.Logical, Volume.Entries, FileSectors;
      RunInCluster(fs.geo, ch, fptr / SECTOR_SIZE, n);
      var s, j := Sectors(), fptr / SECTOR_SIZE;
      forall i | s[j] <= i < s[j] + n
        ensures i in s
      {
        assert s[j + (i - s[j])] == i;
      }
    }

    /** The `disk_write` of a direct transfer. */
    method WriteRunData(s: nat, x: seq<byte>) returns (ok: bool)
      requires Core() && fptr % SECTOR_SIZE == 0 && ClusterAt(fptr / SECTOR_SIZE) && s == Sectors()[fptr / SECTOR_SIZE]
      requires |x| % SECTOR_SIZE == 0 && |x| > 0
      requires SectorInCluster(fs.geo, fptr / SECTOR_SIZE) + |x| / SECTOR_SIZE <= fs.geo.csize
      modifies fs.disk
      ensures fs.Valid() && fs.disk.faults >= old(fs.disk.faults)
      ensures !ok ==> fs.disk.faults > old(fs.disk.faults)
      ensures ok ==> Core() && OthersKept() && fs.Logical() == WriteSectors(old(fs.Logical()), s, x)
    {
      hide Allocated, OthersKept, Span, SectorInCluster, ClusterIndex, Volume.Entries, Volume.Mirrored, Volume.Logical,
           FileSectors, WriteSectors;
      RunOfFile(fptr / SECTOR_SIZE, |x| / SECTOR_SIZE);
      ok := fs.WriteData(s, x);
      if ok {
        OthersOverData(|x| / SECTOR_SIZE);
      }
    }

    /** The unsigned test whether sector `a` is one of the `n` from `b` on. */
    static lemma WrapDistance(a: nat, b: nat, n: nat)
      requires a < TWO_32 && b + n <= TWO_32
      ensures (a - b) % TWO_32 < n <==> b <= a < b + n
      ensures b <= a ==> (a - b) % TWO_32 == a - b
    {
      assert (a - b) % TWO_32 == if b <= a then a - b else a - b + TWO_32;
    }

    /** The refill of a clean buffer that a direct write of `x` from sector `s` on went past. */
    method RefreshBuf(s: nat, x: seq<byte>, ghost v: seq<Sector>)
      requires Core() && !dirty && |x| % SECTOR_SIZE == 0 && s + |x| / SECTOR_SIZE <= |v| == |fs.Logical()|
      requires fs.Logical() == WriteSectors(v, s, x) && (sect in Sectors() ==> buf[..] == v[sect])
      modifies this`dirty, buf
      ensures Core() && BufferMatches() && !dirty && View() == fs.Logical() && fs.Logical() == old(fs.Logical())
    {
      hide Allocated, Owned, Volume.Entries, Volume.Mirrored, Volume.Logical, FileSectors, Geometry.Layout;
      SectorsFit();
      var cc, ofs := |x| / SECTOR_SIZE, (sect - s) % TWO_32;
      WrapDistance(sect, s, cc);
      if ofs < cc {
        FillBuf(0, x[ofs * SECTOR_SIZE..ofs * SECTOR_SIZE + SECTOR_SIZE]);
        dirty := false;
      }
    }

    /** The direct transfer of `f_write`: whole sectors inside one cluster, with the buffer refreshed if it holds one of
        them. */
    method DirectTransfer(s: nat, x: seq<byte>) returns (ok: bool)
      requires Core() && BufferMatches() && !dirty && fptr % SECTOR_SIZE == 0
      requires ClusterAt(fptr / SECTOR_SIZE) && s == Sectors()[fptr / SECTOR_SIZE]
      requires |x| % SECTOR_SIZE == 0 && |x| > 0
      requires SectorInCluster(fs.geo, fptr / SECTOR_SIZE) + |x| / SECTOR_SIZE <= fs.geo.csize
      modifies this`dirty, buf, fs.disk
      ensures fs.Valid() && fs.disk.faults >= old(fs.disk.faults)
      ensures !ok ==> fs.disk.faults > old(fs.disk.faults)
      ensures ok ==> Core() && BufferMatches() && OthersKept() && !dirty && fptr + |x| <= |Sectors()| * SECTOR_SIZE
      ensures ok ==> Extent(if fptr + |x| > objsize then fptr + |x| else objsize) == Patched(old(Content()), fptr, x)
    {
      hide Allocated, Span, SectorInCluster, ClusterIndex, Volume.Entries, Volume.Mirrored, Volume.Logical, Gather,
           FileSectors, Patched, WriteSectors, Geometry.Layout;
      ghost var v := fs.Logical();
      SectorsFit();
      RunOfFile(fptr / SECTOR_SIZE, |x| / SECTOR_SIZE);
      DirectWriteEffect(v, Sectors(), objsize, fptr / SECTOR_SIZE, x);
      ok := WriteRunData(s, x);
      if ok {
        RefreshBuf(s, x, v);
      }
    }

    /** The effect of a store into the buffer on the file's bytes. */
    static lemma BufferStoreEffect(l: seq<Sector>, dirty: bool, b: Sector, s: seq<nat>, size: nat, p: nat, x: seq<byte>)
      requires SectorsOk(l, s) && p <= size <= |s| * SECTOR_SIZE && p / SECTOR_SIZE < |s|
               && p % SECTOR_SIZE + |x| <= SECTOR_SIZE
      requires dirty || b == l[s[p / SECTOR_SIZE]] || (p % SECTOR_SIZE == 0 && p == size)
      ensures var at := s[p / SECTOR_SIZE];
              var w := Overlay(l, true, at, Splice(b, p % SECTOR_SIZE, x));
              && p + |x| <= |s| * SECTOR_SIZE
              && Gather(w, s, if p + |x| > size then p + |x| else size)
                == Patched(Gather(Overlay(l, dirty, at, b), s, size), p, x)
    {
      var at, ofs := s[p / SECTOR_SIZE], p % SECTOR_SIZE;
      var v, w := Overlay(l, dirty, at, b), Overlay(l, true, at, Splice(b, ofs, x));
      PatchOne(v, w, s, size, p, x);
    }

    /** The store of `f_write` into the buffer, which holds the sector that `fptr` is in. */
    method StoreInBuffer(x: seq<byte>)
      requires Core() && fptr / SECTOR_SIZE < |Sectors()| && sect == Sectors()[fptr / SECTOR_SIZE]
      requires |x| > 0 && fptr % SECTOR_SIZE + |x| <= SECTOR_SIZE
      requires dirty || buf[..] == fs.Logical()[sect] || (fptr % SECTOR_SIZE == 0 && fptr == objsize)
      modifies this`dirty, buf
      ensures Core() && BufferMatches() && OthersKept() && dirty && fptr + |x| <= |Sectors()| * SECTOR_SIZE
      ensures Extent(if fptr + |x| > objsize then fptr + |x| else objsize) == Patched(old(Content()), fptr, x)
    {
      hide Allocated, Volume.Entries, Volume.Mirrored, Volume.Logical, FileSectors, Geometry.Layout, Gather, Patched,
           Overlay;
      SectorsFit();
      BufferStoreEffect(fs.Logical(), dirty, buf[..], Sectors(), objsize, fptr, x);
      FillBuf(fptr % SECTOR_SIZE, x);
      dirty := true;
    }

    /** What `f_write` does before it stores in the buffer at a sector boundary: it loads the sector, unless the file
        ends here. */
    method LoadForWrite(s: nat) returns (ok: bool)
      requires Core() && BufferMatches() && !dirty && fptr % SECTOR_SIZE == 0
      requires fptr / SECTOR_SIZE < |Sectors()| && s == Sectors()[fptr / SECTOR_SIZE]
      modifies this`sect, buf, fs.disk`faults
      ensures fs.Valid() && fs.disk.faults >= old(fs.disk.faults)
      ensures !ok ==> fs.disk.faults > old(fs.disk.faults)
      ensures ok ==> Core() && OthersKept() && sect == s && Content() == old(Content())
      ensures ok ==> buf[..] == fs.Logical()[sect] || fptr == objsize
    {
      hide Allocated, Volume.Entries, Volume.Mirrored, FileSectors, Geometry.Layout, Gather;
      ok := true;
      if sect != s && fptr < objsize {
        ok := ReadBuf(s);
      }
      if ok {
        sect := s;
      }
    }

    /** A `disk_read` of one sector into the buffer. */
    method ReadBuf(s: nat) returns (ok: bool)
      requires Core() && s in Sectors()
      modifies buf, fs.disk`faults
      ensures fs.Valid() && fs.Logical() == old(fs.Logical()) && fs.disk.faults >= old(fs.disk.faults)
      ensures ok ==> buf[..] == fs.Logical()[s]
      ensures !ok ==> fs.disk.faults > old(fs.disk.faults)
    {
      hide Allocated, Volume.Entries, Volume.Mirrored, FileSectors, Geometry.Layout;
      ok := fs.disk.Read(s, 1, buf, 0);
      if ok {
        forall k | 0 <= k < 512
          ensures buf[k] == fs.disk.sectors[s][k]
        {
          assert buf[0 + k] == fs.disk.sectors[s + k / SECTOR_SIZE][k % SECTOR_SIZE];
        }
      }
    }

    static lemma QuotientOfZero(g: Geometry)
      requires g.csize > 0
      ensures ClusterIndex(g, 0) == 0
    {
    }

    /** Inside a cluster, the current cluster is also that of the next sector. */
    lemma StillInCluster(j: nat)
      requires ClustersOk(fs.geo, ch) && j > 0 && SectorInCluster(fs.geo, j) != 0 && ClusterAt(j - 1)
      ensures ClusterAt(j)
    {
      hide Span, SectorInCluster, ClusterIndex;
      var g, r := fs.geo, SectorInCluster(fs.geo, j - 1);
      PlaceOfSector(g, j - 1);
      SpanGrows(g.csize, ClusterIndex(g, j - 1), 0);
      if r + 1 == g.csize {
        QuotientUnique(g, j, ClusterIndex(g, j - 1) + 1, 0);
      } else {
        SameCluster(g, j - 1, 1);
      }
      IndexInChain(g, |ch|, j);
    }

    /** What `f_write` does at a sector boundary: it moves to the next cluster if need be and writes a dirty buffer
        back. */
    method EnterSectorForWrite() returns (s: nat, full: bool, res: FResult)
      requires Valid() && fptr % SECTOR_SIZE == 0
      modifies this`ch, this`chains, this`sclust, this`clust, this`dirty, fs, fs.win, fs.disk
      ensures fs.Valid() && fs.disk.faults >= old(fs.disk.faults)
      ensures res == FrOk || (fs.disk.faults > old(fs.disk.faults) && (res == FrDiskErr || res == FrIntErr))
      ensures res == FrOk ==> Core() && BufferMatches() && OthersKept() && Content() == old(Content())
      ensures res == FrOk && full ==> Positioned() && (fs.freeClst == 0 || NoneFree(fs.Entries()))
      ensures res == FrOk && full ==> fptr == |Sectors()| * SECTOR_SIZE
      ensures res == FrOk && !full ==> !dirty && ClusterAt(fptr / SECTOR_SIZE) && s == Sectors()[fptr / SECTOR_SIZE]
    {
      hide Allocated, NoneFree, Content, BufferMatches, Fits, KeptOutside, Span, SectorInCluster, ClusterIndex,
           Volume.Logical, Volume.Entries, Volume.Mirrored, FileSectors, Geometry.Layout;
      full, res, s := false, FrOk, 0;
      var csect := SectorInCluster(fs.geo, fptr / SECTOR_SIZE);
      ghost var l0 := fs.Logical();
      if csect == 0 {
        full, res := AdvanceForWrite();
        if res != FrOk || full {
          return;
        }
      } else {
        StartOfFile(fs.geo);
        StillInCluster(fptr / SECTOR_SIZE);
      }
      ghost var s1, l1 := Sectors(), fs.Logical();
      assert KeptOutside(fs.geo, s1, l0, l1) by { KeptAtOnce(fs.geo, s1, l0, l1); }
      var ok := FlushBuf();
      if !ok {
        return s, false, FrDiskErr;
      }
      KeptTwice(fs.geo, s1, Sectors(), l0, l1, fs.Logical());
      SectorOfCluster(fptr / SECTOR_SIZE);
      s := fs.geo.ClstToSect(clust);
      if s == 0 {
        return s, false, FrIntErr;
      }
      s := s + csect;
    }

    static lemma StartOfFile(g: Geometry)
      requires g.csize > 0
      ensures SectorInCluster(g, 0) == 0
    {
    }

    static lemma KeptAtOnce(g: Geometry, s: seq<nat>, v: seq<Sector>, w: seq<Sector>)
      requires v == w || KeptOutside(g, s, v, w)
      ensures KeptOutside(g, s, v, w)
    {
    }

    /** Stores as much of `x` as fits the rest of the sector that `fptr` is in, and moves on. */
    method WriteInBuffer(x: seq<byte>) returns (wcnt: nat)
      requires Core() && ClusterAt(fptr / SECTOR_SIZE) && sect == Sectors()[fptr / SECTOR_SIZE]
      requires |x| > 0 && fptr + |x| < TWO_32
      requires dirty || buf[..] == fs.Logical()[sect] || (fptr % SECTOR_SIZE == 0 && fptr == objsize)
      modifies this`fptr, this`objsize, this`dirty, buf
      ensures 0 < wcnt <= |x| && Valid() && OthersKept() && fptr == old(fptr) + wcnt
      ensures Content() == Patched(old(Content()), old(fptr), x[..wcnt])
    {
      hide Allocated, KeptOutside, Span, SectorInCluster, ClusterIndex, Volume.Logical, Volume.Entries,
           Volume.Mirrored, FileSectors, Geometry.Layout, Gather, Patched, View;
      wcnt := SECTOR_SIZE - fptr % SECTOR_SIZE;
      if wcnt > |x| {
        wcnt := |x|;
      }
      ghost var l, s := fs.Logical(), Sectors();
      StoreInBuffer(x[..wcnt]);
      StepForward(wcnt);
      KeptAtOnce(fs.geo, s, l, fs.Logical());
    }

    /** One iteration of `f_write` from a sector boundary when a whole sector is left. */
    method WriteDirect(s: nat, x: seq<byte>) returns (wcnt: nat, ok: bool)
      requires Core() && BufferMatches() && !dirty && fptr % SECTOR_SIZE == 0
      requires ClusterAt(fptr / SECTOR_SIZE) && s == Sectors()[fptr / SECTOR_SIZE]
      requires |x| >= SECTOR_SIZE && fptr + |x| < TWO_32
      modifies this`fptr, this`objsize, this`dirty, buf, fs.disk
      ensures fs.Valid() && fs.disk.faults >= old(fs.disk.faults)
      ensures !ok ==> fs.disk.faults > old(fs.disk.faults)
      ensures ok ==> 0 < wcnt <= |x| && Valid() && OthersKept() && fptr == old(fptr) + wcnt
      ensures ok ==> Content() == Patched(old(Content()), old(fptr), x[..wcnt])
    {
      hide Allocated, KeptOutside, Span, SectorInCluster, ClusterIndex, Volume.Logical, Volume.Entries,
           Volume.Mirrored, FileSectors, Geometry.Layout, Gather, Patched, View, Content;
      var csect := SectorInCluster(fs.geo, fptr / SECTOR_SIZE);
      var cc := |x| / SECTOR_SIZE;
      if csect + cc > fs.geo.csize {
        cc := fs.geo.csize - csect;
      }
      RunOfFile(fptr / SECTOR_SIZE, cc);
      wcnt := SECTOR_SIZE * cc;
      ok := DirectTransfer(s, x[..wcnt]);
      if ok {
        StepForward(wcnt);
      }
    }

    /** One iteration of `f_write` from a sector boundary, in sector `s` of the file. */
    method WriteFromBoundary(s: nat, x: seq<byte>) returns (wcnt: nat, ok: bool)
      requires Core() && BufferMatches() && !dirty && fptr % SECTOR_SIZE == 0
      requires ClusterAt(fptr / SECTOR_SIZE) && s == Sectors()[fptr / SECTOR_SIZE]
      requires |x| > 0 && fptr + |x| < TWO_32
      modifies this`fptr, this`objsize, this`dirty, this`sect, buf, fs.disk
      ensures fs.Valid() && fs.disk.faults >= old(fs.disk.faults)
      ensures !ok ==> fs.disk.faults > old(fs.disk.faults)
      ensures ok ==> 0 < wcnt <= |x| && Valid() && OthersKept() && fptr == old(fptr) + wcnt
      ensures ok ==> Content() == Patched(old(Content()), old(fptr), x[..wcnt])
    {
      hide Allocated, KeptOutside, Span, SectorInCluster, ClusterIndex, Volume.Logical, Volume.Entries,
           Volume.Mirrored, FileSectors, Geometry.Layout, Gather, Patched, View, Content, BufferMatches;
      wcnt := 0;
      if |x| / SECTOR_SIZE > 0 {
        wcnt, ok := WriteDirect(s, x);
      } else {
        ok := LoadForWrite(s);
        if ok {
          wcnt := WriteInBuffer(x);
        }
      }
    }

    /** One iteration of the loop of `f_write`. */
    method WriteChunk(x: seq<byte>) returns (wcnt: nat, full: bool, res: FResult)
      requires Valid() && |x| > 0 && fptr + |x| < TWO_32
      modifies this`ch, this`chains, this`sclust, this`clust, this`fptr, this`objsize, this`dirty, this`sect, buf, fs,
               fs.win, fs.disk
      ensures fs.Valid() && fs.disk.faults >= old(fs.disk.faults)
      ensures res == FrOk || (fs.disk.faults > old(fs.disk.faults) && (res == FrDiskErr || res == FrIntErr))
      ensures res == FrOk ==> Valid() && OthersKept() && wcnt <= |x| && fptr == old(fptr) + wcnt
      ensures res == FrOk ==> Content() == Patched(old(Content()), old(fptr), x[..wcnt])
      ensures res == FrOk ==> (full <==> wcnt == 0)
      ensures res == FrOk && full ==> (fs.freeClst == 0 || NoneFree(fs.Entries())) && fptr == |Sectors()| * SECTOR_SIZE
    {
      hide Allocated, KeptOutside, Span, SectorInCluster, ClusterIndex, Volume.Logical, Volume.Entries,
           Volume.Mirrored, FileSectors, Geometry.Layout, Gather, Patched, View, Content, NoneFree;
      wcnt, full, res := 0, false, FrOk;
      ghost var l0 := fs.Logical();
      PatchedNothing(Content(), fptr);
      if fptr % SECTOR_SIZE == 0 {
        var s;
        s, full, res := EnterSectorForWrite();
        if res != FrOk || full {
          return;
        }
        ghost var t, l1 := Sectors(), fs.Logical();
        var ok;
        wcnt, ok := WriteFromBoundary(s, x);
        if !ok {
          res := FrDiskErr;
          return;
        }
        KeptTwice(fs.geo, t, Sectors(), l0, l1, fs.Logical());
      } else {
        assert (fptr - 1) / SECTOR_SIZE == fptr / SECTOR_SIZE;
        wcnt := WriteInBuffer(x);
      }
    }

    /** The largest write that does not pass the 4 GiB - 1 limit. */
    function ClippedWrite(btw: nat): (n: nat)
      reads this`fptr
      requires fptr < TWO_32
    {
      if (fptr + btw) % TWO_32 < fptr then 0xFFFF_FFFF - fptr else btw
    }

    /** The loop of `f_write`. */
    method WriteLoop(wbuff: seq<byte>) returns (res: FResult, bw: nat)
      requires Valid() && fptr + |wbuff| < TWO_32
      modifies this`ch, this`chains, this`sclust, this`clust, this`fptr, this`objsize, this`dirty, this`sect, buf, fs,
               fs.win, fs.disk
      ensures res == FrOk || fs.disk.faults > old(fs.disk.faults)
      ensures res == FrOk ==> Valid() && OthersKept() && fptr == old(fptr) + bw
      ensures res == FrOk ==> bw <= |wbuff| && Content() == Patched(old(Content()), old(fptr), wbuff[..bw])
      ensures res == FrOk && bw < |wbuff| ==>
                (fs.freeClst == 0 || NoneFree(fs.Entries())) && fptr == |Sectors()| * SECTOR_SIZE
    {
      hide Allocated, KeptOutside, Volume.Logical, Volume.Entries, Volume.Mirrored, FileSectors, Geometry.Layout,
           Gather, Patched, View, Content, BufferMatches, NoneFree, Positioned;
      bw := 0;
      var btw: nat := |wbuff|;
      ghost var p, c, l := fptr, Content(), fs.Logical();
      PatchedNothing(c, p);
      KeptRefl(fs.geo, Sectors(), l);
      while btw > 0
        invariant Valid() && OthersKept()
        invariant 0 <= bw <= |wbuff| && bw + btw == |wbuff| && fptr == p + bw
        invariant Content() == Patched(c, p, wbuff[..bw])
        invariant fs.disk.faults >= old(fs.disk.faults)
      {
        ghost var l1, t := fs.Logical(), Sectors();
        var wcnt, full;
        wcnt, full, res := WriteChunk(wbuff[bw..]);
        if res != FrOk {
          return;
        }
        KeptTwice(fs.geo, t, Sectors(), l, l1, fs.Logical());
        PatchedTwice(c, p, wbuff[..bw], wbuff[bw..][..wcnt]);
        assert wbuff[..bw] + wbuff[bw..][..wcnt] == wbuff[..bw + wcnt];
        btw, bw := btw - wcnt, bw + wcnt;
        if full {
          break;
        }
      }
      res := FrOk;
    }

    /** `f_write`: the bytes from `fptr` on become the written ones, the rest of the file keeps its bytes, and the file
        may grow; fewer bytes than asked are written only at 4 GiB - 1 or on a full disk. */
    method Write(wbuff: seq<byte>) returns (res: FResult, bw: nat)
      requires err == FrOk ==> Valid()
      requires |wbuff| < TWO_32
      modifies this, buf, fs, fs.win, fs.disk
      ensures old(err) != FrOk ==> res == old(err) && bw == 0
      ensures old(err) == FrOk && !canWrite ==>
                res == FrDenied && bw == 0 && Valid() && Content() == old(Content()) && fptr == old(fptr)
      ensures old(err) == FrOk && canWrite && res != FrOk ==> err == res && fs.disk.faults > old(fs.disk.faults)
      ensures old(err) == FrOk && canWrite && res == FrOk ==>
                && Valid() && OthersKept() && modified && bw <= |wbuff|
                && fptr == old(fptr) + bw && Content() == Patched(old(Content()), old(fptr), wbuff[..bw])
                && fptr <= 0xFFFF_FFFF
                && (bw == |wbuff| || fptr == 0xFFFF_FFFF
                    || (NoneFree(fs.Entries()) && fptr == |Sectors()| * SECTOR_SIZE))
    {
      hide Allocated, KeptOutside, Volume.Logical, Volume.Entries, Volume.Mirrored, FileSectors, Geometry.Layout,
           Gather, Patched, View, Content, BufferMatches, NoneFree, Positioned;
      bw := 0;
      if err != FrOk {
        return err, 0;
      }
      if !canWrite {
        return FrDenied, 0;
      }
      res, bw := WriteLoop(wbuff[..ClippedWrite(|wbuff|)]);
      if res != FrOk {
        err := res;
        return;
      }
      modified := true;
      CountedFull();
    }

    static lemma KeptRefl(g: Geometry, s: seq<nat>, v: seq<Sector>)
      ensures KeptOutside(g, s, v, v)
    {
    }

    /** What `f_read` does at a cluster boundary: it follows the chain. */
    method AdvanceForRead() returns (res: FResult)
      requires Valid() && fptr % SECTOR_SIZE == 0 && SectorInCluster(fs.geo, fptr / SECTOR_SIZE) == 0 && fptr < objsize
      modifies this`clust, fs`wflag, fs`winsect, fs.win, fs.disk
      ensures fs.Valid() && fs.disk.faults >= old(fs.disk.faults)
      ensures res == FrOk || (fs.disk.faults > old(fs.disk.faults) && (res == FrDiskErr || res == FrIntErr))
      ensures res == FrOk ==>
                && Core() && BufferMatches() && OthersKept() && Content() == old(Content())
                && ClusterAt(fptr / SECTOR_SIZE)
    {
      hide Partition, CountExact, NoneFree, Content, BufferMatches, Fits, Span, SectorInCluster, ClusterIndex,
           Volume.Logical, Volume.Entries, Volume.Mirrored, FileSectors, Geometry.Layout, KeptOutside, SameButMirror;
      ghost var j, l, t := fptr / SECTOR_SIZE, fs.Logical(), fs.Entries();
      var clst;
      FatentBounds(fs.geo);
      InsideFile(j);
      IndexInChain(fs.geo, |ch|, j);
      KeptRefl(fs.geo, Sectors(), l);
      if fptr == 0 {
        QuotientOfZero(fs.geo);
        clst := sclust;
        HeadInUse(t, chains, ch);
      } else {
        NextCluster(j);
        NextInChain(t, chains, ch, ClusterIndex(fs.geo, j - 1));
        clst := fs.GetFat(clust);
        MirrorIsFat(fs.geo, l, fs.Logical());
        CoreOverFats();
        ContentOverFats();
        BufferOverFats();
        MirrorIsKept(fs.geo, Sectors(), l, fs.Logical());
      }
      if clst < 2 {
        return FrIntErr;
      }
      if clst == DISK_ERROR {
        return FrDiskErr;
      }
      clust := clst;
      res := FrOk;
    }

    static lemma MirrorIsKept(g: Geometry, s: seq<nat>, v: seq<Sector>, w: seq<Sector>)
      requires SameButMirror(g, v, w)
      ensures KeptOutside(g, s, v, w)
    {
    }

    static lemma HeadInUse(fat: seq<nat>, chains: set<seq<nat>>, s: seq<nat>)
      requires Partition(fat, chains) && s in chains && |s| > 0
      ensures 2 <= s[0] < |fat|
    {
      NextInChain(fat, chains, s, 0);
    }

    lemma InsideFile(j: nat)
      requires Core() && j * SECTOR_SIZE < objsize
      ensures j < |Sectors()|
    {
    }

    /** Sectors `d` from `s` on, with the dirty sector `b` at `sect` laid over them if it is one of them. */
    static ghost function Overlaid(d: seq<byte>, s: nat, cc: nat, dirty: bool, sect: nat, b: seq<byte>): (r: seq<byte>)
      requires |d| == SECTOR_SIZE * cc && |b| == SECTOR_SIZE
      ensures |r| == |d|
    {
      if dirty && s <= sect < s + cc then Splice(d, (sect - s) * SECTOR_SIZE, b) else d
    }

    static lemma OverlaidEither(d: seq<byte>, s: nat, cc: nat, dirty: bool, sect: nat, b: seq<byte>)
      requires |d| == SECTOR_SIZE * cc && |b| == SECTOR_SIZE
      ensures dirty && s <= sect < s + cc ==>
                Overlaid(d, s, cc, dirty, sect, b) == Splice(d, (sect - s) * SECTOR_SIZE, b)
      ensures !(dirty && s <= sect < s + cc) ==> Overlaid(d, s, cc, dirty, sect, b) == d
    {
    }

    /** Whole sectors `d` read from the disk, with the dirty sector `b` laid over them, are bytes of the file. */
    static lemma ReadEffect(l: seq<Sector>, dirty: bool, sect: nat, b: Sector, s: seq<nat>, size: nat, j: nat, cc: nat,
                            d: seq<byte>)
      requires SectorsOk(l, s) && size <= |s| * SECTOR_SIZE && (j + cc) * SECTOR_SIZE <= size && |d| == cc * SECTOR_SIZE
      requires 0 < cc && s[j] + cc <= |l| && (dirty ==> sect < |l|)
      requires forall i :: j <= i < j + cc ==> s[i] == s[j] + (i - j)
      requires forall k :: 0 <= k < |d| ==> d[k] == l[s[j] + k / SECTOR_SIZE][k % SECTOR_SIZE]
      ensures Overlaid(d, s[j], cc, dirty, sect, b)
           == Gather(Overlay(l, dirty, sect, b), s, size)[j * SECTOR_SIZE..(j + cc) * SECTOR_SIZE]
    {
      var e := Overlaid(d, s[j], cc, dirty, sect, b);
      var v := Overlay(l, dirty, sect, b);
      var g := Gather(v, s, size)[j * SECTOR_SIZE..(j + cc) * SECTOR_SIZE];
      forall k | 0 <= k < |d|
        ensures e[k] == g[k]
      {
        assert (j * SECTOR_SIZE + k) / SECTOR_SIZE == j + k / SECTOR_SIZE
               && (j * SECTOR_SIZE + k) % SECTOR_SIZE == k % SECTOR_SIZE;
        assert s[j + k / SECTOR_SIZE] == s[j] + k / SECTOR_SIZE;
        assert e[k] == v[s[j] + k / SECTOR_SIZE][k % SECTOR_SIZE];
      }
    }

    /** The sectors from `s` on, one after the other. */
    static ghost function Run(l: seq<Sector>, s: nat, cc: nat): (d: seq<byte>)
      requires s + cc <= |l|
      ensures |d| == cc * SECTOR_SIZE && forall k :: 0 <= k < |d| ==> d[k] == l[s + k / SECTOR_SIZE][k % SECTOR_SIZE]
    {
      seq(cc * SECTOR_SIZE, k requires 0 <= k < cc * SECTOR_SIZE => l[s + k / SECTOR_SIZE][k % SECTOR_SIZE])
    }

    /** The `disk_read` of a direct transfer. */
    method ReadRun(s: nat, cc: nat, rbuff: array<byte>, at: nat) returns (ok: bool)
      requires Core() && at + SECTOR_SIZE * cc <= rbuff.Length && rbuff != buf && rbuff != fs.win
      requires s + cc <= |fs.disk.sectors| && (fs.wflag ==> !(s <= fs.winsect < s + cc))
      modifies rbuff, fs.disk`faults
      ensures fs.disk.faults >= old(fs.disk.faults) && (!ok ==> fs.disk.faults > old(fs.disk.faults))
      ensures Core()
      ensures rbuff[..at] == old(rbuff[..at]) && rbuff[at + SECTOR_SIZE * cc..] == old(rbuff[at + SECTOR_SIZE * cc..])
      ensures ok ==> rbuff[at..at + SECTOR_SIZE * cc] == Run(fs.Logical(), s, cc)
    {
      hide Allocated, Owned, Fits, Volume.Entries, Volume.Mirrored, FileSectors, Geometry.Layout;
      ok := fs.disk.Read(s, cc, rbuff, at);
      if ok {
        ghost var d, r := rbuff[at..at + SECTOR_SIZE * cc], Run(fs.Logical(), s, cc);
        forall k | 0 <= k < |d|
          ensures d[k] == r[k]
        {
          assert d[k] == rbuff[at + k];
        }
      }
    }

    /** The direct transfer of `f_read`: sectors read into the caller's buffer, with a dirty sector laid over them. */
    method DirectRead(s: nat, cc: nat, rbuff: array<byte>, at: nat) returns (ok: bool)
      requires Core() && fptr % SECTOR_SIZE == 0 && ClusterAt(fptr / SECTOR_SIZE) && s == Sectors()[fptr / SECTOR_SIZE]
      requires 0 < cc && SectorInCluster(fs.geo, fptr / SECTOR_SIZE) + cc <= fs.geo.csize
      requires fptr + SECTOR_SIZE * cc <= objsize && at + SECTOR_SIZE * cc <= rbuff.Length
      requires rbuff != buf && rbuff != fs.win
      modifies rbuff, fs.disk`faults
      ensures fs.disk.faults >= old(fs.disk.faults) && (!ok ==> fs.disk.faults > old(fs.disk.faults))
      ensures Core()
      ensures rbuff[..at] == old(rbuff[..at]) && rbuff[at + SECTOR_SIZE * cc..] == old(rbuff[at + SECTOR_SIZE * cc..])
      ensures ok ==> rbuff[at..at + SECTOR_SIZE * cc] == old(Content())[fptr..fptr + SECTOR_SIZE * cc]
    {
      hide Core, Content, Sectors, Overlaid, Allocated, Span, SectorInCluster, ClusterIndex, ClusterAt, Volume.Valid,
           Volume.Logical, Geometry.Layout, Gather, Run;
      FileRun(s, cc);
      ok := ReadRun(s, cc, rbuff, at);
      if ok {
        OverlayRead(s, cc, rbuff, at);
      }
    }

    /** A run of the file's sectors, with a dirty buffer laid over it, is a stretch of the file. */
    lemma FileRun(s: nat, cc: nat)
      requires Core() && fptr % SECTOR_SIZE == 0 && ClusterAt(fptr / SECTOR_SIZE) && s == Sectors()[fptr / SECTOR_SIZE]
      requires 0 < cc && SectorInCluster(fs.geo, fptr / SECTOR_SIZE) + cc <= fs.geo.csize
               && fptr + SECTOR_SIZE * cc <= objsize
      ensures buf.Length == SECTOR_SIZE && sect < TWO_32 && s + cc <= |fs.disk.sectors| == |fs.Logical()| < TWO_32
      ensures fs.wflag ==> !(s <= fs.winsect < s + cc)
      ensures Overlaid(Run(fs.Logical(), s, cc), s, cc, dirty, sect, buf[..])
                == Content()[fptr..fptr + SECTOR_SIZE * cc]
    {
      hide Overlaid, Positioned, Allocated, Span, SectorInCluster, ClusterIndex, Volume.Logical, Volume.Entries,
           Volume.Mirrored, FileSectors, Geometry.Layout, Gather, Overlay, Run;
      SectorsFit();
      RunOfFile(fptr / SECTOR_SIZE, cc);
      ReadEffect(fs.Logical(), dirty, sect, buf[..], Sectors(), objsize, fptr / SECTOR_SIZE, cc,
                 Run(fs.Logical(), s, cc));
    }

    /** The part of a direct read that lays a dirty buffer over the sectors read. */
    method OverlayRead(s: nat, cc: nat, rbuff: array<byte>, at: nat)
      requires buf.Length == 512 && rbuff != buf && sect < TWO_32 && s + cc <= TWO_32
               && at + SECTOR_SIZE * cc <= rbuff.Length
      modifies rbuff
      ensures rbuff[..at] == old(rbuff[..at]) && rbuff[at + SECTOR_SIZE * cc..] == old(rbuff[at + SECTOR_SIZE * cc..])
      ensures rbuff[at..at + SECTOR_SIZE * cc]
                == Overlaid(old(rbuff[at..at + SECTOR_SIZE * cc]), s, cc, dirty, sect, buf[..])
    {
      hide Overlaid, Splice;
      var ofs := (sect - s) % TWO_32;
      WrapDistance(sect, s, cc);
      OverlaidEither(rbuff[at..at + SECTOR_SIZE * cc], s, cc, dirty, sect, buf[..]);
      if dirty && ofs < cc {
        CopyBuf(rbuff, at, SECTOR_SIZE * cc, ofs * SECTOR_SIZE);
      }
    }

    /** Copies the whole buffer over `rbuff`, `ofs` bytes into the stretch of `n` bytes from index `at` on. */
    method CopyBuf(rbuff: array<byte>, at: nat, n: nat, ofs: nat)
      requires buf.Length == SECTOR_SIZE && ofs + SECTOR_SIZE <= n && at + n <= rbuff.Length && rbuff != buf
      modifies rbuff
      ensures rbuff[..at] == old(rbuff[..at]) && rbuff[at + n..] == old(rbuff[at + n..])
      ensures rbuff[at..at + n] == Splice(old(rbuff[at..at + n]), ofs, buf[..])
    {
      ghost var was := rbuff[..];
      forall k | 0 <= k < SECTOR_SIZE {
        rbuff[at + ofs + k] := buf[k];
      }
      SpliceInside(was, rbuff[..], at, n, ofs, buf[..]);
      assert was[at..at + n] == old(rbuff[at..at + n]) && rbuff[..][at..at + n] == rbuff[at..at + n];
    }

    /** Bytes stored inside a stretch. */
    static lemma SpliceInside(r: seq<byte>, s: seq<byte>, at: nat, n: nat, ofs: nat, x: seq<byte>)
      requires at + n <= |r| == |s| && ofs + |x| <= n
      requires forall k :: 0 <= k < |r| ==> s[k] == if at + ofs <= k < at + ofs + |x| then x[k - at - ofs] else r[k]
      ensures s[at..at + n] == Splice(r[at..at + n], ofs, x)
      ensures s[..at] == r[..at] && s[at + n..] == r[at + n..]
    {
      hide Splice;
      var a, b := s[at..at + n], Splice(r[at..at + n], ofs, x);
      forall k | 0 <= k < n
        ensures a[k] == b[k]
      {
        assert a[k] == s[at + k] && r[at..at + n][k] == r[at + k];
      }
    }

    /** What `f_read` does at a sector boundary: it finds the sector, following the chain if need be. */
    method EnterSectorForRead() returns (s: nat, res: FResult)
      requires Valid() && fptr % SECTOR_SIZE == 0 && fptr < objsize
      modifies this`clust, fs`wflag, fs`winsect, fs.win, fs.disk
      ensures fs.Valid() && fs.disk.faults >= old(fs.disk.faults)
      ensures res == FrOk || (fs.disk.faults > old(fs.disk.faults) && (res == FrDiskErr || res == FrIntErr))
      ensures res == FrOk ==> Core() && BufferMatches() && OthersKept() && Content() == old(Content())
      ensures res == FrOk ==> ClusterAt(fptr / SECTOR_SIZE) && s == Sectors()[fptr / SECTOR_SIZE]
    {
      hide Allocated, Content, BufferMatches, Fits, KeptOutside, Span, SectorInCluster, ClusterIndex, Volume.Logical,
           Volume.Entries, Volume.Mirrored, FileSectors, Geometry.Layout;
      s, res := 0, FrOk;
      var csect := SectorInCluster(fs.geo, fptr / SECTOR_SIZE);
      KeptRefl(fs.geo, Sectors(), fs.Logical());
      if csect == 0 {
        res := AdvanceForRead();
        if res != FrOk {
          return;
        }
      } else {
        StartOfFile(fs.geo);
        StillInCluster(fptr / SECTOR_SIZE);
      }
      SectorOfCluster(fptr / SECTOR_SIZE);
      s := fs.geo.ClstToSect(clust);
      if s == 0 {
        return s, FrIntErr;
      }
      s := s + csect;
    }

    /** Makes the buffer hold sector `s` of the file, writing a dirty one back first. */
    method LoadForRead(s: nat) returns (ok: bool)
      requires Core() && BufferMatches() && s in Sectors()
      modifies this`sect, this`dirty, buf, fs.disk
      ensures fs.Valid() && fs.disk.faults >= old(fs.disk.faults)
      ensures !ok ==> fs.disk.faults > old(fs.disk.faults)
      ensures ok ==> Core() && BufferMatches() && OthersKept() && sect == s && Content() == old(Content())
      ensures ok ==> fs.Entries() == old(fs.Entries())
    {
      hide Allocated, KeptOutside, Volume.Entries, Volume.Mirrored, FileSectors, Geometry.Layout, Gather;
      ok := true;
      KeptRefl(fs.geo, Sectors(), fs.Logical());
      if sect != s {
        ok := FlushBuf();
        if ok {
          ok := ReadBuf(s);
        }
      }
      if ok {
        sect := s;
      }
    }

    /** The bytes of the file that are in the buffer. */
    lemma BufferBytes(n: nat)
      requires Core() && BufferMatches() && fptr / SECTOR_SIZE < |Sectors()| && sect == Sectors()[fptr / SECTOR_SIZE]
      requires fptr % SECTOR_SIZE + n <= SECTOR_SIZE && fptr + n <= objsize
      ensures buf.Length == SECTOR_SIZE
      ensures buf[fptr % SECTOR_SIZE..fptr % SECTOR_SIZE + n] == Content()[fptr..fptr + n]
    {
      hide Allocated, Volume.Logical, Volume.Entries, FileSectors, Geometry.Layout;
      SectorsFit();
      var b, c := buf[fptr % SECTOR_SIZE..fptr % SECTOR_SIZE + n], Content()[fptr..fptr + n];
      assert View()[sect] == buf[..];
      forall k | 0 <= k < n
        ensures b[k] == c[k]
      {
        assert (fptr + k) / SECTOR_SIZE == fptr / SECTOR_SIZE && (fptr + k) % SECTOR_SIZE == fptr % SECTOR_SIZE + k;
      }
    }

    /** Copies `n` bytes of the buffer, from `fptr` on, to the caller. */
    method CopyOut(n: nat, rbuff: array<byte>, at: nat)
      requires Core() && BufferMatches() && fptr / SECTOR_SIZE < |Sectors()| && sect == Sectors()[fptr / SECTOR_SIZE]
      requires fptr % SECTOR_SIZE + n <= SECTOR_SIZE && fptr + n <= objsize
      requires at + n <= rbuff.Length && rbuff != buf && rbuff != fs.win
      modifies rbuff
      ensures rbuff[..at] == old(rbuff[..at]) && rbuff[at + n..] == old(rbuff[at + n..])
      ensures rbuff[at..at + n] == old(Content())[fptr..fptr + n]
    {
      hide Core, BufferMatches, Sectors, Allocated, Content, Owned, Volume.Logical, Volume.Entries, FileSectors,
           Geometry.Layout;
      BufferBytes(n);
      CopySlice(fptr % SECTOR_SIZE, n, rbuff, at);
    }

    /** Copies `n` bytes of the buffer from `ofs` on. */
    method CopySlice(ofs: nat, n: nat, rbuff: array<byte>, at: nat)
      requires ofs + n <= buf.Length && at + n <= rbuff.Length && rbuff != buf
      modifies rbuff
      ensures rbuff[..at] == old(rbuff[..at]) && rbuff[at + n..] == old(rbuff[at + n..])
      ensures rbuff[at..at + n] == buf[ofs..ofs + n]
    {
      ghost var was := rbuff[..];
      forall k | 0 <= k < n {
        rbuff[at + k] := buf[ofs + k];
      }
      assert rbuff[..] == was[..at] + buf[ofs..ofs + n] + was[at + n..];
    }

    /** The pointer update at the end of an iteration of `f_read`. */
    method StepInside(n: nat)
      requires Core() && BufferMatches() && n > 0 && fptr + n <= objsize && ClusterAt((fptr + n - 1) / SECTOR_SIZE)
      requires (fptr + n) % SECTOR_SIZE != 0 ==> sect == Sectors()[(fptr + n - 1) / SECTOR_SIZE]
      modifies this`fptr
      ensures Valid() && fptr == old(fptr) + n && Content() == old(Content())
    {
      hide Allocated, Owned, Span, SectorInCluster, ClusterIndex, Volume.Logical, Volume.Entries, Volume.Mirrored,
           Gather;
      fptr := fptr + n;
    }

    /** One iteration of `f_read` from a sector boundary when a whole sector is wanted. */
    method ReadDirect(s: nat, btr: nat, rbuff: array<byte>, at: nat) returns (rcnt: nat, ok: bool)
      requires Core() && BufferMatches() && fptr % SECTOR_SIZE == 0
               && ClusterAt(fptr / SECTOR_SIZE) && s == Sectors()[fptr / SECTOR_SIZE]
      requires SECTOR_SIZE <= btr && fptr + btr <= objsize && at + btr <= rbuff.Length && rbuff != buf
               && rbuff != fs.win
      modifies this`fptr, rbuff, fs.disk`faults
      ensures fs.disk.faults >= old(fs.disk.faults) && (!ok ==> fs.disk.faults > old(fs.disk.faults))
      ensures ok ==> 0 < rcnt <= btr && Valid() && fptr == old(fptr) + rcnt && Content() == old(Content())
      ensures ok ==> rbuff[..at] == old(rbuff[..at]) && rbuff[at..at + rcnt] == old(Content())[old(fptr)..fptr]
    {
      hide Allocated, KeptOutside, Span, SectorInCluster, ClusterIndex, Volume.Logical, Volume.Entries,
           Volume.Mirrored, FileSectors, Geometry.Layout, Gather, View, Core, Content, BufferMatches, ClusterAt,
           Sectors;
      ClusterHasSectors();
      var csect := SectorInCluster(fs.geo, fptr / SECTOR_SIZE);
      var cc := btr / SECTOR_SIZE;
      if csect + cc > fs.geo.csize {
        cc := fs.geo.csize - csect;
      }
      RunOfFile(fptr / SECTOR_SIZE, cc);
      LastOfRun(fptr, cc);
      rcnt := SECTOR_SIZE * cc;
      ok := DirectRead(s, cc, rbuff, at);
      if ok {
        StepInside(rcnt);
      }
    }

    lemma ClusterHasSectors()
      requires Core()
      ensures fs.geo.csize > 0
    {
      hide Allocated, Volume.Valid;
    }

    static lemma LastOfRun(p: nat, cc: nat)
      requires p % SECTOR_SIZE == 0 && cc > 0
      ensures (p + SECTOR_SIZE * cc - 1) / SECTOR_SIZE == p / SECTOR_SIZE + cc - 1
              && (p + SECTOR_SIZE * cc) % SECTOR_SIZE == 0
    {
    }

    /** One iteration of `f_read` through the buffer. */
    method ReadBuffered(btr: nat, rbuff: array<byte>, at: nat) returns (rcnt: nat)
      requires Core() && BufferMatches() && ClusterAt(fptr / SECTOR_SIZE) && sect == Sectors()[fptr / SECTOR_SIZE]
      requires 0 < btr && fptr + btr <= objsize && at + btr <= rbuff.Length && rbuff != buf && rbuff != fs.win
      modifies this`fptr, rbuff
      ensures 0 < rcnt <= btr && Valid() && fptr == old(fptr) + rcnt && Content() == old(Content())
      ensures rbuff[..at] == old(rbuff[..at]) && rbuff[at..at + rcnt] == old(Content())[old(fptr)..fptr]
    {
      hide Allocated, KeptOutside, Span, SectorInCluster, ClusterIndex, Volume.Logical, Volume.Entries,
           Volume.Mirrored, FileSectors, Geometry.Layout, Gather, View;
      rcnt := SECTOR_SIZE - fptr % SECTOR_SIZE;
      if rcnt > btr {
        rcnt := btr;
      }
      CopyOut(rcnt, rbuff, at);
      StepInside(rcnt);
    }

    /** One iteration of `f_read` from a sector boundary, in sector `s` of the file. */
    method ReadFromBoundary(s: nat, btr: nat, rbuff: array<byte>, at: nat) returns (rcnt: nat, ok: bool)
      requires Core() && BufferMatches() && fptr % SECTOR_SIZE == 0
      requires ClusterAt(fptr / SECTOR_SIZE) && s == Sectors()[fptr / SECTOR_SIZE]
      requires 0 < btr && fptr + btr <= objsize && at + btr <= rbuff.Length && rbuff != buf && rbuff != fs.win
      modifies this`fptr, this`dirty, this`sect, buf, rbuff, fs.disk
      ensures fs.disk.faults >= old(fs.disk.faults) && (!ok ==> fs.disk.faults > old(fs.disk.faults))
      ensures ok ==>
                0 < rcnt <= btr && Valid() && OthersKept() && fptr == old(fptr) + rcnt && Content() == old(Content())
      ensures ok ==> rbuff[..at] == old(rbuff[..at]) && rbuff[at..at + rcnt] == old(Content())[old(fptr)..fptr]
    {
      hide Allocated, KeptOutside, Span, SectorInCluster, ClusterIndex, Volume.Logical, Volume.Entries,
           Volume.Mirrored, FileSectors, Geometry.Layout, Gather, View, Content, BufferMatches;
      rcnt := 0;
      KeptRefl(fs.geo, Sectors(), fs.Logical());
      if btr / SECTOR_SIZE > 0 {
        rcnt, ok := ReadDirect(s, btr, rbuff, at);
      } else {
        ok := LoadForRead(s);
        if ok {
          rcnt := ReadBuffered(btr, rbuff, at);
        }
      }
    }

    /** One iteration of the loop of `f_read`. */
    method ReadChunk(btr: nat, rbuff: array<byte>, at: nat) returns (rcnt: nat, res: FResult)
      requires Valid() && 0 < btr && fptr + btr <= objsize && at + btr <= rbuff.Length && rbuff != buf
               && rbuff != fs.win
      modifies this`clust, this`fptr, this`dirty, this`sect, buf, rbuff, fs`wflag, fs`winsect, fs.win, fs.disk
      ensures fs.disk.faults >= old(fs.disk.faults)
      ensures res == FrOk || (fs.disk.faults > old(fs.disk.faults) && (res == FrDiskErr || res == FrIntErr))
      ensures res == FrOk ==>
                0 < rcnt <= btr && Valid() && OthersKept() && fptr == old(fptr) + rcnt && Content() == old(Content())
      ensures res == FrOk ==> rbuff[..at] == old(rbuff[..at]) && rbuff[at..at + rcnt] == old(Content())[old(fptr)..fptr]
    {
      hide Allocated, KeptOutside, Span, SectorInCluster, ClusterIndex, Volume.Logical, Volume.Entries,
           Volume.Mirrored, FileSectors, Geometry.Layout, Gather, View, Content, BufferMatches;
      rcnt, res := 0, FrOk;
      ghost var l0 := fs.Logical();
      if fptr % SECTOR_SIZE == 0 {
        var s, ok;
        s, res := EnterSectorForRead();
        if res != FrOk {
          return;
        }
        ghost var t, l1 := Sectors(), fs.Logical();
        rcnt, ok := ReadFromBoundary(s, btr, rbuff, at);
        if !ok {
          return rcnt, FrDiskErr;
        }
        KeptTwice(fs.geo, t, Sectors(), l0, l1, fs.Logical());
      } else {
        assert (fptr - 1) / SECTOR_SIZE == fptr / SECTOR_SIZE;
        KeptRefl(fs.geo, Sectors(), l0);
        rcnt := ReadBuffered(btr, rbuff, at);
      }
    }

    /** The loop of `f_read`. */
    method ReadLoop(total: nat, rbuff: array<byte>) returns (res: FResult, br: nat)
      requires Valid() && fptr + total <= objsize && total <= rbuff.Length && rbuff != buf && rbuff != fs.win
      modifies this`clust, this`fptr, this`dirty, this`sect, buf, rbuff, fs`wflag, fs`winsect, fs.win, fs.disk
      ensures res == FrOk || fs.disk.faults > old(fs.disk.faults)
      ensures res == FrOk ==> Valid() && OthersKept() && Content() == old(Content())
      ensures res == FrOk ==> br == total && fptr == old(fptr) + total && rbuff[..br] == old(Content())[old(fptr)..fptr]
    {
      hide Allocated, KeptOutside, Volume.Logical, Volume.Entries, Volume.Mirrored, FileSectors, Geometry.Layout,
           Gather, View, Content, BufferMatches, Positioned;
      br := 0;
      var btr: nat := total;
      ghost var p, c, l := fptr, Content(), fs.Logical();
      KeptRefl(fs.geo, Sectors(), l);
      while btr > 0
        invariant Valid() && OthersKept() && Content() == c && objsize == |c|
        invariant 0 <= br <= total && br + btr == total && fptr == p + br
        invariant rbuff[..br] == c[p..fptr]
        invariant fs.disk.faults >= old(fs.disk.faults)
      {
        ghost var l1, t := fs.Logical(), Sectors();
        var rcnt;
        rcnt, res := ReadChunk(btr, rbuff, br);
        if res != FrOk {
          return;
        }
        KeptTwice(fs.geo, t, Sectors(), l, l1, fs.Logical());
        assert rbuff[..br + rcnt] == rbuff[..br] + rbuff[br..br + rcnt];
        assert c[p..p + br + rcnt] == c[p..p + br] + c[p + br..p + br + rcnt];
        btr, br := btr - rcnt, br + rcnt;
      }
      res := FrOk;
    }

    /** `f_read`: the bytes from `fptr` on, as many as asked for and the file has, and nothing changes but the
        position. */
    method Read(btr: nat, rbuff: array<byte>) returns (res: FResult, br: nat)
      requires err == FrOk ==> Valid()
      requires btr <= rbuff.Length && rbuff != buf && rbuff != fs.win
      modifies this, buf, rbuff, fs, fs.win, fs.disk
      ensures old(err) != FrOk ==> res == old(err) && br == 0
      ensures old(err) == FrOk && !canRead ==>
                res == FrDenied && br == 0 && Valid() && Content() == old(Content()) && fptr == old(fptr)
      ensures old(err) == FrOk && canRead && res != FrOk ==> err == res && fs.disk.faults > old(fs.disk.faults)
      ensures old(err) == FrOk && canRead && res == FrOk ==>
                && Valid() && OthersKept() && Content() == old(Content())
                && br == (if btr > old(objsize) - old(fptr) then old(objsize) - old(fptr) else btr)
                && fptr == old(fptr) + br && rbuff[..br] == old(Content())[old(fptr)..fptr]
    {
      hide Allocated, KeptOutside, Volume.Logical, Volume.Entries, Volume.Mirrored, FileSectors, Geometry.Layout,
           Gather, View, Content, BufferMatches, Positioned;
      br := 0;
      if err != FrOk {
        return err, 0;
      }
      if !canRead {
        return FrDenied, 0;
      }
      var remain := objsize - fptr;
      res, br := ReadLoop(if btr > remain then remain else btr, rbuff);
      if res != FrOk {
        err := res;
      }
    }

    /** The first byte of cluster `i` of the file. */
    function ClusterStart(i: nat): nat { Span(fs.geo.csize, i) * SECTOR_SIZE }

    /** One step of `f_lseek` along the chain: stretching when the file may grow, following only otherwise. */
    method WalkOne(ghost i: nat) returns (clst: nat, res: FResult)
      requires Core() && BufferMatches() && i < |ch| && clust == ch[i] && (canWrite || i + 1 < |ch|)
      modifies this`ch, this`chains, this`clust, fs, fs.win, fs.disk
      ensures fs.Valid() && fs.disk.faults >= old(fs.disk.faults)
      ensures res == FrOk || (fs.disk.faults > old(fs.disk.faults) && (res == FrDiskErr || res == FrIntErr))
      ensures res == FrOk ==> Core() && BufferMatches() && OthersKept() && Content() == old(Content())
      ensures res == FrOk && clst == 0 ==>
                ch == old(ch) && i + 1 == |ch| && clust == ch[i] && (fs.freeClst == 0 || NoneFree(fs.Entries()))
      ensures res == FrOk && clst != 0 ==> i + 1 < |ch| && clust == clst == ch[i + 1]
    {
      hide Partition, CountExact, NoneFree, Content, BufferMatches, Fits, Volume.Logical, Volume.Entries,
           Volume.Mirrored, FileSectors, Geometry.Layout, KeptOutside, SameButMirror;
      ghost var l, t := fs.Logical(), fs.Entries();
      res := FrOk;
      FatentBounds(fs.geo);
      KeptRefl(fs.geo, Sectors(), l);
      NextInChain(t, chains, ch, i);
      if canWrite {
        clst := FollowChain(clust, i);
        if clst == 0 {
          return;
        }
      } else {
        clst := fs.GetFat(clust);
        MirrorIsFat(fs.geo, l, fs.Logical());
        CoreOverFats();
        ContentOverFats();
        BufferOverFats();
        MirrorIsKept(fs.geo, Sectors(), l, fs.Logical());
      }
      if clst == DISK_ERROR {
        return clst, FrDiskErr;
      }
      InRange(i);
      if clst <= 1 || clst >= fs.geo.nFatent {
        return clst, FrIntErr;
      }
      clust := clst;
    }

    lemma InRange(i: nat)
      requires Core() && i + 1 < |ch|
      ensures 2 <= ch[i + 1] < fs.geo.nFatent
    {
    }

    /** A later byte is in the same cluster or after it, and the cluster starts at or before it. */
    lemma LaterByte(x: nat, y: nat)
      requires fs.geo.csize > 0
      ensures ClusterBytes(fs.geo) > 0 && ClusterStart(ClusterIndex(fs.geo, x / SECTOR_SIZE)) <= x
      ensures x / ClusterBytes(fs.geo) * ClusterBytes(fs.geo) == ClusterStart(ClusterIndex(fs.geo, x / SECTOR_SIZE))
      ensures y / ClusterBytes(fs.geo) >= x / ClusterBytes(fs.geo) ==>
                ClusterStart(ClusterIndex(fs.geo, x / SECTOR_SIZE)) <= y
    {
      hide Span, ClusterIndex, ClusterBytes;
      ByteToCluster(fs.geo, x);
      ByteToCluster(fs.geo, y);
      SpanGrows(fs.geo.csize, ClusterIndex(fs.geo, x / SECTOR_SIZE), ClusterIndex(fs.geo, y / SECTOR_SIZE));
    }

    /** Where `f_lseek` starts its walk: the current cluster for a seek to it or beyond, else the first one, made if
        there is none. */
    method StartWalk(target: nat) returns (pos: nat, clst: nat, ghost i: nat, res: FResult)
      requires Valid() && 0 < target < TWO_32 && (canWrite || target <= objsize)
      modifies this`ch, this`chains, this`sclust, this`clust, fs, fs.win, fs.disk
      ensures fs.Valid() && fs.disk.faults >= old(fs.disk.faults)
      ensures res == FrOk || (fs.disk.faults > old(fs.disk.faults) && (res == FrDiskErr || res == FrIntErr))
      ensures res == FrOk ==> Core() && BufferMatches() && OthersKept() && Content() == old(Content())
      ensures res == FrOk && clst == 0 ==> pos == 0 && ch == [] && (fs.freeClst == 0 || NoneFree(fs.Entries()))
      ensures res == FrOk && clst != 0 ==> i < |ch| && clust == clst == ch[i] && pos == ClusterStart(i) < target
    {
      hide Partition, CountExact, NoneFree, Content, BufferMatches, Fits, Volume.Logical, Volume.Entries,
           Volume.Mirrored, FileSectors, Geometry.Layout, KeptOutside, ClusterBytes, ClusterIndex, Span;
      pos, i, res := 0, 0, FrOk;
      var bcs := ClusterBytes(fs.geo);
      KeptRefl(fs.geo, Sectors(), fs.Logical());
      EmptySpan(fs.geo.csize);
      if fptr > 0 {
        LaterByte(fptr - 1, target - 1);
      }
      ByteToCluster(fs.geo, 0);
      if fptr > 0 && (target - 1) / bcs >= (fptr - 1) / bcs {
        pos := (fptr - 1) / bcs * bcs;
        i := ClusterIndex(fs.geo, (fptr - 1) / SECTOR_SIZE);
        clst := clust;
        assert clst >= 2;
      } else {
        clst := sclust;
        if clst == 0 {
          clst := StartChain();
          if clst == INTERNAL_ERROR || clst == DISK_ERROR {
            res := if clst == INTERNAL_ERROR then FrIntErr else FrDiskErr;
            return;
          }
        }
        clust := clst;
      }
    }

    /** The loop of `f_lseek` that follows the chain to the cluster of byte `target - 1`. */
    method WalkChain(start: nat, target: nat, ghost first: nat) returns (pos: nat, ofs: nat, ghost i: nat, res: FResult)
      requires Core() && BufferMatches() && (canWrite || target <= objsize)
      requires first < |ch| && clust == ch[first] && start == ClusterStart(first) < target
      modifies this`ch, this`chains, this`clust, fs, fs.win, fs.disk
      ensures res == FrOk || (fs.disk.faults > old(fs.disk.faults) && (res == FrDiskErr || res == FrIntErr))
      ensures res == FrOk ==> Core() && BufferMatches() && OthersKept() && Content() == old(Content())
      ensures res == FrOk ==> i < |ch| && clust == ch[i]
      ensures res == FrOk && ofs > 0 ==> pos == ClusterStart(i) && ofs <= ClusterBytes(fs.geo) && pos + ofs == target
      ensures res == FrOk && ofs == 0 ==> pos == ClusterStart(i) + ClusterBytes(fs.geo) < target && i + 1 == |ch|
      ensures res == FrOk && ofs == 0 ==> fs.freeClst == 0 || NoneFree(fs.Entries())
    {
      hide Allocated, NoneFree, Content, BufferMatches, Volume.Logical, Volume.Entries, Volume.Mirrored, FileSectors,
           Geometry.Layout, KeptOutside, ClusterIndex, Span;
      pos, ofs, i, res := start, target - start, first, FrOk;
      var bcs := ClusterBytes(fs.geo);
      ghost var l := fs.Logical();
      KeptRefl(fs.geo, Sectors(), l);
      ByteToCluster(fs.geo, 0);
      while ofs > bcs
        invariant Core() && BufferMatches() && OthersKept() && Content() == old(Content()) && objsize == old(objsize)
        invariant i < |ch| && clust == ch[i] && pos == ClusterStart(i) && pos + ofs == target && ofs > 0
        invariant fs.disk.faults >= old(fs.disk.faults) && res == FrOk
        decreases ofs
      {
        ghost var l1, t := fs.Logical(), Sectors();
        EndOfCluster(i);
        ofs, pos := ofs - bcs, pos + bcs;
        var clst;
        clst, res := WalkOne(i);
        if res != FrOk {
          return;
        }
        KeptTwice(fs.geo, t, Sectors(), l, l1, fs.Logical());
        if clst == 0 {
          ofs := 0;
          break;
        }
        i := i + 1;
      }
    }

    /** Where a cluster of the file ends. */
    lemma EndOfCluster(i: nat)
      requires ClustersOk(fs.geo, ch) && i < |ch|
      ensures ClusterStart(i + 1) == ClusterStart(i) + ClusterBytes(fs.geo) <= |Sectors()| * SECTOR_SIZE
      ensures ClusterStart(i) + ClusterBytes(fs.geo) < |Sectors()| * SECTOR_SIZE ==> i + 1 < |ch|
    {
      hide Span;
      SpanGrows(fs.geo.csize, i, i);
      SpanGrows(fs.geo.csize, 0, 0);
      EmptySpan(fs.geo.csize);
      SpanGrows(fs.geo.csize, i + 1, |ch|);
    }

    /** Sector `o` of cluster `i` of the file. */
    lemma PlaceInCluster(i: nat, o: nat)
      requires ClustersOk(fs.geo, ch) && i < |ch| && clust == ch[i] && o < fs.geo.csize
      ensures ClusterAt(Span(fs.geo.csize, i) + o) && SectorInCluster(fs.geo, Span(fs.geo.csize, i) + o) == o
    {
      hide Span, ClusterIndex, SectorInCluster;
      var j := Span(fs.geo.csize, i) + o;
      QuotientUnique(fs.geo, j, i, o);
      IndexInChain(fs.geo, |ch|, j);
    }

    /** The end of `f_lseek`: it moves to `pos`, extending the file if it is beyond its end, and loads sector `nsect` if
        it is inside one. */
    method Place(pos: nat, nsect: nat) returns (ok: bool)
      requires Core() && BufferMatches() && pos < TWO_32 && pos <= |Sectors()| * SECTOR_SIZE
      requires pos > 0 ==> ClusterAt((pos - 1) / SECTOR_SIZE)
      requires pos % SECTOR_SIZE != 0 ==> pos / SECTOR_SIZE < |Sectors()| && nsect == Sectors()[pos / SECTOR_SIZE]
      modifies this`fptr, this`objsize, this`modified, this`sect, this`dirty, buf, fs.disk
      ensures !ok ==> fs.disk.faults > old(fs.disk.faults)
      ensures ok ==> Valid() && OthersKept() && fptr == pos && fs.Entries() == old(fs.Entries())
      ensures ok ==> objsize == (if pos > old(objsize) then pos else old(objsize)) && old(Content()) <= Content()
    {
      hide Allocated, Volume.Logical, Volume.Entries, Volume.Mirrored, FileSectors, Geometry.Layout, KeptOutside,
           ClusterIndex, Span;
      ok := true;
      ghost var l := fs.Logical();
      KeptRefl(fs.geo, Sectors(), l);
      fptr := pos;
      if fptr > objsize {
        objsize := fptr;
        modified := true;
      }
      assert old(Content()) <= Content();
      if fptr % SECTOR_SIZE != 0 && nsect != sect {
        ok := LoadForRead(nsect);
      }
    }

    /** Where a seek wants to go: a file that may not be written is never extended. */
    function SeekTarget(ofs: nat): nat
      reads this`objsize
    {
      if ofs > objsize && !canWrite then objsize else ofs
    }

    /** `f_lseek`: the position becomes the target, or the end of the chain on a full disk, and every byte of the file
        stays. */
    method Seek(ofs: nat) returns (res: FResult)
      requires err == FrOk ==> Valid()
      requires ofs < TWO_32
      modifies this, buf, fs, fs.win, fs.disk
      ensures old(err) != FrOk ==> res == old(err)
      ensures old(err) == FrOk && res != FrOk ==> err == res && fs.disk.faults > old(fs.disk.faults)
      ensures old(err) == FrOk && res == FrOk ==>
                && Valid() && OthersKept() && fptr <= ofs
                && (ofs <= old(objsize) ==> fptr == ofs)
                && (!canWrite && ofs > old(objsize) ==> fptr == old(objsize))
                && (canWrite ==> fptr == ofs || (NoneFree(fs.Entries()) && fptr == |Sectors()| * SECTOR_SIZE))
                && objsize == (if fptr > old(objsize) then fptr else old(objsize)) && old(Content()) <= Content()
    {
      hide Allocated, NoneFree, Content, BufferMatches, Positioned, Volume.Logical, Volume.Entries, Volume.Mirrored,
           FileSectors, Geometry.Layout, KeptOutside, ClusterIndex, ClusterBytes, Span;
      if err != FrOk {
        return err;
      }
      var target := SeekTarget(ofs);
      var pos, nsect;
      pos, nsect, res := Locate(target);
      if res != FrOk {
        err := res;
        return;
      }
      ghost var t, l, l1 := Sectors(), old(fs.Logical()), fs.Logical();
      var ok := Place(pos, nsect);
      if !ok {
        res := FrDiskErr;
        err := res;
        return;
      }
      KeptTwice(fs.geo, t, Sectors(), l, l1, fs.Logical());
      CountedFull();
    }

    /** The sector that a position `rest` bytes into the current cluster is inside of, if it is inside one. */
    method SectorOfRest(start: nat, rest: nat, ghost i: nat) returns (nsect: nat, res: FResult)
      requires fs.geo.Layout() && ClustersOk(fs.geo, ch) && i < |ch| && clust == ch[i]
               && start % SECTOR_SIZE == 0 && 0 <= rest <= ClusterBytes(fs.geo)
      requires rest > 0 ==> start == ClusterStart(i)
      ensures res == FrOk
      ensures rest % SECTOR_SIZE != 0 ==>
                && ClusterAt((start + rest) / SECTOR_SIZE) && (start + rest) / SECTOR_SIZE < |Sectors()|
                && nsect == Sectors()[(start + rest) / SECTOR_SIZE]
    {
      hide Span, ClusterIndex, SectorInCluster, FileSectors, Geometry.Layout;
      nsect, res := 0, FrOk;
      if rest % SECTOR_SIZE != 0 {
        LastByte(i, rest);
        SectorOfCluster((start + rest) / SECTOR_SIZE);
        nsect := fs.geo.ClstToSect(clust);
        res := if nsect == 0 then FrIntErr else FrOk;
        nsect := nsect + rest / SECTOR_SIZE;
      }
    }

    /** The walk of `f_lseek`: it ends `rest` bytes into element `i` of the chain, or at the end of the chain on a full
        disk. */
    method WalkTo(target: nat) returns (pos: nat, rest: nat, ghost i: nat, res: FResult)
      requires Valid() && 0 < target < TWO_32 && (canWrite || target <= objsize)
      modifies this`ch, this`chains, this`sclust, this`clust, fs, fs.win, fs.disk
      ensures res == FrOk || fs.disk.faults > old(fs.disk.faults)
      ensures res == FrOk ==> Core() && BufferMatches() && OthersKept() && Content() == old(Content())
      ensures res == FrOk && pos + rest > 0 ==> i < |ch| && clust == ch[i] && rest <= ClusterBytes(fs.geo)
      ensures res == FrOk && rest > 0 ==> pos == ClusterStart(i) && pos + rest == target
      ensures res == FrOk && rest == 0 ==> pos < target && (fs.freeClst == 0 || NoneFree(fs.Entries()))
      ensures res == FrOk && rest == 0 ==>
                if pos == 0 then ch == [] else pos == ClusterStart(i) + ClusterBytes(fs.geo) && i + 1 == |ch|
    {
      hide Allocated, NoneFree, Content, BufferMatches, Volume.Logical, Volume.Entries, Volume.Mirrored, FileSectors,
           Geometry.Layout, KeptOutside, ClusterIndex, ClusterBytes, Span;
      ghost var l := fs.Logical();
      var clst;
      pos, clst, i, res := StartWalk(target);
      rest := 0;
      ByteToCluster(fs.geo, 0);
      if res == FrOk && clst != 0 {
        ghost var t, l1 := Sectors(), fs.Logical();
        pos, rest, i, res := WalkChain(pos, target, i);
        if res == FrOk {
          KeptTwice(fs.geo, t, Sectors(), l, l1, fs.Logical());
        }
      }
    }

    /** Where `f_lseek` arrives: a position, and the sector that position is inside of. */
    method Locate(target: nat) returns (pos: nat, nsect: nat, res: FResult)
      requires Valid() && target < TWO_32 && (canWrite || target <= objsize)
      modifies this`ch, this`chains, this`sclust, this`clust, fs, fs.win, fs.disk
      ensures res == FrOk || fs.disk.faults > old(fs.disk.faults)
      ensures res == FrOk ==> Core() && BufferMatches() && OthersKept() && Content() == old(Content())
      ensures res == FrOk ==> pos <= target && pos <= |Sectors()| * SECTOR_SIZE && (target <= objsize ==> pos == target)
      ensures res == FrOk && pos < target ==>
                (fs.freeClst == 0 || NoneFree(fs.Entries())) && pos == |Sectors()| * SECTOR_SIZE
      ensures res == FrOk && pos > 0 ==> ClusterAt((pos - 1) / SECTOR_SIZE)
      ensures res == FrOk && pos % SECTOR_SIZE != 0 ==>
                pos / SECTOR_SIZE < |Sectors()| && nsect == Sectors()[pos / SECTOR_SIZE]
    {
      hide Allocated, NoneFree, Content, BufferMatches, Volume.Logical, Volume.Entries, Volume.Mirrored, FileSectors,
           Geometry.Layout, KeptOutside, ClusterIndex, ClusterBytes, ClusterStart;
      pos, nsect, res := 0, 0, FrOk;
      KeptRefl(fs.geo, Sectors(), fs.Logical());
      if target > 0 {
        pos, nsect, res := LocateAfter(target);
      }
    }

    /** Where `f_lseek` arrives on the way to a position after the first. */
    method LocateAfter(target: nat) returns (pos: nat, nsect: nat, res: FResult)
      requires Valid() && 0 < target < TWO_32 && (canWrite || target <= objsize)
      modifies this`ch, this`chains, this`sclust, this`clust, fs, fs.win, fs.disk
      ensures res == FrOk || fs.disk.faults > old(fs.disk.faults)
      ensures res == FrOk ==> Core() && BufferMatches() && OthersKept() && Content() == old(Content())
      ensures res == FrOk ==> pos <= target && pos <= |Sectors()| * SECTOR_SIZE && (target <= objsize ==> pos == target)
      ensures res == FrOk && pos < target ==>
                (fs.freeClst == 0 || NoneFree(fs.Entries())) && pos == |Sectors()| * SECTOR_SIZE
      ensures res == FrOk && pos > 0 ==> ClusterAt((pos - 1) / SECTOR_SIZE)
      ensures res == FrOk && pos % SECTOR_SIZE != 0 ==>
                pos / SECTOR_SIZE < |Sectors()| && nsect == Sectors()[pos / SECTOR_SIZE]
    {
      hide Core, Valid, OthersKept, Sectors, Owned, Fits, Allocated, NoneFree, Content, BufferMatches, Volume.Logical,
           Volume.Entries, FileSectors, Geometry.Layout, ClusterIndex, ClusterBytes, ClusterStart, ClusterAt;
      var rest;
      ghost var i;
      nsect := 0;
      pos, rest, i, res := WalkTo(target);
      if res == FrOk {
        CoreParts();
        Arrival(pos, rest, i, target);
        RestInSector(pos, rest);
        if pos + rest > 0 {
          nsect, res := SectorOfRest(pos, rest, i);
          pos := pos + rest;
        }
      }
    }

    static lemma RestInSector(start: nat, rest: nat)
      requires start % SECTOR_SIZE == 0
      ensures (start + rest) % SECTOR_SIZE == rest % SECTOR_SIZE
    {
    }

    lemma CoreParts()
      requires Core()
      ensures fs.Valid() && ClustersOk(fs.geo, ch) && objsize <= |Sectors()| * SECTOR_SIZE
    {
      hide Allocated, Volume.Valid, FileSectors, ClustersOk;
    }

    /** What is true of the position that a walk over the chain arrives at. */
    lemma Arrival(pos: nat, rest: nat, i: nat, target: nat)
      requires fs.geo.Layout() && ClustersOk(fs.geo, ch) && objsize <= |Sectors()| * SECTOR_SIZE && target > 0
      requires pos + rest > 0 ==> i < |ch| && clust == ch[i] && rest <= ClusterBytes(fs.geo)
      requires rest > 0 ==> pos == ClusterStart(i) && pos + rest == target
      requires rest == 0 ==> pos < target
      requires rest == 0 ==>
                 if pos == 0 then ch == [] else pos == ClusterStart(i) + ClusterBytes(fs.geo) && i + 1 == |ch|
      ensures rest == 0 ==> pos == |Sectors()| * SECTOR_SIZE
      ensures pos % SECTOR_SIZE == 0 && pos + rest <= |Sectors()| * SECTOR_SIZE
              && (target <= objsize ==> pos + rest == target)
      ensures pos + rest > 0 ==> ClusterAt((pos + rest - 1) / SECTOR_SIZE)
    {
      hide FileSectors, Geometry.Layout, ClusterIndex, ClusterBytes, ClusterStart, ClusterAt;
      if pos + rest > 0 {
        EndOfCluster(i);
        LastByte(i, rest);
      } else {
        EmptySpan(fs.geo.csize);
      }
    }

    /** The sectors around the position `rest` bytes into cluster `i`; no bytes stand for the whole cluster. */
    lemma LastByte(i: nat, rest: nat)
      requires ClustersOk(fs.geo, ch) && i < |ch| && clust == ch[i] && rest <= ClusterBytes(fs.geo)
      ensures rest == 0 ==> ClusterAt((ClusterStart(i) + ClusterBytes(fs.geo) - 1) / SECTOR_SIZE)
      ensures rest > 0 ==> ClusterAt((ClusterStart(i) + rest - 1) / SECTOR_SIZE)
      ensures rest % SECTOR_SIZE != 0 ==>
                && ClusterAt((ClusterStart(i) + rest) / SECTOR_SIZE)
                && SectorInCluster(fs.geo, (ClusterStart(i) + rest) / SECTOR_SIZE) == rest / SECTOR_SIZE
      ensures ClusterStart(i) % SECTOR_SIZE == 0 && (ClusterStart(i) + ClusterBytes(fs.geo)) % SECTOR_SIZE == 0
    {
      hide Span, ClusterIndex, SectorInCluster;
      SpanGrows(fs.geo.csize, 0, 0);
      EmptySpan(fs.geo.csize);
      PlaceInCluster(i, fs.geo.csize - 1);
      if rest > 0 {
        PlaceInCluster(i, (rest - 1) / SECTOR_SIZE);
        if rest % SECTOR_SIZE != 0 {
          PlaceInCluster(i, rest / SECTOR_SIZE);
        }
      }
    }
  }

  /** A full disk stays full with the same file while no other chain changes. */
  lemma FullStays(fat: seq<nat>, free: nat, chains: set<seq<nat>>, ch: seq<nat>,
                  fat1: seq<nat>, chains1: set<seq<nat>>, ch1: seq<nat>)
    requires |fat| == |fat1| >= 3 && Allocated(fat, free, chains) && Partition(fat1, chains1)
    requires free == 0 || NoneFree(fat)
    requires (ch in chains || ch == []) && (ch1 in chains1 || ch1 == []) && ch <= ch1
             && chains1 - {ch1} == chains - {ch}
    ensures NoneFree(fat1) && ch1 == ch
  {
    hide CountFree, PairwiseDisjoint, AllChains, IsChain;
    assert NoneFree(fat) by { NoneCounted(fat); }
    forall c | 2 <= c < |fat|
      ensures fat1[c] != 0
    {
      assert fat[c] != 0;
      var s :| s in chains && c in s;
      var t := if s == ch then ch1 else s;
      assert t in chains1 && c in t by {
        if s != ch {
          assert s in chains1 - {ch1};
        }
      }
      UsedInChain(fat1, chains1, t, c);
    }
    if |ch| < |ch1| {
      GrownByFree(fat, chains, ch, fat1, chains1, ch1);
    }
  }

  lemma NoneCounted(fat: seq<nat>)
    ensures CountFree(fat) == 0 ==> NoneFree(fat)
  {
    forall c | 2 <= c < |fat| && fat[c] == 0
      ensures CountFree(fat) > 0
    {
      assert c in FreeSet(fat);
    }
  }

  lemma UsedInChain(fat: seq<nat>, chains: set<seq<nat>>, s: seq<nat>, c: nat)
    requires Partition(fat, chains) && s in chains && c in s
    ensures 2 <= c < |fat| && fat[c] != 0
  {
    var i :| 0 <= i < |s| && s[i] == c;
    NextInChain(fat, chains, s, i);
  }

  /** The cluster that a chain grew by was in no chain before. */
  lemma GrownByFree(fat: seq<nat>, chains: set<seq<nat>>, ch: seq<nat>, fat1: seq<nat>, chains1: set<seq<nat>>,
                    ch1: seq<nat>)
    requires |fat| == |fat1| && Partition(fat, chains) && Partition(fat1, chains1)
    requires ch1 in chains1 && ch < ch1 && chains1 - {ch1} == chains - {ch}
    ensures 2 <= ch1[|ch|] < |fat| && fat[ch1[|ch|]] == 0
  {
    hide AllChains, IsChain;
    var c := ch1[|ch|];
    UsedInChain(fat1, chains1, ch1, c);
    forall s | s in chains
      ensures c !in s
    {
      if s == ch {
        ChainIn(fat1, chains1, ch1);
      } else {
        assert s in chains1 - {ch1};
      }
    }
  }

  lemma ChainIn(fat: seq<nat>, chains: set<seq<nat>>, s: seq<nat>)
    requires Partition(fat, chains) && s in chains
    ensures NoDuplicates(s)
  {
    ChainAcyclic(fat, s);
  }

  /** A seek inside the file and a read: the bytes come back, and a full disk stays full. */
  method SeekRead(f: File, p: nat, n: nat, rbuff: array<byte>) returns (res: FResult)
    requires f.Valid() && f.canRead && p + n <= f.objsize
    requires n <= rbuff.Length && rbuff != f.buf && rbuff != f.fs.win
    modifies f, f.buf, rbuff, f.fs, f.fs.win, f.fs.disk
    ensures res == FrOk ==> f.Valid() && f.Content() == old(f.Content()) && rbuff[..n] == f.Content()[p..p + n]
    ensures res == FrOk ==> f.chains - {f.ch} == old(f.chains - {f.ch})
    ensures res == FrOk && old(f.fs.freeClst == 0 || NoneFree(f.fs.Entries())) ==>
              NoneFree(f.fs.Entries()) && f.ch == old(f.ch)
  {
    hide Allocated, KeptOutside, NoneFree, File.OthersKept, File.Core, Owned, Volume.Valid, Partition,
         File.BufferMatches, File.View, File.Content, File.Positioned, Volume.Logical, Volume.Entries, Volume.Mirrored,
         FileSectors, Geometry.Layout;
    var br;
    ghost var c := f.Content();
    f.CoreChains();
    ghost var a, chains, ch := Alloc(f.fs.Entries(), f.fs.freeClst), f.chains, f.ch;
    res := f.Seek(p);
    if res == FrOk {
      assert |f.Content()| == f.objsize;
      SamePrefix(c, f.Content());
      f.ChainsKept();
      label L:
      res, br := f.Read(n, rbuff);
      if res == FrOk {
        f.ChainsKept@L();
        f.CoreChains();
        if a.free == 0 || NoneFree(a.fat) {
          FullStays(a.fat, a.free, chains, ch, f.fs.Entries(), f.chains, f.ch);
        }
      }
    }
  }

  /** What is written at the current position comes back from a seek to it and a read, and the file is the patched old
      one; only the 4 GiB - 1 limit and a disk filled up to the last cluster of the file cut the write short. */
  method WriteSeekRead(f: File, data: seq<byte>, rbuff: array<byte>) returns (res: FResult, n: nat)
    requires f.err == FrOk && f.Valid() && f.canRead && f.canWrite
    requires |data| < TWO_32 && |data| <= rbuff.Length && rbuff != f.buf && rbuff != f.fs.win
    modifies f, f.buf, rbuff, f.fs, f.fs.win, f.fs.disk
    ensures res == FrOk ==> f.Valid() && n <= |data| && rbuff[..n] == data[..n]
    ensures res == FrOk ==> f.Content() == Patched(old(f.Content()), old(f.fptr), data[..n])
    ensures res == FrOk ==>
              && old(f.fptr) + n <= 0xFFFF_FFFF
              && (n == |data| || old(f.fptr) + n == 0xFFFF_FFFF
                  || (NoneFree(f.fs.Entries()) && old(f.fptr) + n == |f.Sectors()| * SECTOR_SIZE))
    ensures res == FrOk ==> f.chains - {f.ch} == old(f.chains - {f.ch})
  {
    hide Allocated, KeptOutside, NoneFree, File.OthersKept, File.Core, Owned, Volume.Valid, Patched,
         File.BufferMatches, File.View, File.Content, File.Positioned, Volume.Logical, Volume.Entries, Volume.Mirrored,
         FileSectors, Geometry.Layout;
    var p := f.fptr;
    f.PositionInside();
    res, n := f.Write(data);
    if res == FrOk {
      f.ChainsKept();
      ghost var c := f.Content();
      PatchReadsBack(old(f.Content()), p, data[..n]);
      assert |c| == f.objsize && c == Patched(old(f.Content()), p, data[..n]);
      res := SeekRead(f, p, n, rbuff);
    }
  }

  lemma PatchReadsBack(c: seq<byte>, p: nat, x: seq<byte>)
    requires p <= |c|
    ensures p + |x| <= |Patched(c, p, x)| && Patched(c, p, x)[p..p + |x|] == x
  {
  }

  lemma SamePrefix(c: seq<byte>, d: seq<byte>)
    requires c <= d && |d| == |c|
    ensures c == d
  {
  }
}
