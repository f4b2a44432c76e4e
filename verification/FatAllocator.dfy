/** The cluster allocator: `create_chain` and `remove_chain` over the FAT array. */
module FatAllocator {
  import opened FatChains
  import opened FatEntry
  import opened FatGeometry
  import opened FatVolume

  /** The value an end-of-chain mark reads back as. */
  function EndMark(g: Geometry): (e: nat) { Mask(g.fsType, 0xFFFF_FFFF) }

  /** `fat` with a link from `clst` to `ncl`, or none when `clst` is 0. */
  function Linked(fat: seq<nat>, clst: nat, ncl: nat): (r: seq<nat>)
    requires clst < |fat|
    ensures |r| == |fat|
  {
    if clst == 0 then fat else fat[clst := ncl]
  }

  ghost predicate NoneFree(fat: seq<nat>) {
    forall c :: 2 <= c < |fat| ==> fat[c] != 0
  }

  /** What `create_chain(clst)` returns and leaves when it meets no disk error; `e` is the end mark. */
  ghost predicate CreateOutcome(fat: seq<nat>, free: nat, clst: nat, e: nat, r: nat, fat1: seq<nat>, free1: nat) {
    if clst != 0 && (clst < 2 || clst >= |fat| || fat[clst] < 2) then
      r == INTERNAL_ERROR && fat1 == fat && free1 == free
    else if clst != 0 && fat[clst] < |fat| then
      r == fat[clst] && fat1 == fat && free1 == free
    else if free == 0 then
      r == 0 && fat1 == fat && free1 == free
    else
      && (r == 0 ==> NoneFree(fat) && fat1 == fat && free1 == free)
      && (r == 1 ==> (exists c :: 2 <= c < |fat| && fat[c] == 1) && fat1 == fat && free1 == free)
      && (r >= 2 ==> r < |fat| && fat[r] == 0 && clst < |fat| && fat1 == Linked(fat[r := e], clst, r)
                     && free1 == if free <= |fat| - 2 then free - 1 else free)
  }

  /** `r` is the first free cluster after `scl`, going around from the last cluster to the first. */
  ghost predicate FirstFreeAfter(fat: seq<nat>, scl: nat, r: nat) {
    && 2 <= r < |fat| && fat[r] == 0
    && forall c :: 2 <= c < |fat| && (if scl < r then scl < c < r else scl < c || c < r) ==> fat[c] != 0
  }

  /** Where a new cluster is taken: right after the one it is linked to if that is free, else the first free one after
      the last cluster allocated. */
  ghost predicate Placed(fat: seq<nat>, clst: nat, hint: nat, r: nat) {
    var next := if clst + 1 >= |fat| then 2 else clst + 1;
    if clst != 0 && next < |fat| && fat[next] == 0 then r == next
    else
      var first := if hint == 0 || hint >= |fat| then 1 else hint;
      FirstFreeAfter(fat, if clst == 0 then first else if 2 <= hint < |fat| then hint else clst, r)
  }

  /** The free count after freeing `n` more clusters; an unknown count stays unknown. */
  function Bump(free: nat, n: int, size: nat): (r: int) {
    if free > size - 2 then free else if free + n > size - 2 then size - 2 else free + n
  }

  /** What `remove_chain(clst, pclst)` returns and leaves when it meets no disk error. */
  ghost predicate RemoveOutcome(fat: seq<nat>, free: nat, clst: nat, pclst: nat, e: nat,
                                res: FResult, fat1: seq<nat>, free1: nat) {
    if clst < 2 || clst >= |fat| || (pclst != 0 && (pclst < 2 || pclst >= |fat|)) then
      res == FrIntErr && fat1 == fat && free1 == free
    else
      var fat0 := if pclst == 0 then fat else fat[pclst := e];
      var w := FreeWalk(fat0, clst);
      && res == (if w.1 then FrOk else FrIntErr) && fat1 == w.0
      && free1 == Bump(free, CountFree(fat1) - CountFree(fat0), |fat|)
  }

  lemma FatentBounds(g: Geometry)
    requires g.Layout()
    ensures 3 <= g.nFatent <= MAX_FAT32 + 2 && EndMark(g) >= g.nFatent
    ensures forall c :: 0 <= c < g.nFatent ==> Mask(g.fsType, c) == c
  {
  }

  /** The scan of `create_chain` for a free cluster, from the one after `scl` and around. */
  method FindFree(fs: Volume, scl: nat) returns (ncl: nat, ghost probes: seq<nat>)
    requires fs.Valid() && 1 <= scl < fs.geo.nFatent
    modifies fs`wflag, fs`winsect, fs.win, fs.disk
    ensures fs.Valid() && fs.Unmoved() && fs.Entries() == old(fs.Entries())
    ensures ncl == DISK_ERROR ==> fs.disk.faults > old(fs.disk.faults)
    ensures ncl == 0 ==> NoneFree(fs.Entries())
    ensures ncl == 1 ==> exists c :: 2 <= c < fs.geo.nFatent && fs.Entries()[c] == 1
    ensures ncl >= 2 && ncl != DISK_ERROR ==> FirstFreeAfter(fs.Entries(), scl, ncl)
    ensures NoDuplicates(probes) && forall i :: 0 <= i < |probes| ==> 2 <= probes[i] < fs.geo.nFatent
  {
    hide Volume.Logical, Volume.Mirrored, Volume.Entries, Volume.Tops, Volume.Bytes, Geometry.Layout;
    FatentBounds(fs.geo);
    ncl := scl;
    probes := [];
    ghost var fat, wrapped := fs.Entries(), false;
    var cs;
    while true
      invariant fs.Valid() && fs.Unmoved() && fs.Entries() == fat
      invariant if wrapped then scl >= 2 && 2 <= ncl < scl else scl <= ncl < fs.geo.nFatent
      invariant forall c :: 2 <= c < fs.geo.nFatent && (if wrapped then c <= ncl || scl < c else scl < c <= ncl) ==>
                  fat[c] != 0
      invariant forall i :: 0 <= i < |probes| ==> 2 <= probes[i] < fs.geo.nFatent
      invariant forall i :: 0 <= i < |probes| ==>
                  (if wrapped then probes[i] <= ncl || scl < probes[i] else scl < probes[i] <= ncl)
      invariant NoDuplicates(probes)
      decreases if wrapped then 0 else 1, fs.geo.nFatent - ncl
    {
      ncl := ncl + 1;
      if ncl >= fs.geo.nFatent {
        ncl := 2;
        wrapped := true;
        if ncl > scl {
          ncl := 0;
          return;
        }
      }
      cs := fs.GetFat(ncl);
      probes := probes + [ncl];
      if cs == 0 {
        return;
      }
      if cs == INTERNAL_ERROR || cs == DISK_ERROR {
        ncl := cs;
        return;
      }
      if ncl == scl {
        ncl := 0;
        return;
      }
    }
  }

  /** The choice of a free cluster in `create_chain`: the next one for a stretch, or else the scan. */
  method ChooseFree(fs: Volume, clst: nat, start: nat) returns (ncl: nat)
    requires fs.Valid() && clst < fs.geo.nFatent && clst != 1
    requires start == if clst == 0 then (if fs.lastClst == 0 || fs.lastClst >= fs.geo.nFatent then 1 else fs.lastClst)
               else clst
    modifies fs`wflag, fs`winsect, fs.win, fs.disk
    ensures fs.Valid() && fs.Unmoved() && fs.Entries() == old(fs.Entries())
    ensures ncl == DISK_ERROR ==> fs.disk.faults > old(fs.disk.faults)
    ensures ncl == 0 ==> NoneFree(fs.Entries())
    ensures ncl == 1 ==> exists c :: 2 <= c < fs.geo.nFatent && fs.Entries()[c] == 1
    ensures ncl >= 2 && ncl != DISK_ERROR ==>
              ncl < fs.geo.nFatent && fs.Entries()[ncl] == 0 && Placed(fs.Entries(), clst, fs.lastClst, ncl)
  {
    hide Volume.Logical, Volume.Mirrored, Volume.Entries, Volume.Tops, Volume.Bytes, Geometry.Layout;
    FatentBounds(fs.geo);
    var scl := start;
    ncl := 0;
    if scl == clst {
      ncl := scl + 1;
      if ncl >= fs.geo.nFatent {
        ncl := 2;
      }
      var cs := fs.GetFat(ncl);
      if cs == INTERNAL_ERROR || cs == DISK_ERROR {
        return cs;
      }
      if cs != 0 {
        cs := fs.lastClst;
        if 2 <= cs < fs.geo.nFatent {
          scl := cs;
        }
        ncl := 0;
      }
    }
    if ncl == 0 {
      ghost var probes;
      ncl, probes := FindFree(fs, scl);
    }
  }

  /** `create_chain`: stretches the chain of `clst`, or starts a new one when it is 0. */
  method CreateChain(fs: Volume, clst: nat) returns (r: nat)
    requires fs.Valid()
    modifies fs, fs.win, fs.disk
    ensures fs.Valid() && fs.OnlyFats() && fs.InfoMarked()
    ensures r == DISK_ERROR ==> fs.disk.faults > old(fs.disk.faults)
    ensures r != DISK_ERROR ==>
              CreateOutcome(old(fs.Entries()), old(fs.freeClst), clst, EndMark(fs.geo), r, fs.Entries(), fs.freeClst)
    ensures r != DISK_ERROR && fs.Entries() != old(fs.Entries()) ==> fs.lastClst == r && fs.geo.InFat1(fs.winsect)
    ensures r != DISK_ERROR && fs.Entries() != old(fs.Entries()) ==>
              Placed(old(fs.Entries()), clst, old(fs.lastClst), r)
  {
    hide Volume.Logical, Volume.Mirrored, Volume.Entries, Volume.Tops, Volume.Bytes, Geometry.Layout, Placed, NoneFree;
    FatentBounds(fs.geo);
    ghost var fat := fs.Entries();
    var scl;
    if clst == 0 {
      scl := fs.lastClst;
      if scl == 0 || scl >= fs.geo.nFatent {
        scl := 1;
      }
    } else {
      var cs := fs.GetFat(clst);
      if cs < 2 {
        return 1;
      }
      if cs == DISK_ERROR {
        return cs;
      }
      if cs < fs.geo.nFatent {
        return cs;
      }
      scl := clst;
    }
    if fs.freeClst == 0 {
      return 0;
    }
    var ncl := ChooseFree(fs, clst, scl);
    if ncl < 2 || ncl == DISK_ERROR {
      return ncl;
    }
    r := Link(fs, clst, ncl);
  }

  /** The cluster number `create_chain` returns for a failed FAT access. */
  function ErrorCluster(res: FResult): nat {
    if res == FrDiskErr then DISK_ERROR else INTERNAL_ERROR
  }

  /** The end of `create_chain`: takes the free cluster found and links it. */
  method Link(fs: Volume, clst: nat, ncl: nat) returns (r: nat)
    requires fs.Valid() && clst < fs.geo.nFatent && clst != 1 && 2 <= ncl < fs.geo.nFatent && fs.freeClst > 0
    modifies fs, fs.win, fs.disk
    ensures fs.Valid() && fs.OnlyFats() && fs.InfoMarked()
    ensures r == ncl || (r == DISK_ERROR && fs.disk.faults > old(fs.disk.faults))
    ensures r == ncl ==> fs.Entries() == Linked(old(fs.Entries())[ncl := EndMark(fs.geo)], clst, ncl)
    ensures r == ncl ==> fs.lastClst == ncl && fs.geo.InFat1(fs.winsect)
    ensures r == ncl ==>
              fs.freeClst == if old(fs.freeClst) <= fs.geo.nFatent - 2 then old(fs.freeClst) - 1 else old(fs.freeClst)
  {
    hide Volume.Logical, Volume.Mirrored, Volume.Entries, Volume.Tops, Volume.Bytes, Geometry.Layout;
    FatentBounds(fs.geo);
    var res := fs.PutFat(ncl, 0xFFFF_FFFF);
    if res == FrOk && clst != 0 {
      res := fs.PutFat(clst, ncl);
    }
    if res == FrOk {
      fs.lastClst := ncl;
      if fs.freeClst <= fs.geo.nFatent - 2 {
        fs.freeClst := fs.freeClst - 1;
      }
      fs.fsiDirty := true;
      r := ncl;
    } else {
      r := ErrorCluster(res);
    }
  }

  /** One step of the walk frees one cluster. */
  lemma WalkStep(fat: seq<nat>, c: nat, free: nat, n: int)
    requires 2 <= c < |fat| && fat[c] >= 2 && 0 <= n && CountFree(fat) - n >= 0
    ensures FreeWalk(fat, c) == FreeWalk(fat[c := 0], fat[c])
    ensures UsedSet(fat[c := 0]) < UsedSet(fat)
    ensures CountFree(fat[c := 0]) == CountFree(fat) + 1
    ensures Bump(free, n, |fat|) >= 0
    ensures Bump(free, n + 1, |fat|)
              == if Bump(free, n, |fat|) < |fat| - 2 then Bump(free, n, |fat|) + 1 else Bump(free, n, |fat|)
  {
    ZeroingOne(fat, c);
  }

  lemma BumpNothing(free: nat, n: nat)
    ensures Bump(free, 0, n) == free
  {
  }

  /** Where the walk ends: at a free or a bad entry, or behind the end of the chain. */
  lemma WalkEnds(fat: seq<nat>, c: nat)
    ensures 2 <= c < |fat| && fat[c] < 2 ==> FreeWalk(fat, c) == (fat, fat[c] == 0)
    ensures c >= |fat| ==> FreeWalk(fat, c) == (fat, true)
  {
  }

  /** `remove_chain`: frees the clusters from `clst` on, after cutting them off their predecessor `pclst` if there is
      one. */
  method RemoveChain(fs: Volume, clst: nat, pclst: nat) returns (res: FResult)
    requires fs.Valid()
    modifies fs, fs.win, fs.disk
    ensures fs.Valid() && fs.OnlyFats() && fs.InfoMarked() && fs.lastClst == old(fs.lastClst)
    ensures res == FrDiskErr ==> fs.disk.faults > old(fs.disk.faults)
    ensures res != FrDiskErr ==>
              RemoveOutcome(old(fs.Entries()), old(fs.freeClst), clst, pclst, EndMark(fs.geo), res, fs.Entries(),
                            fs.freeClst)
  {
    hide Volume.Logical, Volume.Mirrored, Volume.Entries, Volume.Tops, Volume.Bytes, Geometry.Layout, FreeWalk,
         UsedSet, CountFree, Bump;
    FatentBounds(fs.geo);
    if clst < 2 || clst >= fs.geo.nFatent {
      return FrIntErr;
    }
    if pclst != 0 {
      res := fs.PutFat(pclst, 0xFFFF_FFFF);
      if res != FrOk {
        return;
      }
    }
    res := FreeFrom(fs, clst);
  }

  /** The part of that loop that marks one cluster free and counts it. */
  method FreeOne(fs: Volume, clst: nat) returns (res: FResult)
    requires fs.Valid() && 2 <= clst < fs.geo.nFatent
    modifies fs, fs.win, fs.disk
    ensures fs.Valid() && fs.OnlyFats() && fs.InfoMarked() && fs.lastClst == old(fs.lastClst)
    ensures res == FrOk || (res == FrDiskErr && fs.disk.faults > old(fs.disk.faults))
    ensures res == FrOk ==> fs.Entries() == old(fs.Entries())[clst := 0]
    ensures res == FrOk ==>
              fs.freeClst == if old(fs.freeClst) < fs.geo.nFatent - 2 then old(fs.freeClst) + 1 else old(fs.freeClst)
  {
    hide Volume.Logical, Volume.Mirrored, Volume.Entries, Volume.Tops, Volume.Bytes, Geometry.Layout;
    res := fs.PutFat(clst, 0);
    if res != FrOk {
      return;
    }
    if fs.freeClst < fs.geo.nFatent - 2 {
      fs.freeClst := fs.freeClst + 1;
      fs.fsiDirty := true;
    }
  }

  /** The loop of `remove_chain`. */
  method FreeFrom(fs: Volume, first: nat) returns (res: FResult)
    requires fs.Valid() && 2 <= first < fs.geo.nFatent
    modifies fs, fs.win, fs.disk
    ensures fs.Valid() && fs.OnlyFats() && fs.InfoMarked() && fs.lastClst == old(fs.lastClst)
    ensures res == FrDiskErr ==> fs.disk.faults > old(fs.disk.faults)
    ensures res != FrDiskErr ==> res == (if FreeWalk(old(fs.Entries()), first).1 then FrOk else FrIntErr)
    ensures res != FrDiskErr ==> fs.Entries() == FreeWalk(old(fs.Entries()), first).0
    ensures res != FrDiskErr ==>
              fs.freeClst == Bump(old(fs.freeClst), CountFree(fs.Entries()) - CountFree(old(fs.Entries())),
                                  fs.geo.nFatent)
  {
    hide Volume.Logical, Volume.Mirrored, Volume.Entries, Volume.Tops, Volume.Bytes, Geometry.Layout, FreeWalk, UsedSet,
         CountFree, Bump;
    FatentBounds(fs.geo);
    var clst := first;
    ghost var fat0, free0 := fs.Entries(), fs.freeClst;
    BumpNothing(free0, fs.geo.nFatent);
    while true
      invariant fs.Valid() && fs.OnlyFats() && fs.InfoMarked() && fs.lastClst == old(fs.lastClst)
      invariant 2 <= clst < fs.geo.nFatent
      invariant FreeWalk(fs.Entries(), clst) == FreeWalk(fat0, first)
      invariant CountFree(fs.Entries()) >= CountFree(fat0)
      invariant fs.freeClst == Bump(free0, CountFree(fs.Entries()) - CountFree(fat0), fs.geo.nFatent)
      decreases UsedSet(fs.Entries())
    {
      ghost var fat := fs.Entries();
      var nxt := fs.GetFat(clst);
      WalkEnds(fat, clst);
      if nxt == 0 {
        return FrOk;
      }
      if nxt == INTERNAL_ERROR {
        return FrIntErr;
      }
      if nxt == DISK_ERROR {
        return FrDiskErr;
      }
      WalkStep(fat, clst, free0, CountFree(fat) - CountFree(fat0));
      res := FreeOne(fs, clst);
      if res != FrOk {
        return;
      }
      clst := nxt;
      if clst >= fs.geo.nFatent {
        WalkEnds(fs.Entries(), clst);
        return FrOk;
      }
    }
  }
}
