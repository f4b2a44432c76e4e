/** File bytes gathered from a list of sectors, and how sector writes and buffer stores patch them. */
module FatFileBytes {
  import opened Bytes
  import opened FatChains
  import opened FatDisk

  ghost predicate SectorsOk(secs: seq<Sector>, s: seq<nat>) {
    NoDuplicates(s) && forall j :: 0 <= j < |s| ==> s[j] < |secs|
  }

  /** The first `size` bytes of the sectors `s`, in order. */
  ghost function Gather(secs: seq<Sector>, s: seq<nat>, size: nat): (r: seq<byte>)
    requires SectorsOk(secs, s) && size <= |s| * SECTOR_SIZE
    ensures |r| == size
  {
    seq(size, k requires 0 <= k < size => secs[s[k / SECTOR_SIZE]][k % SECTOR_SIZE])
  }

  /** `c` with the bytes from `p` on overwritten by `x`, growing at the end when `x` does not fit. */
  function Patched(c: seq<byte>, p: nat, x: seq<byte>): (r: seq<byte>)
    requires p <= |c|
    ensures |r| == if p + |x| > |c| then p + |x| else |c|
    ensures forall k :: 0 <= k < |r| ==> r[k] == if p <= k < p + |x| then x[k - p] else c[k]
  {
    c[..p] + x + (if p + |x| < |c| then c[p + |x|..] else [])
  }

  lemma PatchedTwice(c: seq<byte>, p: nat, x: seq<byte>, y: seq<byte>)
    requires p <= |c|
    ensures Patched(Patched(c, p, x), p + |x|, y) == Patched(c, p, x + y)
  {
  }

  lemma PatchedNothing(c: seq<byte>, p: nat)
    requires p <= |c|
    ensures Patched(c, p, []) == c
  {
  }

  lemma GatherSame(v: seq<Sector>, w: seq<Sector>, s: seq<nat>, size: nat)
    requires SectorsOk(v, s) && |w| == |v| && size <= |s| * SECTOR_SIZE
    requires forall j :: 0 <= j < |s| ==> w[s[j]] == v[s[j]]
    ensures Gather(w, s, size) == Gather(v, s, size)
  {
  }

  /** Bytes gathered from a longer sector list. */
  lemma GatherPrefix(v: seq<Sector>, s: seq<nat>, t: seq<nat>, size: nat)
    requires SectorsOk(v, s) && SectorsOk(v, t) && s <= t && size <= |s| * SECTOR_SIZE
    ensures Gather(v, t, size) == Gather(v, s, size)
  {
    forall k | 0 <= k < size
      ensures Gather(v, t, size)[k] == Gather(v, s, size)[k]
    {
      assert s[k / SECTOR_SIZE] == t[k / SECTOR_SIZE];
    }
  }

  /** Bytes stored in one sector: what they do not cover of the file is as before. */
  lemma PatchOne(v: seq<Sector>, w: seq<Sector>, s: seq<nat>, size: nat, p: nat, x: seq<byte>)
    requires SectorsOk(v, s) && |w| == |v| && p <= size <= |s| * SECTOR_SIZE
    requires p / SECTOR_SIZE < |s| && p % SECTOR_SIZE + |x| <= SECTOR_SIZE
    requires forall j :: 0 <= j < |s| && j != p / SECTOR_SIZE ==> w[s[j]] == v[s[j]]
    requires forall b :: 0 <= b < SECTOR_SIZE && p % SECTOR_SIZE <= b < p % SECTOR_SIZE + |x| ==>
                           w[s[p / SECTOR_SIZE]][b] == x[b - p % SECTOR_SIZE]
    requires forall b :: 0 <= b < SECTOR_SIZE && !(p % SECTOR_SIZE <= b < p % SECTOR_SIZE + |x|)
                         && p - p % SECTOR_SIZE + b < size ==>
                           w[s[p / SECTOR_SIZE]][b] == v[s[p / SECTOR_SIZE]][b]
    ensures p + |x| <= |s| * SECTOR_SIZE
    ensures Gather(w, s, if p + |x| > size then p + |x| else size) == Patched(Gather(v, s, size), p, x)
  {
    var size1 := if p + |x| > size then p + |x| else size;
    var a, b := Gather(w, s, size1), Patched(Gather(v, s, size), p, x);
    forall k | 0 <= k < size1
      ensures a[k] == b[k]
    {
      if k / SECTOR_SIZE == p / SECTOR_SIZE {
        assert k % SECTOR_SIZE - p % SECTOR_SIZE == k - p;
      }
    }
  }

  /** Whole sectors stored over a stretch of the file. */
  lemma PatchRun(v: seq<Sector>, w: seq<Sector>, s: seq<nat>, size: nat, j: nat, x: seq<byte>)
    requires SectorsOk(v, s) && |w| == |v| && j * SECTOR_SIZE <= size <= |s| * SECTOR_SIZE
    requires |x| % SECTOR_SIZE == 0 && j + |x| / SECTOR_SIZE <= |s|
    requires forall i :: 0 <= i < |s| ==>
               w[s[i]]
               == if j <= i < j + |x| / SECTOR_SIZE then x[(i - j) * SECTOR_SIZE..(i - j) * SECTOR_SIZE + SECTOR_SIZE]
                  else v[s[i]]
    ensures j * SECTOR_SIZE + |x| <= |s| * SECTOR_SIZE
    ensures Gather(w, s, if j * SECTOR_SIZE + |x| > size then j * SECTOR_SIZE + |x| else size)
         == Patched(Gather(v, s, size), j * SECTOR_SIZE, x)
  {
    var p := j * SECTOR_SIZE;
    var size1 := if p + |x| > size then p + |x| else size;
    var a, b := Gather(w, s, size1), Patched(Gather(v, s, size), p, x);
    forall k | 0 <= k < size1
      ensures a[k] == b[k]
    {
      var i := k / SECTOR_SIZE;
      assert p <= k < p + |x| <==> j <= i < j + |x| / SECTOR_SIZE;
      assert k - p == (i - j) * SECTOR_SIZE + k % SECTOR_SIZE;
    }
  }

  /** `WriteSectors` over a run of consecutive file sectors. */
  lemma WriteRun(v: seq<Sector>, s: seq<nat>, j: nat, x: seq<byte>)
    requires SectorsOk(v, s) && |x| % SECTOR_SIZE == 0 && |x| > 0 && j + |x| / SECTOR_SIZE <= |s|
    requires forall k :: j <= k < j + |x| / SECTOR_SIZE ==> s[k] == s[j] + (k - j)
    ensures forall i :: 0 <= i < |s| ==>
              WriteSectors(v, s[j], x)[s[i]]
              == if j <= i < j + |x| / SECTOR_SIZE then x[(i - j) * SECTOR_SIZE..(i - j) * SECTOR_SIZE + SECTOR_SIZE]
                else v[s[i]]
  {
    var n := |x| / SECTOR_SIZE;
    forall i | 0 <= i < |s|
      ensures s[j] <= s[i] < s[j] + n <==> j <= i < j + n
    {
      if s[j] <= s[i] < s[j] + n {
        assert s[j + (s[i] - s[j])] == s[i];
      }
    }
  }
}
