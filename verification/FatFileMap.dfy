/** Where the bytes of a file are: from a cluster chain to the list of its sectors, and from the sectors to bytes. */
module FatFileMap {
  import opened Bytes
  import opened FatChains
  import opened FatDisk
  import opened FatGeometry

  /** The first sector of a valid cluster. */
  function First(g: Geometry, c: nat): (s: int)
    requires c >= 2
  {
    g.database + Span(g.csize, c - 2)
  }

  /** The sectors that a chain of `clusters` clusters holds. */
  function Capacity(g: Geometry, clusters: nat): nat { Span(g.csize, clusters) }

  /** The cluster that sector `j` of a file is in, as an index into its chain. */
  function ClusterIndex(g: Geometry, j: nat): nat
    requires g.csize > 0
  {
    j / g.csize
  }

  function SectorInCluster(g: Geometry, j: nat): (r: nat)
    requires g.csize > 0
    ensures r < g.csize
  {
    j % g.csize
  }

  ghost predicate ClustersOk(g: Geometry, ch: seq<nat>) {
    g.Layout() && g.csize > 0 && (forall i :: 0 <= i < |ch| ==> 2 <= ch[i] < g.nFatent) && NoDuplicates(ch)
  }

  lemma SpanGrows(k: nat, c: nat, d: nat)
    ensures c <= d ==> Span(k, c) <= Span(k, d)
    ensures c < d ==> Span(k, c) + k <= Span(k, d)
    ensures Span(k, c + 1) == Span(k, c) + k
  {
    Distribute(k, c, 1);
    if c < d {
      var e: nat := d - c - 1;
      Distribute(k, c + 1, e);
    }
  }

  lemma Distribute(k: nat, a: nat, b: nat)
    ensures Span(k, a + b) == Span(k, a) + k * b && k * b >= 0
  {
  }

  lemma PlaceOfSector(g: Geometry, j: nat)
    requires g.csize > 0
    ensures j == Span(g.csize, ClusterIndex(g, j)) + SectorInCluster(g, j)
  {
  }

  lemma IndexInChain(g: Geometry, n: nat, j: nat)
    requires g.csize > 0
    ensures j < Capacity(g, n) <==> ClusterIndex(g, j) < n
  {
    hide Span, SectorInCluster, ClusterIndex;
    PlaceOfSector(g, j);
    SpanGrows(g.csize, ClusterIndex(g, j), n);
    SpanGrows(g.csize, n, ClusterIndex(g, j));
  }

  /** Sector `j` of a file. */
  ghost function SectorAt(g: Geometry, ch: seq<nat>, j: nat): (s: nat)
    requires ClustersOk(g, ch) && j < Capacity(g, |ch|)
    ensures g.database <= s < g.End()
  {
    hide Span, SectorInCluster, ClusterIndex;
    IndexInChain(g, |ch|, j);
    FirstInData(g, ch[ClusterIndex(g, j)]);
    First(g, ch[ClusterIndex(g, j)]) + SectorInCluster(g, j)
  }

  /** The sectors of a file, in order. */
  ghost function FileSectors(g: Geometry, ch: seq<nat>): (s: seq<nat>)
    requires ClustersOk(g, ch)
    ensures |s| == Capacity(g, |ch|) && forall j :: 0 <= j < |s| ==> g.database <= s[j] < g.End()
  {
    seq(Capacity(g, |ch|), j requires 0 <= j < Capacity(g, |ch|) => SectorAt(g, ch, j))
  }

  /** The sectors of a valid cluster are data sectors. */
  lemma FirstInData(g: Geometry, c: nat)
    requires g.Layout() && 2 <= c < g.nFatent
    ensures g.database <= First(g, c) && First(g, c) + g.csize <= g.End()
  {
    hide Span;
    SpanGrows(g.csize, c - 2, g.nFatent - 2);
  }

  /** `clst2sect` of a valid cluster is its first sector, and is never 0. */
  lemma ClstToSectIsFirst(g: Geometry, c: nat)
    requires g.Layout() && 2 <= c < g.nFatent
    ensures g.ClstToSect(c) == First(g, c) > 0
  {
    hide Span;
    FirstInData(g, c);
  }

  /** The value 0 is for all other cluster numbers. */
  lemma NoSectorOutside(g: Geometry, c: nat)
    requires g.Layout() && c < TWO_32
    ensures g.ClstToSect(c) == 0 <==> c < 2 || c >= g.nFatent
  {
    if 2 <= c < g.nFatent {
      ClstToSectIsFirst(g, c);
    } else {
      hide Span;
      assert (c - 2) % TWO_32 == if c < 2 then c - 2 + TWO_32 else c - 2;
    }
  }

  /** Distinct clusters hold distinct sectors. */
  lemma ClustersDisjoint(g: Geometry, c: nat, r: nat, d: nat, t: nat)
    requires c >= 2 && d >= 2 && r < g.csize && t < g.csize
    requires c != d || r != t
    ensures First(g, c) + r != First(g, d) + t
  {
    hide Span;
    SpanGrows(g.csize, c - 2, d - 2);
    SpanGrows(g.csize, d - 2, c - 2);
  }

  /** No sector occurs twice in a file. */
  lemma FileSectorsDistinct(g: Geometry, ch: seq<nat>)
    requires ClustersOk(g, ch)
    ensures NoDuplicates(FileSectors(g, ch))
  {
    hide Span, SectorInCluster, ClusterIndex, Geometry.Layout;
    var s := FileSectors(g, ch);
    forall i, j | 0 <= i < j < |s|
      ensures s[i] != s[j]
    {
      IndexInChain(g, |ch|, i);
      IndexInChain(g, |ch|, j);
      PlaceOfSector(g, i);
      PlaceOfSector(g, j);
      var p, q := ClusterIndex(g, i), ClusterIndex(g, j);
      assert p != q || SectorInCluster(g, i) != SectorInCluster(g, j);
      ClustersDisjoint(g, ch[p], SectorInCluster(g, i), ch[q], SectorInCluster(g, j));
    }
  }

  /** The sectors of two files without a common cluster are different. */
  lemma OtherFilesDisjoint(g: Geometry, a: seq<nat>, b: seq<nat>, i: nat, j: nat)
    requires ClustersOk(g, a) && ClustersOk(g, b) && forall x :: !(x in a && x in b)
    requires i < |FileSectors(g, a)| && j < |FileSectors(g, b)|
    ensures FileSectors(g, a)[i] != FileSectors(g, b)[j]
  {
    hide Span, SectorInCluster, ClusterIndex, Geometry.Layout;
    IndexInChain(g, |a|, i);
    IndexInChain(g, |b|, j);
    var p, q := ClusterIndex(g, i), ClusterIndex(g, j);
    assert a[p] in a && b[q] in b;
    ClustersDisjoint(g, a[p], SectorInCluster(g, i), b[q], SectorInCluster(g, j));
  }

  /** Stretching a chain keeps the sectors it had. */
  lemma FileSectorsGrow(g: Geometry, ch: seq<nat>, c: nat)
    requires ClustersOk(g, ch) && ClustersOk(g, ch + [c])
    ensures |FileSectors(g, ch + [c])| == |FileSectors(g, ch)| + g.csize
    ensures FileSectors(g, ch) <= FileSectors(g, ch + [c])
  {
    hide Span, SectorInCluster, ClusterIndex, Geometry.Layout;
    SpanGrows(g.csize, |ch|, |ch|);
    var s, t := FileSectors(g, ch), FileSectors(g, ch + [c]);
    forall j | 0 <= j < |s|
      ensures s[j] == t[j]
    {
      IndexInChain(g, |ch|, j);
    }
  }

  /** The sectors of a file run on inside a cluster. */
  lemma RunInCluster(g: Geometry, ch: seq<nat>, j: nat, n: nat)
    requires ClustersOk(g, ch) && j < |FileSectors(g, ch)| && 0 < n && SectorInCluster(g, j) + n <= g.csize
    ensures j + n <= |FileSectors(g, ch)|
    ensures forall k :: j <= k < j + n ==> FileSectors(g, ch)[k] == FileSectors(g, ch)[j] + (k - j)
  {
    hide Span, Geometry.Layout, SectorInCluster, ClusterIndex;
    IndexInChain(g, |ch|, j);
    var s := FileSectors(g, ch);
    SameCluster(g, j, n - 1);
    IndexInChain(g, |ch|, j + n - 1);
    forall k | j <= k < j + n
      ensures s[k] == s[j] + (k - j)
    {
      SameCluster(g, j, k - j);
    }
  }

  lemma SameCluster(g: Geometry, j: nat, i: nat)
    requires g.csize > 0 && SectorInCluster(g, j) + i < g.csize
    ensures ClusterIndex(g, j + i) == ClusterIndex(g, j) && SectorInCluster(g, j + i) == SectorInCluster(g, j) + i
  {
    PlaceOfSector(g, j);
    QuotientUnique(g, j + i, ClusterIndex(g, j), SectorInCluster(g, j) + i);
  }

  lemma QuotientUnique(g: Geometry, j: nat, q: nat, r: nat)
    requires g.csize > 0 && r < g.csize && j == Span(g.csize, q) + r
    ensures ClusterIndex(g, j) == q && SectorInCluster(g, j) == r
  {
    hide Span, SectorInCluster, ClusterIndex;
    PlaceOfSector(g, j);
    SpanGrows(g.csize, q, ClusterIndex(g, j));
    SpanGrows(g.csize, ClusterIndex(g, j), q);
  }

  /** The bytes of a cluster: `bcs`. */
  function ClusterBytes(g: Geometry): nat { Span(g.csize, 1) * 512 }

  /** The cluster that byte `x` of a file is in, as an index into its chain. */
  function ClusterOfByte(g: Geometry, x: nat): int { if ClusterBytes(g) == 0 then 0 else x / ClusterBytes(g) }

  /** Dividing a byte offset by the cluster size gives the index of the cluster. */
  lemma ByteToCluster(g: Geometry, x: nat)
    requires g.csize > 0
    ensures ClusterBytes(g) > 0
    ensures x / ClusterBytes(g) == ClusterIndex(g, x / 512)
    ensures x / ClusterBytes(g) * ClusterBytes(g) == Span(g.csize, ClusterIndex(g, x / 512)) * 512 <= x
  {
    var q, r := ClusterIndex(g, x / 512), SectorInCluster(g, x / 512);
    PlaceOfSector(g, x / 512);
    assert x == (g.csize * q + r) * 512 + x % 512;
    assert (g.csize * 512) * q == g.csize * q * 512;
    UniqueQuotient(g.csize * 512, x, q, r * 512 + x % 512);
  }

  lemma UniqueQuotient(d: nat, x: nat, q: nat, r: nat)
    requires d > 0 && r < d && x == d * q + r
    ensures x / d == q
  {
    hide Span;
    var q1, r1 := x / d, x % d;
    DivisionLaw(x, d);
    SpanGrows(d, q, q1);
    SpanGrows(d, q1, q);
    SpanIsProduct(d, q);
    SpanIsProduct(d, q1);
  }

  lemma DivisionLaw(x: nat, d: nat)
    requires d > 0
    ensures x == d * (x / d) + x % d
  {
  }

  lemma SpanIsProduct(k: nat, n: nat)
    ensures Span(k, n) == k * n
  {
  }
}
