/** The FAT as a set of disjoint cluster chains, and what allocation and removal do to that set. */
module FatChains {

  /** `s` follows the links of `fat` from its first cluster to an end-of-chain mark. */
  ghost predicate IsChain(fat: seq<nat>, s: seq<nat>) {
    && |s| > 0
    && (forall i :: 0 <= i < |s| ==> 2 <= s[i] < |fat|)
    && (forall i :: 0 <= i < |s| - 1 ==> fat[s[i]] == s[i + 1])
    && fat[s[|s| - 1]] >= |fat|
  }

  ghost predicate AllChains(fat: seq<nat>, chains: set<seq<nat>>) {
    forall s :: s in chains ==> IsChain(fat, s)
  }

  ghost predicate PairwiseDisjoint(chains: set<seq<nat>>) {
    forall s, t, x :: s in chains && t in chains && x in s && x in t ==> s == t
  }

  ghost predicate CoversUsed(fat: seq<nat>, chains: set<seq<nat>>) {
    forall c :: 2 <= c < |fat| && fat[c] != 0 ==> exists s :: s in chains && c in s
  }

  /** `chains` are pairwise disjoint chains of `fat` that hold every cluster in use. */
  ghost predicate Partition(fat: seq<nat>, chains: set<seq<nat>>) {
    AllChains(fat, chains) && PairwiseDisjoint(chains) && CoversUsed(fat, chains)
  }

  function Last(s: seq<nat>): nat
    requires |s| > 0
  {
    s[|s| - 1]
  }

  ghost predicate NoDuplicates<T>(s: seq<T>) {
    forall i, j :: 0 <= i < j < |s| ==> s[i] != s[j]
  }

  /** Chains are acyclic. */
  lemma ChainAcyclic(fat: seq<nat>, s: seq<nat>)
    requires IsChain(fat, s)
    ensures NoDuplicates(s)
  {
    forall i, j | 0 <= i < j < |s|
      ensures s[i] != s[j]
    {
      ChainDistinct(fat, s, i, j);
    }
  }

  /** Two places of a chain that held the same cluster would reach the end mark together. */
  lemma {:induction false} ChainDistinct(fat: seq<nat>, s: seq<nat>, i: nat, j: nat)
    requires IsChain(fat, s) && i < j < |s|
    ensures s[i] != s[j]
    decreases |s| - j
  {
    assert fat[s[i]] == s[i + 1];
    if j + 1 < |s| {
      assert fat[s[j]] == s[j + 1];
      ChainDistinct(fat, s, i + 1, j + 1);
    }
  }

  /** A chain never passes through a free cluster. */
  lemma ChainInUse(fat: seq<nat>, s: seq<nat>, c: nat)
    requires IsChain(fat, s) && c in s
    ensures 2 <= c < |fat| && fat[c] != 0
  {
    var i :| 0 <= i < |s| && s[i] == c;
    if i < |s| - 1 {
      assert fat[s[i]] == s[i + 1];
    }
  }

  /** Chains that do not hold `c` do not notice a change of entry `c`. */
  lemma ChainsElsewhere(fat: seq<nat>, chains: set<seq<nat>>, c: nat, v: nat)
    requires AllChains(fat, chains) && c < |fat| && forall s :: s in chains ==> c !in s
    ensures AllChains(fat[c := v], chains)
  {
  }

  /** Marking a free cluster end-of-chain starts a new chain and leaves the others alone. */
  lemma NewChain(fat: seq<nat>, chains: set<seq<nat>>, ncl: nat, e: nat)
    requires Partition(fat, chains) && 2 <= ncl < |fat| && fat[ncl] == 0 && e >= |fat|
    ensures Partition(fat[ncl := e], chains + {[ncl]})
    ensures forall s :: s in chains ==> ncl !in s
  {
    var fat1, chains1 := fat[ncl := e], chains + {[ncl]};
    assert AllChains(fat1, chains1) by {
      forall s | s in chains
        ensures ncl !in s
      {
        if ncl in s {
          ChainInUse(fat, s, ncl);
        }
      }
      ChainsElsewhere(fat, chains, ncl, e);
    }
    forall s | s in chains
      ensures ncl !in s
    {
      if ncl in s {
        ChainInUse(fat, s, ncl);
      }
    }
    hide IsChain;
    forall c | 2 <= c < |fat1| && fat1[c] != 0
      ensures exists s :: s in chains1 && c in s
    {
      if c == ncl {
        assert [ncl] in chains1;
      } else {
        var s :| s in chains && c in s;
        assert s in chains1;
      }
    }
  }

  /** Linking a one-cluster chain to the end of another one joins the two. */
  lemma JoinChains(fat: seq<nat>, chains: set<seq<nat>>, s: seq<nat>, ncl: nat)
    requires Partition(fat, chains) && s in chains && [ncl] in chains && s != [ncl]
    ensures Partition(fat[Last(s) := ncl], chains - {s, [ncl]} + {s + [ncl]})
  {
    var rest, j := chains - {s, [ncl]}, s + [ncl];
    assert Last(s) in s && ncl in [ncl];
    JoinedChain(fat, s, ncl);
    ChainsElsewhere(fat, rest, Last(s), ncl);
    hide IsChain;
    JoinedCover(fat, chains, s, ncl);
    assert forall x :: x in j <==> x in s || x in [ncl];
  }

  lemma JoinedCover(fat: seq<nat>, chains: set<seq<nat>>, s: seq<nat>, ncl: nat)
    requires CoversUsed(fat, chains) && |s| > 0 && Last(s) < |fat| && fat[Last(s)] != 0
    ensures CoversUsed(fat[Last(s) := ncl], chains - {s, [ncl]} + {s + [ncl]})
  {
    var fat1, j := fat[Last(s) := ncl], s + [ncl];
    forall c | 2 <= c < |fat1| && fat1[c] != 0
      ensures exists t :: t in chains - {s, [ncl]} + {j} && c in t
    {
      var t :| t in chains && c in t;
      assert t == s || t == [ncl] ==> c in j;
    }
  }

  lemma JoinedChain(fat: seq<nat>, s: seq<nat>, ncl: nat)
    requires IsChain(fat, s) && IsChain(fat, [ncl]) && ncl !in s
    ensures 2 <= ncl < |fat| && IsChain(fat[Last(s) := ncl], s + [ncl])
    ensures fat[Last(s)] != 0
  {
    ChainAcyclic(fat, s);
    assert ncl == [ncl][0];
  }

  /** Marking the predecessor of `s[k]` end-of-chain cuts the chain in two. */
  lemma CutChain(fat: seq<nat>, chains: set<seq<nat>>, s: seq<nat>, k: nat, e: nat)
    requires Partition(fat, chains) && s in chains && 0 < k < |s| && e >= |fat|
    ensures Partition(fat[s[k - 1] := e], chains - {s} + {s[..k], s[k..]})
  {
    hide IsChain, CoversUsed;
    var p, a, b := s[k - 1], s[..k], s[k..];
    assert p in s && s == a + b;
    CutPieces(fat, s, k, e);
    ChainInUse(fat, s, p);
    ChainsElsewhere(fat, chains - {s}, p, e);
    PiecesDisjoint(chains, s, a, b);
    PiecesCover(fat, chains, s, a, b, p, e);
    hide PairwiseDisjoint;
  }

  lemma PiecesDisjoint(chains: set<seq<nat>>, s: seq<nat>, a: seq<nat>, b: seq<nat>)
    requires PairwiseDisjoint(chains) && s in chains && s == a + b && forall x :: !(x in a && x in b)
    ensures PairwiseDisjoint(chains - {s} + {a, b})
  {
    assert forall x :: x in a || x in b ==> x in s;
  }

  lemma PiecesCover(fat: seq<nat>, chains: set<seq<nat>>, s: seq<nat>, a: seq<nat>, b: seq<nat>, p: nat, e: nat)
    requires CoversUsed(fat, chains) && s == a + b && p < |fat| && fat[p] != 0
    ensures CoversUsed(fat[p := e], chains - {s} + {a, b})
  {
    var fat1, chains1 := fat[p := e], chains - {s} + {a, b};
    forall c | 2 <= c < |fat1| && fat1[c] != 0
      ensures exists t :: t in chains1 && c in t
    {
      var t :| t in chains && c in t;
      assert a in chains1 && b in chains1;
      assert t == s || t in chains1;
    }
  }

  lemma CutPieces(fat: seq<nat>, s: seq<nat>, k: nat, e: nat)
    requires IsChain(fat, s) && 0 < k < |s| && e >= |fat|
    ensures 2 <= s[k - 1] < |fat|
    ensures IsChain(fat[s[k - 1] := e], s[..k]) && IsChain(fat[s[k - 1] := e], s[k..])
    ensures forall x :: !(x in s[..k] && x in s[k..])
  {
    ChainAcyclic(fat, s);
  }

  /** Zeroing the entries of one chain removes that chain and leaves the others alone. */
  lemma DropChain(fat: seq<nat>, chains: set<seq<nat>>, t: seq<nat>)
    requires Partition(fat, chains) && t in chains
    ensures forall i :: 0 <= i < |t| ==> t[i] < |fat|
    ensures Partition(ZeroAll(fat, t), chains - {t})
  {
    assert IsChain(fat, t);
    hide IsChain;
    var fat1, chains1 := ZeroAll(fat, t), chains - {t};
    forall s | s in chains1
      ensures IsChain(fat1, s)
    {
      ZeroElsewhere(fat, t, s);
    }
    forall c | 2 <= c < |fat1| && fat1[c] != 0
      ensures exists s :: s in chains1 && c in s
    {
      var s :| s in chains && c in s;
      assert s in chains1;
    }
  }

  lemma ZeroElsewhere(fat: seq<nat>, t: seq<nat>, s: seq<nat>)
    requires (forall i :: 0 <= i < |t| ==> t[i] < |fat|) && IsChain(fat, s) && forall x :: !(x in s && x in t)
    ensures IsChain(ZeroAll(fat, t), s)
  {
    forall i | 0 <= i < |s|
      ensures ZeroAll(fat, t)[s[i]] == fat[s[i]]
    {
      assert s[i] in s;
    }
  }

  /** The entries `x` set to 0, one after the other. */
  function ZeroAll(fat: seq<nat>, x: seq<nat>): (r: seq<nat>)
    requires forall i :: 0 <= i < |x| ==> x[i] < |fat|
    ensures |r| == |fat|
    ensures forall c :: 0 <= c < |fat| ==> r[c] == if c in x then 0 else fat[c]
    decreases x
  {
    if x == [] then fat else ZeroAll(fat[x[0] := 0], x[1..])
  }

  /** The clusters in use, and the free ones. */
  ghost function UsedSet(fat: seq<nat>): set<nat> { set c | 2 <= c < |fat| && fat[c] != 0 }

  ghost function FreeSet(fat: seq<nat>): set<nat> { set c | 2 <= c < |fat| && fat[c] == 0 }

  ghost function CountFree(fat: seq<nat>): nat { |FreeSet(fat)| }

  /** What `remove_chain` frees: the clusters met from `c` on, up to a free one or an end mark; false on a bad link. */
  ghost function FreeWalk(fat: seq<nat>, c: nat): (r: (seq<nat>, bool))
    ensures |r.0| == |fat|
    decreases UsedSet(fat)
  {
    if c < 2 || c >= |fat| || fat[c] == 0 then (fat, true)
    else if fat[c] == 1 then (fat, false)
    else
      ZeroingOne(fat, c);
      FreeWalk(fat[c := 0], fat[c])
  }

  lemma ZeroingOne(fat: seq<nat>, c: nat)
    requires 2 <= c < |fat| && fat[c] != 0
    ensures UsedSet(fat[c := 0]) < UsedSet(fat)
    ensures CountFree(fat[c := 0]) == CountFree(fat) + 1 <= |fat| - 2
  {
    assert c in UsedSet(fat) && c !in UsedSet(fat[c := 0]);
    assert FreeSet(fat[c := 0]) == FreeSet(fat) + {c};
    FreeBound(fat[c := 0]);
  }

  lemma FreeBound(fat: seq<nat>)
    requires |fat| >= 2
    ensures CountFree(fat) <= |fat| - 2
  {
    FreeBoundUpTo(fat, |fat|);
  }

  lemma {:induction false} FreeBoundUpTo(fat: seq<nat>, m: nat)
    requires 2 <= m <= |fat|
    ensures |set c | 2 <= c < m && fat[c] == 0| <= m - 2
  {
    var a := set c | 2 <= c < m && fat[c] == 0;
    if m > 2 {
      FreeBoundUpTo(fat, m - 1);
      var b := set c | 2 <= c < m - 1 && fat[c] == 0;
      assert a == if fat[m - 1] == 0 then b + {m - 1} else b;
    } else {
      assert a == {};
    }
  }

  /** How one entry written changes the number of free clusters. */
  lemma CountAfterWrite(fat: seq<nat>, c: nat, v: nat)
    requires 2 <= c < |fat| && v != 0
    ensures fat[c] == 0 ==> CountFree(fat[c := v]) == CountFree(fat) - 1
    ensures fat[c] != 0 ==> CountFree(fat[c := v]) == CountFree(fat)
  {
    assert FreeSet(fat[c := v]) == FreeSet(fat) - {c};
  }

  /** On any FAT the walk only zeroes entries, starting with `c` and going on wherever an entry it zeroed led, up to a
      free cluster or, if it fails, to a cluster with the bad link 1. */
  lemma {:induction false} FreeWalkZeroes(fat: seq<nat>, c: nat)
    ensures var w := FreeWalk(fat, c);
            && (forall d :: 0 <= d < |fat| ==> w.0[d] == fat[d] || (d >= 2 && w.0[d] == 0))
            && (2 <= c < |fat| ==> w.0[c] == 0 || (w.0[c] == 1 && !w.1))
            && (forall d :: 0 <= d < |fat| && w.0[d] != fat[d] && 2 <= fat[d] < |fat| ==> w.0[fat[d]] <= 1)
            && (!w.1 ==> exists d :: 2 <= d < |fat| && w.0[d] == 1)
    decreases UsedSet(fat)
  {
    if c < 2 || c >= |fat| || fat[c] == 0 {
    } else if fat[c] == 1 {
      assert FreeWalk(fat, c).0[c] == 1;
    } else {
      ZeroingOne(fat, c);
      var fat1, w := fat[c := 0], FreeWalk(fat, c);
      FreeWalkZeroes(fat1, fat[c]);
      assert w == FreeWalk(fat1, fat[c]);
      forall d | 0 <= d < |fat| && w.0[d] != fat[d] && 2 <= fat[d] < |fat|
        ensures w.0[fat[d]] <= 1
      {
        if d != c {
          assert fat1[d] == fat[d];
        }
      }
    }
  }

  /** On a chain, the walk of `remove_chain` frees exactly the chain. */
  lemma {:induction false} FreeWalkOfChain(fat: seq<nat>, s: seq<nat>)
    requires IsChain(fat, s)
    ensures FreeWalk(fat, s[0]) == (ZeroAll(fat, s), true)
    decreases |s|
  {
    ChainAcyclic(fat, s);
    ChainInUse(fat, s, s[0]);
    if |s| > 1 {
      assert fat[s[0]] == s[1];
      var fat1 := fat[s[0] := 0];
      assert IsChain(fat1, s[1..]);
      FreeWalkOfChain(fat1, s[1..]);
    } else {
      assert ZeroAll(fat, s) == fat[s[0] := 0];
    }
  }
}
