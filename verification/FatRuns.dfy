/** What every run of the allocator keeps: disjoint acyclic chains and an exact free count. */
module FatRuns {
  import opened FatAllocator
  import opened FatChains
  import opened FatVolume

  /** The allocator's state: the FAT array and the free-cluster count, which may be unknown. */
  datatype Alloc = Alloc(fat: seq<nat>, free: nat)

  /** A known free count is the number of zero entries. */
  ghost predicate CountExact(fat: seq<nat>, free: nat) {
    free <= |fat| - 2 ==> free == CountFree(fat)
  }

  /** The FAT is a partition into chains, and the free count is exact. */
  ghost predicate Sound(a: Alloc) {
    |a.fat| >= 3 && CountExact(a.fat, a.free) && exists chains :: Partition(a.fat, chains)
  }

  /** The chain set after `create_chain(clst)` returned the fresh cluster `r`. */
  ghost predicate ChainsAfterCreate(chains: set<seq<nat>>, clst: nat, r: nat, chains1: set<seq<nat>>) {
    if clst == 0 then chains1 == chains + {[r]}
    else exists s :: s in chains && |s| > 0 && Last(s) == clst && chains1 == chains - {s} + {s + [r]}
  }

  /** A cluster with an end mark ends the chain it is in. */
  lemma EndOfItsChain(fat: seq<nat>, chains: set<seq<nat>>, c: nat) returns (s: seq<nat>)
    requires Partition(fat, chains) && 2 <= c < |fat| && fat[c] >= |fat|
    ensures s in chains && |s| > 0 && Last(s) == c
  {
    hide PairwiseDisjoint;
    s :| s in chains && c in s;
    hide CoversUsed;
    var i :| 0 <= i < |s| && s[i] == c;
    if i < |s| - 1 {
      InnerLink(fat, s, i);
    }
  }

  lemma InnerLink(fat: seq<nat>, s: seq<nat>, i: nat)
    requires IsChain(fat, s) && i < |s| - 1
    ensures s[i] < |fat| && fat[s[i]] < |fat|
  {
    assert fat[s[i]] == s[i + 1];
  }

  /** Starting a chain with a free cluster. */
  lemma StartKeeps(a: Alloc, chains: set<seq<nat>>, e: nat, r: nat)
    requires |a.fat| >= 3 && Partition(a.fat, chains) && e >= |a.fat| && 2 <= r < |a.fat| && a.fat[r] == 0
    ensures Partition(a.fat[r := e], chains + {[r]})
    ensures CountFree(a.fat[r := e]) == CountFree(a.fat) - 1 && CountFree(a.fat) <= |a.fat| - 2
    ensures [r] !in chains
  {
    hide AllChains, PairwiseDisjoint, CoversUsed, CountFree;
    NewChain(a.fat, chains, r, e);
    CountAfterWrite(a.fat, r, e);
    FreeBound(a.fat);
    assert r in [r];
  }

  /** Stretching the chain that ends in `clst` by a free cluster. */
  lemma StretchKeeps(a: Alloc, chains: set<seq<nat>>, clst: nat, e: nat, r: nat) returns (s: seq<nat>)
    requires |a.fat| >= 3 && Partition(a.fat, chains) && e >= |a.fat| && 2 <= r < |a.fat| && a.fat[r] == 0
    requires 2 <= clst < |a.fat| && a.fat[clst] >= |a.fat|
    ensures s in chains && |s| > 0 && Last(s) == clst
    ensures Partition(a.fat[r := e][clst := r], chains - {s} + {s + [r]})
    ensures CountFree(a.fat[r := e][clst := r]) == CountFree(a.fat) - 1
  {
    hide AllChains, PairwiseDisjoint, CoversUsed, CountFree;
    StartKeeps(a, chains, e, r);
    s := EndOfItsChain(a.fat, chains, clst);
    JoinChains(a.fat[r := e], chains + {[r]}, s, r);
    CountAfterWrite(a.fat[r := e], clst, r);
    assert chains + {[r]} - {s, [r]} + {s + [r]} == chains - {s} + {s + [r]};
  }

  /** Creating keeps the chains: it adds one free cluster to the end of one chain, or follows an existing link. */
  lemma CreateKeepsChains(a: Alloc, chains: set<seq<nat>>, clst: nat, e: nat, r: nat, b: Alloc)
    returns (chains1: set<seq<nat>>)
    requires |a.fat| >= 3 && CountExact(a.fat, a.free) && Partition(a.fat, chains) && e >= |a.fat|
    requires CreateOutcome(a.fat, a.free, clst, e, r, b.fat, b.free)
    ensures Partition(b.fat, chains1) && CountExact(b.fat, b.free) && |b.fat| == |a.fat|
    ensures b == a ==> chains1 == chains
    ensures b != a ==> 2 <= r < |a.fat| && a.fat[r] == 0 && ChainsAfterCreate(chains, clst, r, chains1)
  {
    hide Partition, CountFree;
    chains1 := chains;
    if b != a {
      StartKeeps(a, chains, e, r);
      if clst == 0 {
        chains1 := chains + {[r]};
      } else {
        var s := StretchKeeps(a, chains, clst, e, r);
        chains1 := chains - {s} + {s + [r]};
      }
    }
  }

  /** The call `remove_chain(clst, pclst)` respects its contract: `clst` is in a chain, right after `pclst` if that is
      not 0. */
  ghost predicate RemoveLegal(chains: set<seq<nat>>, s: seq<nat>, k: nat, clst: nat, pclst: nat) {
    s in chains && k < |s| && s[k] == clst && pclst == if k == 0 then 0 else s[k - 1]
  }

  /** Cutting `s` before `s[k]` leaves the rest of `s` as a chain of its own. */
  lemma CutKeeps(a: Alloc, chains: set<seq<nat>>, s: seq<nat>, k: nat, pclst: nat, e: nat, fat0: seq<nat>)
    returns (chains0: set<seq<nat>>)
    requires |a.fat| >= 3 && Partition(a.fat, chains) && e >= |a.fat|
    requires s in chains && k < |s| && pclst == if k == 0 then 0 else s[k - 1]
    requires pclst < |a.fat| && fat0 == if k == 0 then a.fat else a.fat[pclst := e]
    ensures Partition(fat0, chains0) && s[k..] in chains0 && CountFree(fat0) == CountFree(a.fat)
    ensures chains0 - {s[k..]} == if k == 0 then chains - {s} else chains - {s} + {s[..k]}
  {
    hide AllChains, CoversUsed, CountFree, IsChain;
    if k == 0 {
      assert s[k..] == s;
      chains0 := chains;
    } else {
      CutChain(a.fat, chains, s, k, e);
      assert AllChains(a.fat, chains) && IsChain(a.fat, s) by { OneChain(a.fat, chains, s); }
      ChainInUse(a.fat, s, pclst);
      CountAfterWrite(a.fat, pclst, e);
      assert s[k] in s[k..] && s[k] in s;
      assert s[k..] !in chains - {s};
      ChainAcyclic(a.fat, s);
      assert s[..k] != s[k..] by { assert s[k - 1] in s[..k]; assert s[..k][0] == s[0]; assert s[k..][0] == s[k]; }
      chains0 := chains - {s} + {s[..k], s[k..]};
    }
  }

  lemma OneChain(fat: seq<nat>, chains: set<seq<nat>>, s: seq<nat>)
    requires AllChains(fat, chains) && s in chains
    ensures IsChain(fat, s)
  {
  }

  /** Removing keeps the chains: it frees exactly the rest of one chain, and the count grows by that many. */
  lemma RemoveKeepsChains(a: Alloc, chains: set<seq<nat>>, s: seq<nat>, k: nat, clst: nat, pclst: nat, e: nat,
                          res: FResult, b: Alloc)
    requires |a.fat| >= 3 && CountExact(a.fat, a.free) && Partition(a.fat, chains) && e >= |a.fat|
    requires RemoveLegal(chains, s, k, clst, pclst)
    requires RemoveOutcome(a.fat, a.free, clst, pclst, e, res, b.fat, b.free)
    ensures res == FrOk && |b.fat| == |a.fat| && CountExact(b.fat, b.free)
    ensures Partition(b.fat, if k == 0 then chains - {s} else chains - {s} + {s[..k]})
    ensures forall c :: 0 <= c < |a.fat| ==>
              b.fat[c] == if c in s[k..] then 0 else if k > 0 && c == pclst then e else a.fat[c]
  {
    hide PairwiseDisjoint, AllChains, CoversUsed, CountFree, FreeWalk;
    OneChain(a.fat, chains, s);
    assert 2 <= clst < |a.fat| && pclst < |a.fat|;
    hide IsChain;
    var fat0 := if k == 0 then a.fat else a.fat[pclst := e];
    var chains0 := CutKeeps(a, chains, s, k, pclst, e, fat0);
    OneChain(fat0, chains0, s[k..]);
    FreeWalkOfChain(fat0, s[k..]);
    DropChain(fat0, chains0, s[k..]);
    FreeBound(b.fat);
  }

  datatype Op = Create(clst: nat) | Remove(clst: nat, pclst: nat)

  /** One allocator call that met no disk error, made as its contract asks. */
  ghost predicate Step(a: Alloc, op: Op, e: nat, b: Alloc) {
    match op
    case Create(clst) => exists r :: CreateOutcome(a.fat, a.free, clst, e, r, b.fat, b.free)
    case Remove(clst, pclst) =>
      && (exists res :: RemoveOutcome(a.fat, a.free, clst, pclst, e, res, b.fat, b.free))
      && (exists chains, s, k :: Partition(a.fat, chains) && RemoveLegal(chains, s, k, clst, pclst))
  }

  lemma StepKeepsSound(a: Alloc, op: Op, e: nat, b: Alloc)
    requires Sound(a) && e >= |a.fat| && Step(a, op, e, b)
    ensures Sound(b) && |b.fat| == |a.fat|
  {
    hide Partition, CountExact, CreateOutcome, RemoveOutcome;
    match op
    case Create(clst) =>
      var r :| CreateOutcome(a.fat, a.free, clst, e, r, b.fat, b.free);
      var chains :| Partition(a.fat, chains);
      var chains1 := CreateKeepsChains(a, chains, clst, e, r, b);
    case Remove(clst, pclst) =>
      var res :| RemoveOutcome(a.fat, a.free, clst, pclst, e, res, b.fat, b.free);
      var chains, s, k :| Partition(a.fat, chains) && RemoveLegal(chains, s, k, clst, pclst);
      RemoveKeepsChains(a, chains, s, k, clst, pclst, e, res, b);
  }

  /** `states` is a run of the allocator through the calls `ops`. */
  ghost predicate Run(states: seq<Alloc>, ops: seq<Op>, e: nat) {
    |states| == |ops| + 1 && forall i :: 0 <= i < |ops| ==> Step(states[i], ops[i], e, states[i + 1])
  }

  /** Every run from a sound FAT stays sound: disjoint acyclic chains, and an exact free count, in every state. */
  lemma {:induction false} RunKeepsSound(states: seq<Alloc>, ops: seq<Op>, e: nat, i: nat)
    requires Run(states, ops, e) && Sound(states[0]) && e >= |states[0].fat| && i < |states|
    ensures Sound(states[i]) && |states[i].fat| == |states[0].fat|
  {
    if i > 0 {
      RunKeepsSound(states, ops, e, i - 1);
      StepKeepsSound(states[i - 1], ops[i - 1], e, states[i]);
    }
  }
}
