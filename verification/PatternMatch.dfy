/** The wildcard matcher of `f_findnext`: bounded recursion, a packed skip count, and an early exit from its search. */
module PatternMatch {

  const QUESTION := '?' as nat
  const STAR := '*' as nat

  /** Case folding keeps the end of a string apart from its characters. */
  ghost predicate Folds(up: nat -> nat) {
    up(0) == 0 && forall c: nat :: c != 0 ==> up(c) != 0
  }

  /** A string is the sequence of its characters, none of them 0. */
  ghost predicate Text(s: seq<nat>) {
    forall i :: 0 <= i < |s| ==> s[i] != 0
  }

  predicate Wild(c: nat) { c == QUESTION || c == STAR }

  /** What a pattern means: `?` is any character, `*` any characters, anything else itself up to case. */
  ghost predicate Glob(up: nat -> nat, p: seq<nat>, n: seq<nat>)
    decreases |p|
  {
    if p == [] then n == []
    else if p[0] == QUESTION then n != [] && Glob(up, p[1..], n[1..])
    else if p[0] == STAR then exists k :: 0 <= k <= |n| && Glob(up, p[1..], n[k..])
    else n != [] && up(p[0]) == up(n[0]) && Glob(up, p[1..], n[1..])
  }

  /** The wildcards a pattern starts with. */
  function RunLength(p: seq<nat>): (r: nat)
    ensures r <= |p|
    ensures forall i :: 0 <= i < r ==> Wild(p[i])
    ensures r < |p| ==> !Wild(p[r])
    ensures p != [] && Wild(p[0]) ==> r > 0
  {
    if p == [] || !Wild(p[0]) then 0 else 1 + RunLength(p[1..])
  }

  /** The number of wildcard runs of a pattern. */
  function Runs(p: seq<nat>): nat
    decreases |p|
  {
    if p == [] then 0 else if Wild(p[0]) then 1 + Runs(p[RunLength(p)..]) else Runs(p[1..])
  }

  function Questions(run: seq<nat>): nat {
    if run == [] then 0 else (if run[0] == QUESTION then 1 else 0) + Questions(run[1..])
  }

  /** `sk` or-ed with bit 8. */
  function OrBit8(sk: nat): nat { if sk / 0x100 % 2 == 1 then sk else sk + 0x100 }

  /** The packed count the matcher makes of a run: the number of `?` below, and a bit for `*` right above it. */
  function Packed(sk: nat, run: seq<nat>): nat
    decreases |run|
  {
    if run == [] then sk else Packed(if run[0] == QUESTION then sk + 1 else OrBit8(sk), run[1..])
  }

  /** How a packed count is read: at least its low byte of characters if a higher bit is set, else exactly that many. */
  predicate Skips(sk: nat, k: nat) {
    if sk >= 0x100 then k >= sk % 0x100 else k == sk
  }

  /** The language the matcher recognizes, every run read through its packed count. */
  ghost predicate RunGlob(up: nat -> nat, p: seq<nat>, n: seq<nat>)
    decreases |p|, 0
  {
    if p == [] then n == []
    else if Wild(p[0]) then RunThen(up, p[RunLength(p)..], Packed(0, p[..RunLength(p)]), n)
    else n != [] && up(p[0]) == up(n[0]) && RunGlob(up, p[1..], n[1..])
  }

  /** Some characters that `sk` allows to skip, then the pattern `p`. */
  ghost predicate RunThen(up: nat -> nat, p: seq<nat>, sk: nat, n: seq<nat>)
    decreases |p|, 1
  {
    exists k :: 0 <= k <= |n| && Skips(sk, k) && RunGlob(up, p, n[k..])
  }

  /** The literal characters a pattern starts with. */
  function LiteralLength(p: seq<nat>): (r: nat)
    ensures r <= |p|
    ensures forall i :: 0 <= i < r ==> !Wild(p[i])
    ensures r < |p| ==> Wild(p[r])
  {
    if p == [] || Wild(p[0]) then 0 else 1 + LiteralLength(p[1..])
  }

  /** A match is at least as long as the literal start of the pattern: the reason why the search may stop at the end of
      a name. */
  lemma {:induction false} NoShortMatch(up: nat -> nat, p: seq<nat>, n: seq<nat>)
    requires RunGlob(up, p, n)
    ensures |n| >= LiteralLength(p)
    decreases |p|
  {
    if p != [] && !Wild(p[0]) {
      NoShortMatch(up, p[1..], n[1..]);
    }
  }

  /** Matching goes through the literal start character by character. */
  lemma {:induction false} AfterLiterals(up: nat -> nat, p: seq<nat>, n: seq<nat>, i: nat)
    requires i <= LiteralLength(p) && i <= |n| && forall j :: 0 <= j < i ==> up(p[j]) == up(n[j])
    ensures RunGlob(up, p, n) <==> RunGlob(up, p[i..], n[i..])
    ensures Runs(p) == Runs(p[i..]) && LiteralLength(p[i..]) == LiteralLength(p) - i
    decreases |p|
  {
    if i > 0 {
      AfterLiterals(up, p[1..], n[1..], i - 1);
      assert p[1..][i - 1..] == p[i..] && n[1..][i - 1..] == n[i..];
    } else {
      assert p[0..] == p && n[0..] == n;
    }
  }

  /** `get_achar`: the folded character a string starts with, 0 at its end. */
  function FoldedHead(up: nat -> nat, s: seq<nat>): nat { if s == [] then 0 else up(s[0]) }

  /** The analysis of a wildcard run: its packed count, and the pattern after it. */
  method PackRun(pat: seq<nat>) returns (sk: nat, rest: seq<nat>)
    requires pat != [] && Wild(pat[0])
    ensures sk == Packed(0, pat[..RunLength(pat)]) && rest == pat[RunLength(pat)..]
  {
    sk, rest := 0, pat;
    ghost var r := RunLength(pat);
    while rest != [] && Wild(rest[0])
      invariant |rest| <= |pat| && rest == pat[|pat| - |rest|..] && |pat| - |rest| <= r
      invariant Packed(0, pat[..r]) == Packed(sk, pat[|pat| - |rest|..r])
      decreases |rest|
    {
      ghost var run := pat[|pat| - |rest|..r];
      RunLengthStops(pat, |pat| - |rest|);
      assert run[1..] == pat[|pat| - |rest| + 1..r];
      sk := if rest[0] == QUESTION then sk + 1 else OrBit8(sk);
      rest := rest[1..];
    }
    RunLengthStops(pat, |pat| - |rest|);
  }

  lemma {:induction false} RunLengthStops(pat: seq<nat>, i: nat)
    requires i <= RunLength(pat)
    ensures i < RunLength(pat) <==> i < |pat| && Wild(pat[i])
  {
  }

  /** One attempt of the matcher at the start of `nam`: the branch of its inner loop. `nchr` is 0 only at the end of the
      name. */
  method TryHere(up: nat -> nat, pat: seq<nat>, nam: seq<nat>, recur: nat) returns (matched: bool, tooDeep: bool,
                 nchr: nat)
    requires Folds(up) && Text(pat) && Text(nam)
    ensures matched <==> Runs(pat) <= recur && RunGlob(up, pat, nam)
    ensures tooDeep ==> Runs(pat) > recur
    ensures !matched && !tooDeep && nchr == 0 ==> |nam| <= LiteralLength(pat)
    ensures !matched && !tooDeep && nchr != 0 ==> nam != []
    decreases recur, 1
  {
    var pptr, nptr := pat, nam;
    ghost var i := 0;
    matched, tooDeep, nchr := false, false, 1;
    while true
      invariant i <= LiteralLength(pat) && i <= |nam| && pptr == pat[i..] && nptr == nam[i..]
      invariant forall j :: 0 <= j < i ==> up(pat[j]) == up(nam[j])
      decreases |pptr|
    {
      AfterLiterals(up, pat, nam, i);
      if pptr != [] && Wild(pptr[0]) {
        if recur == 0 {
          tooDeep := true;
          return;
        }
        var sk, rest := PackRun(pptr);
        matched := Match(up, rest, nptr, sk, recur - 1);
        nchr := if nptr == [] then 0 else nptr[0];
        return;
      }
      var pchr := FoldedHead(up, pptr);
      nchr := FoldedHead(up, nptr);
      if pchr != nchr {
        return;
      }
      if pchr == 0 {
        matched := true;
        return;
      }
      pptr, nptr, i := pptr[1..], nptr[1..], i + 1;
    }
  }

  /** Why the search may stop: a plain count allows one start only, and past the end of the name there is no match. */
  lemma NoLaterMatch(up: nat -> nat, pat: seq<nat>, name: seq<nat>, count: nat, at: nat, recur: nat, nchr: nat)
    requires count % 0x100 <= at <= |name| && (count < 0x100 ==> at == count)
    requires forall k :: count % 0x100 <= k <= at ==> !(Runs(pat) <= recur && RunGlob(up, pat, name[k..]))
    requires count >= 0x100 ==> nchr == 0 && |name| - at <= LiteralLength(pat)
    ensures !(Runs(pat) <= recur && RunThen(up, pat, count, name))
  {
    if Runs(pat) <= recur && RunThen(up, pat, count, name) {
      var k :| 0 <= k <= |name| && Skips(count, k) && RunGlob(up, pat, name[k..]);
      NoShortMatch(up, pat, name[k..]);
    }
  }

  /** `pattern_match`. */
  method Match(up: nat -> nat, pat: seq<nat>, name: seq<nat>, count: nat, recur: nat) returns (r: bool)
    requires Folds(up) && Text(pat) && Text(name)
    ensures r <==> Runs(pat) <= recur && RunThen(up, pat, count, name)
    decreases recur, 2
  {
    var nam, skip := name, count;
    while skip % 0x100 != 0
      invariant skip <= count && count - skip <= |name| && nam == name[count - skip..]
      invariant count - skip <= count % 0x100 && skip % 0x100 == count % 0x100 - (count - skip)
      decreases skip
    {
      if nam == [] {
        return false;
      }
      nam, skip := nam[1..], skip - 1;
    }
    if pat == [] && skip != 0 {
      assert Skips(count, |name|) && name[|name|..] == [];
      return true;
    }
    ghost var q := count % 0x100;
    while true
      invariant |nam| <= |name| - q && nam == name[|name| - |nam|..]
      invariant forall k :: q <= k < |name| - |nam| ==> !(Runs(pat) <= recur && RunGlob(up, pat, name[k..]))
      invariant skip == 0 ==> |nam| == |name| - q
      decreases |nam|
    {
      var matched, tooDeep, nchr := TryHere(up, pat, nam, recur);
      if matched {
        return true;
      }
      if tooDeep {
        return false;
      }
      if skip == 0 || nchr == 0 {
        NoLaterMatch(up, pat, name, count, |name| - |nam|, recur, nchr);
        return false;
      }
      nam := nam[1..];
    }
  }

  const FIND_RECURS := 4

  /** `f_findnext`'s test of a name. */
  method FindMatches(up: nat -> nat, pat: seq<nat>, name: seq<nat>) returns (r: bool)
    requires Folds(up) && Text(pat) && Text(name)
    ensures r <==> Found(up, pat, name)
    ensures RunsShort(pat) ==> (r <==> Runs(pat) <= FIND_RECURS && Glob(up, pat, name))
  {
    r := Match(up, pat, name, 0, FIND_RECURS);
    assert name[0..] == name;
    if RunsShort(pat) {
      RunGlobIsGlob(up, pat, name);
    }
  }

  /** Every wildcard run has fewer than 256 `?`. */
  predicate RunsShort(p: seq<nat>)
    decreases |p|
  {
    if p == [] then true
    else if Wild(p[0]) then Questions(p[..RunLength(p)]) < 0x100 && RunsShort(p[RunLength(p)..])
    else RunsShort(p[1..])
  }

  predicate AllWild(run: seq<nat>) { forall i :: 0 <= i < |run| ==> Wild(run[i]) }

  /** What the packed count of a run comes to. */
  lemma {:induction false} PackedValue(sk: nat, run: seq<nat>)
    requires AllWild(run)
    ensures Packed(sk, run) % 0x100 == (sk + Questions(run)) % 0x100
    ensures Packed(sk, run) >= sk + Questions(run)
    ensures STAR !in run ==> Packed(sk, run) == sk + Questions(run)
    ensures STAR in run ==> Packed(sk, run) >= 0x100
    decreases |run|
  {
    if run != [] {
      assert run == [run[0]] + run[1..];
      OrBit8Value(sk);
      PackedValue(if run[0] == QUESTION then sk + 1 else OrBit8(sk), run[1..]);
      hide OrBit8;
      SameLowByte(OrBit8(sk), sk, Questions(run[1..]));
    }
  }

  lemma OrBit8Value(sk: nat)
    ensures OrBit8(sk) % 0x100 == sk % 0x100 && OrBit8(sk) >= sk && OrBit8(sk) >= 0x100
  {
  }

  lemma SameLowByte(a: nat, b: nat, n: nat)
    ensures a % 0x100 == b % 0x100 ==> (a + n) % 0x100 == (b + n) % 0x100
  {
  }

  /** What a run of wildcards means in a pattern: any number of characters from its `?` count on, or exactly that
      many. */
  ghost predicate RunMeans(run: seq<nat>, k: nat) {
    if STAR in run then k >= Questions(run) else k == Questions(run)
  }

  lemma {:induction false} GlobOfRun(up: nat -> nat, run: seq<nat>, rest: seq<nat>, n: seq<nat>)
    requires AllWild(run)
    ensures Glob(up, run + rest, n) <==> exists k :: 0 <= k <= |n| && RunMeans(run, k) && Glob(up, rest, n[k..])
    decreases |run|
  {
    if run == [] {
      assert run + rest == rest && n[0..] == n;
    } else {
      assert (run + rest)[1..] == run[1..] + rest && run == [run[0]] + run[1..];
      if run[0] == QUESTION {
        QuestionFirst(up, run, rest, n);
      } else {
        StarFirst(up, run, rest, n);
      }
    }
  }

  lemma {:induction false} QuestionFirst(up: nat -> nat, run: seq<nat>, rest: seq<nat>, n: seq<nat>)
    requires AllWild(run) && run != [] && run[0] == QUESTION
    requires run == [run[0]] + run[1..] && (run + rest)[1..] == run[1..] + rest
    ensures Glob(up, run + rest, n) <==> exists k :: 0 <= k <= |n| && RunMeans(run, k) && Glob(up, rest, n[k..])
    decreases |run|, 0
  {
    if n != [] {
      GlobOfRun(up, run[1..], rest, n[1..]);
      if Glob(up, run[1..] + rest, n[1..]) {
        var k :| 0 <= k <= |n[1..]| && RunMeans(run[1..], k) && Glob(up, rest, n[1..][k..]);
        assert n[1..][k..] == n[k + 1..] && RunMeans(run, k + 1);
      }
      if k :| 0 <= k <= |n| && RunMeans(run, k) && Glob(up, rest, n[k..]) {
        assert n[1..][k - 1..] == n[k..] && RunMeans(run[1..], k - 1);
      }
    }
  }

  lemma {:induction false} StarFirst(up: nat -> nat, run: seq<nat>, rest: seq<nat>, n: seq<nat>)
    requires AllWild(run) && run != [] && run[0] == STAR
    requires run == [run[0]] + run[1..] && (run + rest)[1..] == run[1..] + rest
    ensures Glob(up, run + rest, n) <==> exists k :: 0 <= k <= |n| && RunMeans(run, k) && Glob(up, rest, n[k..])
    decreases |run|, 0
  {
    if Glob(up, run + rest, n) {
      var j :| 0 <= j <= |n| && Glob(up, run[1..] + rest, n[j..]);
      GlobOfRun(up, run[1..], rest, n[j..]);
      var k :| 0 <= k <= |n[j..]| && RunMeans(run[1..], k) && Glob(up, rest, n[j..][k..]);
      assert n[j..][k..] == n[j + k..] && RunMeans(run, j + k);
    }
    if k :| 0 <= k <= |n| && RunMeans(run, k) && Glob(up, rest, n[k..]) {
      var q := Questions(run[1..]);
      GlobOfRun(up, run[1..], rest, n[k - q..]);
      assert n[k - q..][q..] == n[k..] && RunMeans(run[1..], q);
      assert Glob(up, run[1..] + rest, n[k - q..]);
    }
  }

  /** With short runs the matcher's language is the meaning of the pattern. */
  lemma {:induction false} RunGlobIsGlob(up: nat -> nat, p: seq<nat>, n: seq<nat>)
    requires RunsShort(p)
    ensures RunGlob(up, p, n) <==> Glob(up, p, n)
    decreases |p|
  {
    if p != [] {
      if Wild(p[0]) {
        var run, rest := p[..RunLength(p)], p[RunLength(p)..];
        assert p == run + rest;
        PackedValue(0, run);
        GlobOfRun(up, run, rest, n);
        forall k | 0 <= k <= |n|
          ensures Skips(Packed(0, run), k) <==> RunMeans(run, k)
          ensures RunGlob(up, rest, n[k..]) <==> Glob(up, rest, n[k..])
        {
          RunGlobIsGlob(up, rest, n[k..]);
        }
      } else if n != [] {
        RunGlobIsGlob(up, p[1..], n[1..]);
      }
    }
  }

  /** The fewest characters a pattern can match, and a shortest name the matcher accepts for it. */
  function MinLength(p: seq<nat>): nat {
    if p == [] then 0 else (if p[0] == STAR then 0 else 1) + MinLength(p[1..])
  }

  function Shortest(p: seq<nat>): (n: seq<nat>)
    decreases |p|
  {
    if p == [] then []
    else if Wild(p[0]) then seq(Questions(p[..RunLength(p)]) % 0x100, i => 1) + Shortest(p[RunLength(p)..])
    else [p[0]] + Shortest(p[1..])
  }

  lemma {:induction false} GlobLength(up: nat -> nat, p: seq<nat>, n: seq<nat>)
    requires Glob(up, p, n)
    ensures |n| >= MinLength(p)
    decreases |p|
  {
    if p != [] {
      if p[0] == STAR {
        var k :| 0 <= k <= |n| && Glob(up, p[1..], n[k..]);
        GlobLength(up, p[1..], n[k..]);
      } else {
        GlobLength(up, p[1..], n[1..]);
      }
    }
  }

  lemma {:induction false} MinLengthOfRun(run: seq<nat>, rest: seq<nat>)
    requires AllWild(run)
    ensures MinLength(run + rest) == Questions(run) + MinLength(rest)
    decreases |run|
  {
    if run == [] {
      assert run + rest == rest;
    } else {
      assert (run + rest)[1..] == run[1..] + rest;
      MinLengthOfRun(run[1..], rest);
    }
  }

  /** The name that the matcher takes for a run: one character for each `?`, modulo 256. */
  lemma ShortestRun(up: nat -> nat, p: seq<nat>)
    requires p != [] && Wild(p[0]) && RunGlob(up, p[RunLength(p)..], Shortest(p[RunLength(p)..]))
    ensures RunGlob(up, p, Shortest(p))
  {
    hide Packed, Questions, Skips, RunLength, Shortest;
    var run, rest := p[..RunLength(p)], p[RunLength(p)..];
    var q, s := Questions(run) % 0x100, Shortest(p);
    SkipsShort(run);
    ShortestOfRun(p);
    assert s[q..] == Shortest(rest);
    assert RunThen(up, rest, Packed(0, run), s);
  }

  lemma LengthOfRun(p: seq<nat>)
    requires p != [] && Wild(p[0])
    requires var rest := p[RunLength(p)..];
             |Shortest(rest)| <= MinLength(rest) && (!RunsShort(rest) ==> |Shortest(rest)| < MinLength(rest))
    ensures |Shortest(p)| <= MinLength(p) && (!RunsShort(p) ==> |Shortest(p)| < MinLength(p))
  {
    hide Questions, RunLength, Shortest, MinLength;
    var run, rest := p[..RunLength(p)], p[RunLength(p)..];
    assert p == run + rest;
    MinLengthOfRun(run, rest);
    ShortestOfRun(p);
    LowByteBelow(Questions(run));
  }

  lemma LowByteBelow(n: nat)
    ensures n % 0x100 <= n && (n >= 0x100 ==> n % 0x100 < n)
  {
  }

  lemma ShortestOfRun(p: seq<nat>)
    requires p != [] && Wild(p[0])
    ensures Shortest(p) == seq(Questions(p[..RunLength(p)]) % 0x100, i => 1) + Shortest(p[RunLength(p)..])
  {
  }

  lemma SkipsShort(run: seq<nat>)
    requires AllWild(run)
    ensures Skips(Packed(0, run), Questions(run) % 0x100)
  {
    hide Packed, Questions;
    PackedValue(0, run);
  }

  lemma {:induction false} ShortestMatches(up: nat -> nat, p: seq<nat>)
    requires Text(p)
    ensures RunGlob(up, p, Shortest(p)) && Text(Shortest(p))
    ensures |Shortest(p)| <= MinLength(p) && (!RunsShort(p) ==> |Shortest(p)| < MinLength(p))
    decreases |p|
  {
    if p != [] {
      if Wild(p[0]) {
        ShortestMatches(up, p[RunLength(p)..]);
        ShortestRun(up, p);
        LengthOfRun(p);
        ShortestOfRun(p);
        hide RunGlob, MinLength, RunsShort, Shortest, Questions, RunLength;
      } else {
        ShortestMatches(up, p[1..]);
        assert Shortest(p)[1..] == Shortest(p[1..]);
      }
    }
  }

  /** Without a bound on recursion the matcher would be right about every name exactly when every wildcard run of the
      pattern has fewer than 256 `?`. */
  lemma RightIffRunsShort(up: nat -> nat, p: seq<nat>)
    requires Folds(up) && Text(p)
    ensures (forall n :: Text(n) ==> (RunGlob(up, p, n) <==> Glob(up, p, n))) <==> RunsShort(p)
  {
    if RunsShort(p) {
      forall n | Text(n)
        ensures RunGlob(up, p, n) <==> Glob(up, p, n)
      {
        RunGlobIsGlob(up, p, n);
      }
    } else {
      ShortestMatches(up, p);
      if Glob(up, p, Shortest(p)) {
        GlobLength(up, p, Shortest(p));
      }
    }
  }

  /** A name that a pattern matches, with nothing for each `*` and any character for each `?`. */
  function Sample(p: seq<nat>): (n: seq<nat>) {
    if p == [] then [] else (if p[0] == STAR then [] else if p[0] == QUESTION then [1] else [p[0]]) + Sample(p[1..])
  }

  lemma {:induction false} SampleMatches(up: nat -> nat, p: seq<nat>)
    requires Text(p)
    ensures Glob(up, p, Sample(p)) && Text(Sample(p))
    decreases |p|
  {
    if p != [] {
      var n := Sample(p);
      SampleMatches(up, p[1..]);
      if p[0] == STAR {
        assert n[0..] == n == Sample(p[1..]);
      } else {
        assert n[1..] == Sample(p[1..]);
      }
    }
  }

  /** What `f_findnext`'s test of a name computes, as `FindMatches` shows. */
  ghost predicate Found(up: nat -> nat, p: seq<nat>, n: seq<nat>) { Runs(p) <= FIND_RECURS && RunGlob(up, p, n) }

  /** The test is right about every name exactly when the pattern has at most four wildcard runs, each with fewer than
      256 `?`. */
  lemma RightIff(up: nat -> nat, p: seq<nat>)
    requires Folds(up) && Text(p)
    ensures (forall n :: Text(n) ==> (Found(up, p, n) <==> Glob(up, p, n))) <==> RunsShort(p) && Runs(p) <= 4
  {
    hide Glob, RunGlob, RunsShort, Runs, Sample;
    if Runs(p) <= FIND_RECURS {
      RightIffRunsShort(up, p);
      assert forall n :: Found(up, p, n) <==> RunGlob(up, p, n);
    } else {
      SampleMatches(up, p);
      assert !Found(up, p, Sample(p));
    }
  }

  /** The pattern `*a*a...*` with `k` letters, and `k` letters. */
  function Stars(k: nat): (p: seq<nat>) { if k == 0 then [STAR] else [STAR, 97] + Stars(k - 1) }

  function Letters(k: nat): (n: seq<nat>) { if k == 0 then [] else [97] + Letters(k - 1) }

  lemma {:induction false} StarsRuns(k: nat)
    ensures Text(Stars(k)) && RunsShort(Stars(k)) && Runs(Stars(k)) == k + 1
    decreases k
  {
    hide Runs, RunsShort;
    StarFirstHere(k);
    OneRun(Stars(k));
    if k == 0 {
      assert [STAR][1..] == [];
      NoRuns();
    } else {
      StarsRuns(k - 1);
      StarFirstHere(k - 1);
      AfterLetter(Stars(k - 1));
      assert Stars(k)[1..] == [97] + Stars(k - 1);
    }
  }

  lemma StarFirstHere(k: nat)
    ensures Stars(k) != [] && Stars(k)[0] == STAR && (|Stars(k)| > 1 ==> !Wild(Stars(k)[1]))
  {
  }

  lemma NoRuns()
    ensures Runs([]) == 0 && RunsShort([])
  {
  }

  lemma AfterLetter(p: seq<nat>)
    ensures Runs([97] + p) == Runs(p) && (RunsShort([97] + p) <==> RunsShort(p))
  {
    assert ([97] + p)[1..] == p;
  }

  lemma {:induction false} StarsSample(k: nat)
    ensures Sample(Stars(k)) == Letters(k)
    decreases k
  {
    if k == 0 {
      assert [STAR][1..] == [];
    } else {
      StarsSample(k - 1);
      assert Stars(k)[1..] == [97] + Stars(k - 1) && Stars(k)[1..][1..] == Stars(k - 1);
      assert Sample(Stars(k)[1..]) == [97] + Sample(Stars(k - 1));
    }
  }

  lemma OneRun(p: seq<nat>)
    requires p != [] && p[0] == STAR && (|p| > 1 ==> !Wild(p[1]))
    ensures RunLength(p) == 1 && Questions(p[..1]) == 0
    ensures Runs(p) == 1 + Runs(p[1..]) && (RunsShort(p) <==> RunsShort(p[1..]))
  {
    assert RunLength(p[1..]) == 0;
    assert p[..1] == [STAR] && [STAR][1..] == [];
  }

  /** More than four runs: a name that the pattern means is not found, for instance `aaaa` for `*a*a*a*a*`. */
  lemma TooManyRuns(up: nat -> nat, k: nat)
    requires k >= FIND_RECURS
    ensures Text(Stars(k)) && RunsShort(Stars(k)) && Text(Letters(k))
    ensures Glob(up, Stars(k), Letters(k)) && !Found(up, Stars(k), Letters(k))
  {
    hide Glob, RunGlob, Runs, RunsShort, Sample, Stars, Letters;
    StarsRuns(k);
    StarsSample(k);
    SampleMatches(up, Stars(k));
  }
}
