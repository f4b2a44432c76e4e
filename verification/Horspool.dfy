/** Boyer-Moore-Horspool search: a table of shifts by last byte, and a window that skips ahead by it. */
module Horspool {
  import opened Bytes
  import opened Options

  ghost predicate Occurs(s: seq<byte>, p: seq<byte>, j: nat) { j + |p| <= |s| && s[j..j + |p|] == p }

  /** The distance from the last byte `c` among the first `k` of a pattern to its end, or the whole length if there is
      none. */
  function Shift(p: seq<byte>, k: nat, c: byte): (d: nat)
    requires k < |p|
    ensures 1 <= d <= |p|
    ensures |p| - 1 - k < d
    ensures d < |p| ==> p[|p| - 1 - d] == c
    ensures forall i :: |p| - 1 - d < i < k ==> p[i] != c
  {
    if k == 0 then |p| else if p[k - 1] == c then |p| - k else Shift(p, k - 1, c)
  }

  /** No occurrence starts where a shift passes over. */
  lemma ShiftMissesNothing(s: seq<byte>, p: seq<byte>, j: nat, i: nat)
    requires p != [] && j + |p| <= |s|
    requires j < i < j + Shift(p, |p| - 1, s[j + |p| - 1])
    ensures !Occurs(s, p, i)
  {
    var last := j + |p| - 1;
    assert p[last - i] != s[last];
    assert i + |p| <= |s| ==> s[i..i + |p|][last - i] == s[last];
  }

  /** A longer shift would miss an occurrence in some text: each shift is the largest safe one. */
  lemma ShiftIsLargest(p: seq<byte>, c: byte)
    requires p != []
    ensures var d := Shift(p, |p| - 1, c);
            exists s: seq<byte> :: |s| == |p| + d && s[|p| - 1] == c && Occurs(s, p, d)
  {
    var d := Shift(p, |p| - 1, c);
    var s := (if d < |p| then p[..d] else p[..|p| - 1] + [c]) + p;
    assert s[|p| - 1] == if d < |p| then p[|p| - 1 - d] else c;
    assert s[d..d + |p|] == p;
    assert Occurs(s, p, d);
  }

  /** The two comparisons of the loop decide whether the pattern occurs at `j`. */
  lemma HereIff(s: seq<byte>, p: seq<byte>, j: nat)
    requires p != [] && j + |p| <= |s|
    ensures Occurs(s, p, j) <==> p[|p| - 1] == s[j + |p| - 1] && p[..|p| - 1] == s[j..j + (|p| - 1)]
  {
    assert s[j..j + |p|] == s[j..j + (|p| - 1)] + [s[j + |p| - 1]];
    assert p == p[..|p| - 1] + [p[|p| - 1]];
  }

  /** The preprocessing of `memsearch`. */
  method ShiftTable(p: array<byte>) returns (table: array<nat>)
    requires p.Length > 0
    ensures fresh(table) && table.Length == 256
    ensures forall c: byte :: table[c] == Shift(p[..], p.Length - 1, c)
  {
    var n := p.Length;
    table := new nat[256];
    for i := 0 to 256
      invariant forall c: byte :: c as int < i ==> table[c] == n
    {
      table[i] := n;
    }
    for i := 0 to n - 1
      invariant forall c: byte :: table[c] == Shift(p[..], i, c)
    {
      table[p[i]] := n - i - 1;
    }
  }

  ghost predicate NoneBefore(s: seq<byte>, p: seq<byte>, j: nat) { forall i: nat :: i < j ==> !Occurs(s, p, i) }

  /** The window moves on by a shift. */
  lemma Skipped(s: seq<byte>, p: seq<byte>, j: nat)
    requires p != [] && j + |p| <= |s| && NoneBefore(s, p, j) && !Occurs(s, p, j)
    ensures NoneBefore(s, p, j + Shift(p, |p| - 1, s[j + |p| - 1]))
  {
    forall i: nat | j < i < j + Shift(p, |p| - 1, s[j + |p| - 1])
      ensures !Occurs(s, p, i)
    {
      ShiftMissesNothing(s, p, j, i);
    }
  }

  lemma StartSearch(s: seq<byte>, p: seq<byte>)
    ensures NoneBefore(s, p, 0)
  {
  }

  lemma EndSearch(s: seq<byte>, p: seq<byte>, j: nat)
    requires NoneBefore(s, p, j) && j + |p| > |s|
    ensures forall i: nat :: !Occurs(s, p, i)
  {
  }

  /** `memsearch`. The source leaves an empty pattern, or one longer than the text, to its callers. */
  method Memsearch(s: array<byte>, p: array<byte>) returns (r: Option<nat>)
    requires 1 <= p.Length <= s.Length
    ensures r == None ==> forall j: nat :: !Occurs(s[..], p[..], j)
    ensures r.Some? ==> Occurs(s[..], p[..], r.value) && NoneBefore(s[..], p[..], r.value)
  {
    hide Shift, Occurs, NoneBefore;
    var n := p.Length;
    var table := ShiftTable(p);
    var j: nat := 0;
    StartSearch(s[..], p[..]);
    while j <= s.Length - n
      invariant NoneBefore(s[..], p[..], j)
      invariant forall c: byte :: table[c] == Shift(p[..], n - 1, c)
      decreases s.Length - j
    {
      var c := s[j + n - 1];
      HereIff(s[..], p[..], j);
      assert p[..][..n - 1] == p[..n - 1] && s[..][j..j + (n - 1)] == s[j..j + (n - 1)];
      if p[n - 1] == c && p[..n - 1] == s[j..j + (n - 1)] {
        return Some(j);
      }
      Skipped(s[..], p[..], j);
      assert table[c] == Shift(p[..], |p[..]| - 1, s[..][j + |p[..]| - 1]);
      j := j + table[c];
    }
    EndSearch(s[..], p[..], j);
    return None;
  }
}
