/** The table of IPC sessions: a bounded array kept sorted by session, searched by bisection. */
module SessionTable {

  const MAX_SESSION := 345
  const NAME_LENGTH := 12

  /** A name field: the characters of a C string, cut at twelve or filled up with zeros. */
  function NameField(name: string): (f: string)
    ensures |f| == NAME_LENGTH
  {
    if |name| >= NAME_LENGTH then name[..NAME_LENGTH] else name + seq(NAME_LENGTH - |name|, i => '\0')
  }

  lemma NameCharacters(name: string, i: nat)
    requires i < 12
    ensures i < |NameField(name)| && NameField(name)[i] == if i < |name| then name[i] else '\0'
  {
  }

  /** An entry; a session is the address of a kernel object. */
  datatype SessionInfo = SessionInfo(session: nat, name: string)

  const CLEARED := SessionInfo(0, seq(NAME_LENGTH, i => '\0'))

  predicate Sorted(s: seq<SessionInfo>) { forall i, j :: 0 <= i < j < |s| ==> s[i].session < s[j].session }

  /** The first entry not below `k`. */
  function Slot(s: seq<SessionInfo>, k: nat): (i: nat)
    ensures i <= |s|
    ensures forall j :: 0 <= j < i ==> s[j].session < k
    ensures i < |s| ==> k <= s[i].session
  {
    if s == [] || k <= s[0].session then 0 else 1 + Slot(s[1..], k)
  }

  lemma SlotUnique(s: seq<SessionInfo>, k: nat, i: nat)
    requires Sorted(s) && i <= |s|
    requires forall j :: 0 <= j < i ==> s[j].session < k
    requires i < |s| ==> k <= s[i].session
    ensures i == Slot(s, k)
  {
  }

  ghost predicate Present(s: seq<SessionInfo>, k: nat) { exists e :: e in s && e.session == k }

  /** In a sorted table a session is present exactly when it is at its slot. */
  lemma PresentAtSlot(s: seq<SessionInfo>, k: nat)
    requires Sorted(s)
    ensures Present(s, k) <==> Slot(s, k) < |s| && s[Slot(s, k)].session == k
    ensures forall i :: 0 <= i < |s| && s[i].session == k ==> i == Slot(s, k)
  {
    forall i | 0 <= i < |s| && s[i].session == k
      ensures i == Slot(s, k)
    {
      SlotUnique(s, k, i);
    }
  }

  /** The map from sessions to names that a table stands for. */
  ghost function ToMap(s: seq<SessionInfo>): (m: map<nat, string>)
    requires Sorted(s)
  {
    var keys := set i | 0 <= i < |s| :: s[i].session;
    PresentAtKeys(s, keys);
    map k | k in keys :: s[Slot(s, k)].name
  }

  lemma PresentAtKeys(s: seq<SessionInfo>, keys: set<nat>)
    requires Sorted(s) && keys == set i | 0 <= i < |s| :: s[i].session
    ensures forall k :: k in keys ==> Slot(s, k) < |s| && s[Slot(s, k)].session == k
  {
    forall k | k in keys
      ensures Slot(s, k) < |s| && s[Slot(s, k)].session == k
    {
      PresentAtSlot(s, k);
    }
  }

  ghost predicate IsMapOf(s: seq<SessionInfo>, m: map<nat, string>) {
    && (forall e :: e in s ==> e.session in m && m[e.session] == e.name)
    && (forall k :: k in m ==> SessionInfo(k, m[k]) in s)
  }

  lemma ToMapIs(s: seq<SessionInfo>)
    requires Sorted(s)
    ensures IsMapOf(s, ToMap(s))
  {
    var keys := set i | 0 <= i < |s| :: s[i].session;
    PresentAtKeys(s, keys);
    forall e | e in s
      ensures e.session in ToMap(s) && ToMap(s)[e.session] == e.name
    {
      var i :| 0 <= i < |s| && s[i] == e;
      PresentAtSlot(s, e.session);
      assert i == Slot(s, s[i].session);
    }
    forall k | k in ToMap(s)
      ensures SessionInfo(k, ToMap(s)[k]) in s
    {
      assert s[Slot(s, k)] == SessionInfo(k, ToMap(s)[k]);
    }
  }

  lemma OneMap(s: seq<SessionInfo>, m: map<nat, string>, n: map<nat, string>)
    requires IsMapOf(s, m) && IsMapOf(s, n)
    ensures m == n
  {
    assert forall k :: k in m ==> SessionInfo(k, m[k]) in s;
  }

  /** What `SessionInfo_Add` and `SessionInfo_Remove` make of a table. */
  function Added(s: seq<SessionInfo>, k: nat, name: string): (t: seq<SessionInfo>)
  {
    var id := Slot(s, k);
    if |s| == MAX_SESSION || (id < |s| && s[id].session == k) then s
    else s[..id] + [SessionInfo(k, NameField(name))] + s[id..]
  }

  function Removed(s: seq<SessionInfo>, k: nat): (t: seq<SessionInfo>)
  {
    var id := Slot(s, k);
    if |s| == MAX_SESSION || id == |s| then s else s[..id] + s[id + 1..]
  }

  lemma AddedSorted(s: seq<SessionInfo>, k: nat, name: string)
    requires Sorted(s)
    ensures Sorted(Added(s, k, name))
    ensures |s| <= MAX_SESSION ==> |Added(s, k, name)| <= MAX_SESSION
  {
    var id, t := Slot(s, k), Added(s, k, name);
    forall i, j | 0 <= i < j < |t|
      ensures t[i].session < t[j].session
    {
    }
  }

  lemma RemovedSorted(s: seq<SessionInfo>, k: nat)
    requires Sorted(s)
    ensures Sorted(Removed(s, k))
  {
    var id, t := Slot(s, k), Removed(s, k);
    if t != s {
      forall i, j | 0 <= i < j < |t|
        ensures t[i].session < t[j].session
      {
        assert t[i] == s[if i < id then i else i + 1] && t[j] == s[if j < id then j else j + 1];
      }
    }
  }

  /** The entries after an insertion at `id`, and after a deletion there, by their place before. */
  lemma InsertedKeys(s: seq<SessionInfo>, id: nat, e: SessionInfo, t: seq<SessionInfo>)
    requires id <= |s| && t == s[..id] + [e] + s[id..]
    ensures forall x :: x in t <==> x == e || x in s
  {
    forall x | x in s
      ensures x in t
    {
      var i :| 0 <= i < |s| && s[i] == x;
      assert t[if i < id then i else i + 1] == x;
    }
    assert t[id] == e;
  }

  lemma DeletedKeys(s: seq<SessionInfo>, id: nat, t: seq<SessionInfo>)
    requires id < |s| && t == s[..id] + s[id + 1..]
    ensures forall x :: x in s <==> x == s[id] || x in t
  {
    forall x | x in s && x != s[id]
      ensures x in t
    {
      var i :| 0 <= i < |s| && s[i] == x;
      assert t[if i < id then i else i - 1] == x;
    }
  }

  /** Below capacity, adding is a map insertion that keeps the first name; a full table stays as it is. */
  lemma AddRefines(s: seq<SessionInfo>, k: nat, name: string)
    requires Sorted(s)
    ensures Sorted(Added(s, k, name))
    ensures var m := ToMap(s);
            ToMap(Added(s, k, name)) == if k in m || |s| == MAX_SESSION then m else m[k := NameField(name)]
  {
    hide ToMap, Sorted, NameField, Slot;
    AddedSorted(s, k, name);
    PresentAtSlot(s, k);
    ToMapIs(s);
    var t, id := Added(s, k, name), Slot(s, k);
    if t != s {
      ToMapIs(t);
      InsertedKeys(s, id, SessionInfo(k, NameField(name)), t);
      InsertedMap(s, t, SessionInfo(k, NameField(name)), ToMap(s));
      OneMap(t, ToMap(t), ToMap(s)[k := NameField(name)]);
    } else {
      assert k in ToMap(s) ==> SessionInfo(k, ToMap(s)[k]) in s;
    }
  }

  lemma InsertedMap(s: seq<SessionInfo>, t: seq<SessionInfo>, e: SessionInfo, m: map<nat, string>)
    requires IsMapOf(s, m) && forall x :: x in t <==> x == e || x in s
    requires !Present(s, e.session)
    ensures e.session !in m && IsMapOf(t, m[e.session := e.name])
  {
  }

  /** Removing a session that is present deletes exactly it, unless the table is full. */
  lemma RemoveRefines(s: seq<SessionInfo>, k: nat)
    requires Sorted(s) && Present(s, k) && |s| != MAX_SESSION
    ensures Sorted(Removed(s, k))
    ensures ToMap(Removed(s, k)) == ToMap(s) - {k}
  {
    hide ToMap, Sorted, Slot;
    RemovedSorted(s, k);
    PresentAtSlot(s, k);
    ToMapIs(s);
    var t, id := Removed(s, k), Slot(s, k);
    ToMapIs(t);
    DeletedKeys(s, id, t);
    DeletedAbsent(s, k);
    DeletedMap(s, t, s[id], ToMap(s));
    OneMap(t, ToMap(t), ToMap(s) - {k});
  }

  lemma DeletedMap(s: seq<SessionInfo>, t: seq<SessionInfo>, e: SessionInfo, m: map<nat, string>)
    requires IsMapOf(s, m) && forall x :: x in s <==> x == e || x in t
    requires !Present(t, e.session)
    ensures IsMapOf(t, m - {e.session})
  {
  }

  lemma DeletedAbsent(s: seq<SessionInfo>, k: nat)
    requires Sorted(s) && Slot(s, k) < |s| && |s| != MAX_SESSION
    ensures !Present(Removed(s, k), s[Slot(s, k)].session)
  {
    var id, t := Slot(s, k), Removed(s, k);
    forall i | 0 <= i < |t|
      ensures t[i].session != s[id].session
    {
      assert t[i] == s[if i < id then i else i + 1];
    }
  }

  /** Removing means deleting the session exactly when it is there and the table is not full, or when it is not there
      and either the table is full or all its sessions are smaller: otherwise nothing is deleted, or another session
      is. */
  lemma RemoveDeletesIff(s: seq<SessionInfo>, k: nat)
    requires Sorted(s)
    ensures Sorted(Removed(s, k))
    ensures ToMap(Removed(s, k)) == ToMap(s) - {k}
       <==> if Present(s, k) then |s| != MAX_SESSION else |s| == MAX_SESSION || Slot(s, k) == |s|
  {
    hide ToMap, Sorted, Slot, Present, Removed;
    RemovedSorted(s, k);
    if Present(s, k) && |s| != MAX_SESSION {
      RemoveRefines(s, k);
    } else if |s| == MAX_SESSION || Slot(s, k) == |s| {
      NothingRemoved(s, k);
    } else {
      AnotherRemoved(s, k);
    }
  }

  lemma NothingRemoved(s: seq<SessionInfo>, k: nat)
    requires Sorted(s) && (|s| == MAX_SESSION || Slot(s, k) == |s|)
    ensures Removed(s, k) == s
    ensures ToMap(s) == ToMap(s) - {k} <==> !Present(s, k)
    ensures Slot(s, k) == |s| ==> !Present(s, k)
  {
    hide ToMap, Sorted, Slot;
    ToMapIs(s);
    PresentAtSlot(s, k);
    if k !in ToMap(s) {
      assert ToMap(s) - {k} == ToMap(s);
    } else {
      assert SessionInfo(k, ToMap(s)[k]) in s;
    }
  }

  lemma AnotherRemoved(s: seq<SessionInfo>, k: nat)
    requires Sorted(s) && |s| != MAX_SESSION && Slot(s, k) < |s| && !Present(s, k) && Sorted(Removed(s, k))
    ensures ToMap(Removed(s, k)) != ToMap(s) - {k}
  {
    hide ToMap, Sorted, Slot, Removed;
    ToMapIs(s);
    ToMapIs(Removed(s, k));
    PresentAtSlot(s, k);
    DeletedAbsent(s, k);
    var e := s[Slot(s, k)];
    assert e in s && e.session in ToMap(s) - {k};
    assert e.session !in ToMap(Removed(s, k));
  }

  datatype Op = Add(session: nat, name: string) | Remove(session: nat)

  function After(s: seq<SessionInfo>, op: Op): seq<SessionInfo> {
    match op
    case Add(k, name) => Added(s, k, name)
    case Remove(k) => Removed(s, k)
  }

  function Run(s: seq<SessionInfo>, ops: seq<Op>): seq<SessionInfo>
    decreases |ops|
  {
    if ops == [] then s else Run(After(s, ops[0]), ops[1..])
  }

  /** The same operations on a map. */
  function MapAfter(m: map<nat, string>, op: Op): map<nat, string> {
    match op
    case Add(k, name) => if k in m then m else m[k := NameField(name)]
    case Remove(k) => m - {k}
  }

  function MapRun(m: map<nat, string>, ops: seq<Op>): map<nat, string>
    decreases |ops|
  {
    if ops == [] then m else MapRun(MapAfter(m, ops[0]), ops[1..])
  }

  /** The table stays sorted and within bounds over every run. */
  lemma {:induction false} RunKeepsSorted(s: seq<SessionInfo>, ops: seq<Op>)
    requires Sorted(s) && |s| <= 345
    ensures Sorted(Run(s, ops)) && |Run(s, ops)| <= 345
    decreases |ops|
  {
    hide Sorted, Added, Removed;
    if ops != [] {
      AfterKeeps(s, ops[0]);
      RunKeepsSorted(After(s, ops[0]), ops[1..]);
    }
  }

  lemma AfterKeeps(s: seq<SessionInfo>, op: Op)
    requires Sorted(s) && |s| <= MAX_SESSION
    ensures Sorted(After(s, op)) && |After(s, op)| <= MAX_SESSION
  {
    match op
    case Add(k, name) => AddedSorted(s, k, name);
    case Remove(k) => RemovedSorted(s, k);
  }

  /** Each removal is of a session then present, from a table that is not full, and no new session is added to a full
      one. */
  ghost predicate Proper(m: map<nat, string>, ops: seq<Op>)
    decreases |ops|
  {
    ops != [] ==>
      && Proper(MapAfter(m, ops[0]), ops[1..])
      && match ops[0]
         case Add(k, _) => k in m || |m| < MAX_SESSION
         case Remove(k) => k in m && |m| < MAX_SESSION
  }

  lemma AllButLast(s: seq<SessionInfo>)
    requires Sorted(s) && s != []
    ensures Sorted(s[..|s| - 1]) && !Present(s[..|s| - 1], s[|s| - 1].session)
  {
  }

  lemma {:induction false} SizeOfMap(s: seq<SessionInfo>)
    requires Sorted(s)
    ensures |ToMap(s)| == |s|
  {
    hide ToMap, Sorted, Present;
    ToMapIs(s);
    if s == [] {
      assert ToMap(s) == map[];
    } else {
      var n := |s| - 1;
      var t := s[..n];
      AllButLast(s);
      SizeOfMap(t);
      ToMapIs(t);
      assert s == t[..n] + [s[n]] + t[n..];
      InsertedKeys(t, n, s[n], s);
      InsertedMap(t, s, s[n], ToMap(t));
      OneMap(s, ToMap(s), ToMap(t)[s[n].session := s[n].name]);
    }
  }

  lemma RemovePresent(s: seq<SessionInfo>, k: nat)
    requires Sorted(s) && k in ToMap(s) && |s| != MAX_SESSION
    ensures Sorted(Removed(s, k)) && ToMap(Removed(s, k)) == ToMap(s) - {k}
  {
    hide ToMap, Sorted, Slot;
    ToMapIs(s);
    assert SessionInfo(k, ToMap(s)[k]) in s;
    RemoveRefines(s, k);
  }

  /** Below capacity every run of the table is a run of the map. */
  lemma {:induction false} RunRefinesMap(s: seq<SessionInfo>, ops: seq<Op>)
    requires Sorted(s) && Proper(ToMap(s), ops)
    ensures Sorted(Run(s, ops)) && ToMap(Run(s, ops)) == MapRun(ToMap(s), ops)
    decreases |ops|
  {
    hide Sorted, Added, Removed, ToMap;
    SizeOfMap(s);
    if ops != [] {
      match ops[0] {
        case Add(k, name) => AddRefines(s, k, name);
        case Remove(k) => RemovePresent(s, k);
      }
      RunRefinesMap(After(s, ops[0]), ops[1..]);
    }
  }

  class SessionInfos {
    const infos: array<SessionInfo>
    var nbActiveSessions: nat

    constructor ()
      ensures Valid() && Contents() == [] && fresh(infos)
    {
      infos := new SessionInfo[MAX_SESSION](i => CLEARED);
      nbActiveSessions := 0;
    }

    ghost predicate Valid()
      reads this, infos
    {
      infos.Length == MAX_SESSION && nbActiveSessions <= MAX_SESSION && Sorted(Contents())
    }

    ghost function Contents(): seq<SessionInfo>
      reads this, infos
    {
      if nbActiveSessions <= infos.Length then infos[..nbActiveSessions] else []
    }

    /** `SessionInfo_FindClosestSlot`. */
    method FindClosestSlot(session: nat) returns (id: nat)
      requires Valid()
      ensures id == Slot(Contents(), session)
    {
      ghost var s := Contents();
      var n := nbActiveSessions;
      if n == 0 || session <= infos[0].session {
        return 0;
      } else if session > infos[n - 1].session {
        SlotUnique(s, session, n);
        return n;
      }
      var a, b := 0, n - 1;
      while true
        invariant 0 <= a < b < n && s[a].session < session <= s[b].session
        decreases b - a
      {
        var m := (a + b) / 2;
        if infos[m].session < session {
          a := m;
        } else if infos[m].session > session {
          b := m;
        } else {
          SlotUnique(s, session, m);
          return m;
        }
        if b - a <= 1 {
          break;
        }
      }
      SlotUnique(s, session, b);
      return b;
    }

    /** `SessionInfo_Add`. */
    method Add(session: nat, name: string)
      requires Valid()
      modifies this`nbActiveSessions, infos
      ensures Valid() && Contents() == Added(old(Contents()), session, name)
    {
      hide Sorted, Slot;
      ghost var s, was := Contents(), infos[..];
      AddedSorted(s, session, name);
      if nbActiveSessions == MAX_SESSION {
        return;
      }
      var id := FindClosestSlot(session);
      if id != nbActiveSessions && infos[id].session == session {
        return;
      }
      ShiftUp(id);
      nbActiveSessions := nbActiveSessions + 1;
      infos[id] := SessionInfo(session, NameField(name));
      assert infos[..id] == was[..id] == s[..id];
      assert infos[id + 1..|s| + 1] == was[id..|s|] == s[id..];
      assert infos[..|s| + 1] == infos[..id] + [infos[id]] + infos[id + 1..|s| + 1];
    }

    /** The loop of `SessionInfo_Add`. */
    method ShiftUp(id: nat)
      requires id <= nbActiveSessions < infos.Length
      modifies infos
      ensures infos[..id] == old(infos[..id]) && infos[id + 1..nbActiveSessions + 1] == old(infos[id..nbActiveSessions])
    {
      var n := nbActiveSessions;
      var i := n;
      while i > id && i != 0
        invariant id <= i <= n
        invariant infos[..i] == old(infos[..i])
        invariant infos[i + 1..n + 1] == old(infos[i..n])
      {
        infos[i] := infos[i - 1];
        i := i - 1;
        assert infos[i + 1..n + 1] == [infos[i + 1]] + infos[i + 2..n + 1];
      }
    }

    /** The loop of `SessionInfo_Remove`. */
    method ShiftDown(id: nat)
      requires id < nbActiveSessions <= infos.Length
      modifies infos
      ensures infos[..id] == old(infos[..id]) && infos[id..nbActiveSessions - 1] == old(infos[id + 1..nbActiveSessions])
    {
      var n := nbActiveSessions;
      var i := id;
      while i < n - 1
        invariant id <= i < n
        invariant infos[..id] == old(infos[..id]) && infos[i..n] == old(infos[i..n])
        invariant infos[id..i] == old(infos[id + 1..i + 1])
      {
        infos[i] := infos[i + 1];
        i := i + 1;
        assert infos[id..i] == infos[id..i - 1] + [infos[i - 1]];
      }
    }

    /** `SessionInfo_Remove`. */
    method Remove(session: nat)
      requires Valid()
      modifies this`nbActiveSessions, infos
      ensures Valid() && Contents() == Removed(old(Contents()), session)
    {
      hide Sorted, Slot;
      ghost var s := Contents();
      RemovedSorted(s, session);
      if nbActiveSessions == MAX_SESSION {
        return;
      }
      var id := FindClosestSlot(session);
      if id == nbActiveSessions {
        return;
      }
      ShiftDown(id);
      nbActiveSessions := nbActiveSessions - 1;
      assert infos[..|s| - 1] == infos[..id] + infos[id..|s| - 1];
      assert infos[..|s| - 1] == Removed(s, session);
      infos[nbActiveSessions] := CLEARED;
    }
  }
}
