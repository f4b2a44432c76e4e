/** The lock bits in a thread's scheduling mask: three lockers that share one byte, and the passes that set and clear
    them. */
module ThreadLocks {
  import opened Options

  const PROCESS_LOCK: bv8 := 0x20
  const ROSALINA_LOCK: bv8 := 0x40
  const DEBUG_LOCK: bv8 := 0x80

  /** The flag of a process that wants to be signalled on its exit. */
  const SIGNAL_ON_EXIT: bv32 := 4

  /** The bits the kernel itself keeps there. */
  const LOW_BITS: bv8 := 0x1F

  datatype Process = Process(id: nat, titleHigh: bv32, titleLow: bv32)

  const SYSMODULE_HIGH: bv32 := 0x0004_0130

  /** `rosalinaThreadLockPredicate`. */
  predicate Matches(process: Option<Process>, section0Modules: nat, mask: bv32) {
    match process
    case None => false
    case Some(p) =>
      var low := p.titleLow & 0x0FFF_FFFE;
      if p.id < section0Modules then false
      else if mask & 1 != 0 then (if p.titleHigh != SYSMODULE_HIGH then true else low == 0x1A02 || low == 0x2702)
      else if mask & 2 != 0 then (if p.titleHigh != SYSMODULE_HIGH then false else low == 0x1C02)
      else if mask & 4 != 0 then (if p.titleHigh != SYSMODULE_HIGH then false else low == 0x1D02 || low == 0x3302)
      else false
  }

  /** The titles of the three groups: applications with two system modules, one system module, and two others. The bits
      for the two generations of the console and for safe mode do not count. */
  lemma GroupTitles(p: Process, modules: nat, title: bv32)
    requires title == p.titleLow & !0xF000_0001
    ensures Matches(Some(p), modules, 1) <==>
            p.id >= modules && (p.titleHigh != 0x0004_0130 || title == 0x1A02 || title == 0x2702)
    ensures Matches(Some(p), modules, 2) <==> p.id >= modules && p.titleHigh == 0x0004_0130 && title == 0x1C02
    ensures Matches(Some(p), modules, 4) <==>
            p.id >= modules && p.titleHigh == 0x0004_0130 && (title == 0x1D02 || title == 0x3302)
    ensures !Matches(None, modules, 1) && !Matches(None, modules, 2) && !Matches(None, modules, 4)
    ensures !Matches(Some(p), modules, 0)
  {
  }

  /** The three groups have no thread in common, and a mask selects the group of its lowest bit alone. */
  lemma GroupsDisjoint(process: Option<Process>, modules: nat, a: bv32, b: bv32)
    requires (a == 1 || a == 2 || a == 4) && (b == 1 || b == 2 || b == 4) && a != b
    ensures !(Matches(process, modules, a) && Matches(process, modules, b))
  {
  }

  lemma LowestBitSelects(process: Option<Process>, modules: nat, mask: bv32)
    ensures Matches(process, modules, mask) ==
            Matches(process, modules, if mask & 1 != 0 then 1 else if mask & 2 != 0 then 2 else mask & 4)
  {
  }

  class Thread {
    const ownerProcess: Option<Process>
    var schedulingMask: bv8

    constructor (ownerProcess: Option<Process>, schedulingMask: bv8)
      ensures this.ownerProcess == ownerProcess && this.schedulingMask == schedulingMask
    {
      this.ownerProcess, this.schedulingMask := ownerProcess, schedulingMask;
    }
  }

  /** What can happen to the mask of one thread. */
  datatype Event =
    | DebugReschedule(lock: bool)
    | RosalinaLock(matches: bool, ownsMutex: bool)
    | RosalinaUnlock(matches: bool)
    | ProcessLock(selected: bool, ownsMutex: bool)
    | ProcessUnlock(selected: bool)
    | ProcessExit(own: bool, signals: bool)
    | KernelUpdate(low: bv8)

  predicate Terminating(m: bv8) { m & 0xF == 2 }

  /** What an event makes of a mask. */
  function Effect(m: bv8, e: Event): bv8 {
    match e
    case DebugReschedule(lock) => if lock then m | DEBUG_LOCK else m & !DEBUG_LOCK
    case RosalinaLock(matches, owns) => if matches && !owns then m | ROSALINA_LOCK else m
    case RosalinaUnlock(matches) => if matches && !Terminating(m) then m & !ROSALINA_LOCK else m
    case ProcessLock(selected, owns) => if selected && !owns then m | PROCESS_LOCK else m
    case ProcessUnlock(selected) => if selected && !Terminating(m) then m & !PROCESS_LOCK else m
    case ProcessExit(own, signals) => if own && signals then m & !PROCESS_LOCK else m
    case KernelUpdate(low) => (m & !LOW_BITS) | (low & LOW_BITS)
  }

  datatype Locker = Debugger | Rosalina | ProcessControl | Kernel

  function LockerOf(e: Event): Locker {
    match e
    case DebugReschedule(_) => Debugger
    case RosalinaLock(_, _) => Rosalina
    case RosalinaUnlock(_) => Rosalina
    case KernelUpdate(_) => Kernel
    case _ => ProcessControl
  }

  function BitsOf(l: Locker): bv8 {
    match l
    case Debugger => DEBUG_LOCK
    case Rosalina => ROSALINA_LOCK
    case ProcessControl => PROCESS_LOCK
    case Kernel => LOW_BITS
  }

  /** Every bit of a mask belongs to exactly one of the four. */
  lemma BitsShared(k: Locker, l: Locker)
    ensures k != l ==> BitsOf(k) & BitsOf(l) == 0
    ensures BitsOf(Debugger) | BitsOf(Rosalina) | BitsOf(ProcessControl) | BitsOf(Kernel) == 0xFF
  {
  }

  function Run(m: bv8, events: seq<Event>): bv8
    decreases |events|
  {
    if events == [] then m else Run(Effect(m, events[0]), events[1..])
  }

  /** The events of one locker, and those of the kernel. */
  function Only(l: Locker, events: seq<Event>): seq<Event>
    decreases |events|
  {
    if events == [] then []
    else (if LockerOf(events[0]) == l || LockerOf(events[0]) == Kernel then [events[0]] else []) + Only(l, events[1..])
  }

  predicate Agree(m: bv8, n: bv8, l: Locker) { m & (BitsOf(l) | LOW_BITS) == n & (BitsOf(l) | LOW_BITS) }

  /** What an event does to a mask in terms of its locker's bit, for all but the kernel's own updates. */
  datatype Change = Keep | Set | Clear

  function ChangeOf(terminating: bool, e: Event): Change {
    match e
    case DebugReschedule(lock) => if lock then Set else Clear
    case RosalinaLock(matches, owns) => if matches && !owns then Set else Keep
    case RosalinaUnlock(matches) => if matches && !terminating then Clear else Keep
    case ProcessLock(selected, owns) => if selected && !owns then Set else Keep
    case ProcessUnlock(selected) => if selected && !terminating then Clear else Keep
    case ProcessExit(own, signals) => if own && signals then Clear else Keep
    case KernelUpdate(_) => Keep
  }

  function Changed(m: bv8, c: Change, bit: bv8): bv8 {
    match c
    case Keep => m
    case Set => m | bit
    case Clear => m & !bit
  }

  /** A change does the same to masks that agree. */
  lemma ChangesAgree(m: bv8, n: bv8, c: Change, bit: bv8, l: Locker)
    requires Agree(m, n, l)
    ensures Agree(Changed(m, c, bit), Changed(n, c, bit), l)
  {
    hide BitsOf;
  }

  /** A change of one locker's bit leaves the other lockers' bits and the kernel's alone. */
  lemma ChangeApart(m: bv8, c: Change, k: Locker, l: Locker)
    requires k != l && k != Kernel
    ensures Agree(Changed(m, c, BitsOf(k)), m, l)
  {
  }

  lemma EffectIsChange(m: bv8, e: Event)
    requires !e.KernelUpdate?
    ensures Effect(m, e) == Changed(m, ChangeOf(Terminating(m), e), BitsOf(LockerOf(e)))
  {
    hide Terminating;
  }

  /** An event of another locker leaves a locker's bits and the kernel's alone. */
  lemma OthersLeaveBits(m: bv8, e: Event, l: Locker)
    requires LockerOf(e) != l && LockerOf(e) != Kernel
    ensures Agree(Effect(m, e), m, l)
  {
    hide Effect, Agree, BitsOf, Terminating, Changed, ChangeOf;
    EffectIsChange(m, e);
    ChangeApart(m, ChangeOf(Terminating(m), e), LockerOf(e), l);
  }

  /** An event does the same to masks that agree on a locker's bits and the kernel's. */
  lemma OwnEventsAgree(m: bv8, n: bv8, e: Event, l: Locker)
    requires Agree(m, n, l) && (LockerOf(e) == l || LockerOf(e) == Kernel)
    ensures Agree(Effect(m, e), Effect(n, e), l)
  {
    hide Agree, BitsOf, Terminating, Effect, Changed, ChangeOf;
    if e.KernelUpdate? {
      UpdatesAgree(m, n, e.low, l);
    } else {
      SameTermination(m, n, l);
      EffectIsChange(m, e);
      EffectIsChange(n, e);
      ChangesAgree(m, n, ChangeOf(Terminating(m), e), BitsOf(LockerOf(e)), l);
    }
  }

  lemma UpdatesAgree(m: bv8, n: bv8, low: bv8, l: Locker)
    requires Agree(m, n, l)
    ensures Agree(Effect(m, KernelUpdate(low)), Effect(n, KernelUpdate(low)), l)
  {
    hide BitsOf;
  }

  lemma SameTermination(m: bv8, n: bv8, l: Locker)
    requires Agree(m, n, l)
    ensures Terminating(m) == Terminating(n)
  {
  }

  /** Noninterference: over every run, each locker finds its bit, and the kernel its five, as if the other lockers did
      not exist. */
  lemma {:induction false} NoInterference(m: bv8, n: bv8, events: seq<Event>, l: Locker)
    requires Agree(m, n, l)
    ensures Agree(Run(m, events), Run(n, Only(l, events)), l)
    decreases |events|
  {
    hide Agree, Effect;
    if events != [] {
      var e := events[0];
      if LockerOf(e) == l || LockerOf(e) == Kernel {
        OwnEventsAgree(m, n, e, l);
        NoInterference(Effect(m, e), Effect(n, e), events[1..], l);
        assert ([e] + Only(l, events[1..]))[1..] == Only(l, events[1..]);
      } else {
        OthersLeaveBits(m, e, l);
        AgreeThrough(Effect(m, e), m, n, l);
        NoInterference(Effect(m, e), n, events[1..], l);
        assert [] + Only(l, events[1..]) == Only(l, events[1..]);
      }
    }
  }

  lemma AgreeThrough(a: bv8, b: bv8, c: bv8, l: Locker)
    requires Agree(a, b, l) && Agree(b, c, l)
    ensures Agree(a, c, l)
  {
  }

  /** A thread that a lock pass chose stays locked until its own locker unlocks it, whatever the other lockers do. */
  lemma {:induction false} LockedUntilUnlocked(m: bv8, events: seq<Event>, l: Locker)
    requires l != Kernel && m & BitsOf(l) != 0
    requires forall e :: e in events ==> LockerOf(e) != l
    ensures Run(m, events) & BitsOf(l) != 0
    decreases |events|
  {
    if events != [] {
      assert events[0] in events;
      LockSurvives(m, events[0], l);
      LockedUntilUnlocked(Effect(m, events[0]), events[1..], l);
    }
  }

  lemma LockSurvives(m: bv8, e: Event, l: Locker)
    requires l != Kernel && m & BitsOf(l) != 0 && LockerOf(e) != l
    ensures Effect(m, e) & BitsOf(l) != 0
  {
  }

  /** A lock pass leaves a chosen thread locked unless it owns the mutex; the unlock pass then takes that back, except
      for a thread that is terminating; and both leave all other bits alone. */
  lemma LockThenUnlock(m: bv8, owns: bool)
    ensures var l := Effect(m, RosalinaLock(true, owns));
            && (l & ROSALINA_LOCK != 0 <==> !owns || m & ROSALINA_LOCK != 0)
            && (!Terminating(m) ==> Effect(l, RosalinaUnlock(true)) == m & !ROSALINA_LOCK)
            && (Terminating(m) ==> Effect(l, RosalinaUnlock(true)) == l)
            && l & !ROSALINA_LOCK == m & !ROSALINA_LOCK
  {
    if owns {
    } else {
      assert (m | 0x40) & 0x40 != 0;
    }
  }

  /** Clearing a bit only if it is set is clearing it. */
  lemma UnlockEffect(m: bv8, selected: bool)
    ensures Effect(m, ProcessUnlock(selected))
         == if m & 0xF != 2 && selected && m & PROCESS_LOCK != 0 then m & !PROCESS_LOCK else m
  {
  }

  predicate IsLock(e: Event) { e.RosalinaLock? || e.ProcessLock? }

  /** A mask during a lock pass: what it will be, or what it was when a second pass may follow. */
  ghost predicate LeftOrLocked(was: bv8, now: bv8, e: Event, found: bool) {
    now == Effect(was, e) || (found && now == was)
  }

  /** Whether a lock pass is after the thread, and whether it spares it. */
  predicate Hit(e: Event)
    requires IsLock(e)
  {
    match e
    case RosalinaLock(matches, _) => matches
    case ProcessLock(selected, _) => selected
  }

  predicate Spared(e: Event)
    requires IsLock(e)
  {
    match e
    case RosalinaLock(_, owns) => owns
    case ProcessLock(_, owns) => owns
  }

  function Locked(m: bv8, e: Event): bv8
    requires IsLock(e)
  {
    if Spared(e) then m else m | BitsOf(LockerOf(e))
  }

  /** A thread's turn in the first pass, which may find it running and leave it. */
  lemma FirstPass(was: bv8, e: Event, running: bool, found: bool)
    requires IsLock(e) && (Hit(e) && running ==> found)
    ensures LeftOrLocked(was, if Hit(e) && !running then Locked(was, e) else was, e, found)
  {
  }

  /** A thread's turn in the second pass, which skips those locked already. */
  lemma SecondPass(was: bv8, now: bv8, e: Event)
    requires IsLock(e) && LeftOrLocked(was, now, e, true)
    ensures LeftOrLocked(was, if Hit(e) && now & BitsOf(LockerOf(e)) == 0 then Locked(now, e) else now, e, false)
  {
  }

  lemma SecondProcessPass(was: bv8, now: bv8, selected: bool, owns: bool)
    requires LeftOrLocked(was, now, ProcessLock(selected, owns), true)
    ensures LeftOrLocked(was, if selected && !owns && now & PROCESS_LOCK == 0 then now | PROCESS_LOCK else now,
                         ProcessLock(selected, owns), false)
  {
    SecondPass(was, now, ProcessLock(selected, owns));
  }

  class Scheduler {
    /** The kernel's list of all threads. */
    const threads: seq<Thread>
    const section0Modules: nat
    /** The owner of the synchronization mutex. */
    var mutexOwner: Option<Thread>
    /** How often the critical section has been entered. */
    var depth: nat

    constructor (threads: seq<Thread>, section0Modules: nat)
      ensures this.threads == threads && this.section0Modules == section0Modules
      ensures mutexOwner == None && depth == 0
    {
      this.threads, this.section0Modules, mutexOwner, depth := threads, section0Modules, None, 0;
    }

    predicate Owns(t: Thread)
      reads this`mutexOwner
    {
      mutexOwner == Some(t)
    }

    method Lock()
      modifies this`depth
      ensures depth == old(depth) + 1
    {
      depth := depth + 1;
    }

    method Unlock()
      requires depth > 0
      modifies this`depth
      ensures depth == old(depth) - 1
    {
      depth := depth - 1;
    }

    /** `KThread__DebugReschedule`. */
    method DebugReschedule(t: Thread, lock: bool)
      modifies this`depth, t
      ensures depth == old(depth)
      ensures t.schedulingMask == Effect(old(t.schedulingMask), Event.DebugReschedule(lock))
    {
      Lock();
      if lock {
        t.schedulingMask := t.schedulingMask | 0x80;
      } else {
        t.schedulingMask := t.schedulingMask & !0x80;
      }
      Unlock();
    }

    /** `rosalinaRescheduleThread`. */
    method RosalinaReschedule(t: Thread, lock: bool)
      modifies this`depth, t
      ensures depth == old(depth)
      ensures t.schedulingMask
                == if lock then old(t.schedulingMask) | ROSALINA_LOCK else old(t.schedulingMask) & !ROSALINA_LOCK
    {
      Lock();
      if lock {
        t.schedulingMask := t.schedulingMask | 0x40;
      } else {
        t.schedulingMask := t.schedulingMask & !0x40;
      }
      Unlock();
    }

    /** `rosalinaLockThread`. */
    method RosalinaLockThread(t: Thread)
      modifies this`depth, t
      ensures depth == old(depth)
      ensures t.schedulingMask == if Owns(t) then old(t.schedulingMask) else old(t.schedulingMask) | ROSALINA_LOCK
    {
      if mutexOwner == None || mutexOwner.value != t {
        RosalinaReschedule(t, true);
      }
    }

    predicate Chosen(t: Thread, mask: bv32) { Matches(t.ownerProcess, section0Modules, mask) }

    /** The list holds each thread once. */
    ghost predicate Distinct() { forall i, j :: 0 <= i < j < |threads| ==> threads[i] != threads[j] }

    ghost function Masks(): (m: seq<bv8>)
      reads threads
      ensures |m| == |threads|
    {
      seq(|threads|, i requires 0 <= i < |threads| reads threads => threads[i].schedulingMask)
    }

    /** The event that a lock pass with `mask` is for a thread. */
    ghost function LockEvent(t: Thread, mask: bv32): Event
      reads this`mutexOwner
    {
      RosalinaLock(Matches(t.ownerProcess, section0Modules, mask), mutexOwner == Some(t))
    }

    ghost function UnlockEvent(t: Thread, mask: bv32): Event {
      RosalinaUnlock(Matches(t.ownerProcess, section0Modules, mask))
    }

    /** A thread's turn in the first loop of `rosalinaLockThreads`. */
    method RosalinaFirstTurn(t: Thread, mask: bv32, found: bool) returns (found1: bool)
      modifies this`depth, t
      ensures depth == old(depth) && (found ==> found1)
      ensures LeftOrLocked(old(t.schedulingMask), t.schedulingMask, LockEvent(t, mask), found1)
    {
      hide Effect, Matches, LeftOrLocked;
      found1 := found;
      var running := *;
      FirstPass(t.schedulingMask, LockEvent(t, mask), running, found || (Chosen(t, mask) && running));
      if Chosen(t, mask) {
        if running {
          found1 := true;
        } else {
          RosalinaLockThread(t);
        }
      }
    }

    /** A thread's turn in the second loop. */
    method RosalinaSecondTurn(t: Thread, mask: bv32, ghost was: bv8)
      requires LeftOrLocked(was, t.schedulingMask, LockEvent(t, mask), true)
      modifies this`depth, t
      ensures depth == old(depth)
      ensures LeftOrLocked(was, t.schedulingMask, LockEvent(t, mask), false)
    {
      hide Effect, Matches, LeftOrLocked;
      SecondPass(was, t.schedulingMask, LockEvent(t, mask));
      if Chosen(t, mask) {
        if t.schedulingMask & ROSALINA_LOCK == 0 {
          RosalinaLockThread(t);
          Lock();
          Unlock();
        }
      }
    }

    /** `rosalinaLockThreads`. A thread found running on a core is left to a second pass; whether one is found running
        may change under way. Both passes together lock each chosen thread but the owner of the synchronization
        mutex. */
    method RosalinaLockThreads(mask: bv32)
      requires Distinct()
      modifies this`depth, threads
      ensures depth == old(depth)
      ensures forall i :: 0 <= i < |threads| ==>
                threads[i].schedulingMask == Effect(old(Masks())[i], old(LockEvent(threads[i], mask)))
    {
      hide Effect, Matches;
      ghost var was := Masks();
      var found := false;
      Lock();
      for i := 0 to |threads|
        invariant depth == old(depth) + 1
        invariant forall j :: 0 <= j < i ==>
                    LeftOrLocked(was[j], threads[j].schedulingMask, LockEvent(threads[j], mask), found)
        invariant forall j :: i <= j < |threads| ==> threads[j].schedulingMask == was[j]
      {
        found := RosalinaFirstTurn(threads[i], mask, found);
      }
      if found {
        for i := 0 to |threads|
          invariant depth == old(depth) + 1
          invariant forall j :: 0 <= j < i ==>
                      LeftOrLocked(was[j], threads[j].schedulingMask, LockEvent(threads[j], mask), false)
          invariant forall j :: i <= j < |threads| ==>
                      LeftOrLocked(was[j], threads[j].schedulingMask, LockEvent(threads[j], mask), true)
        {
          RosalinaSecondTurn(threads[i], mask, was[i]);
        }
      }
      Unlock();
    }

    /** `rosalinaUnlockThreads`. */
    method RosalinaUnlockThreads(mask: bv32)
      requires Distinct()
      modifies this`depth, threads
      ensures depth == old(depth)
      ensures forall i :: 0 <= i < |threads| ==>
                threads[i].schedulingMask == Effect(old(Masks())[i], UnlockEvent(threads[i], mask))
    {
      hide Matches;
      ghost var was := Masks();
      for i := 0 to |threads|
        invariant depth == old(depth)
        invariant forall j :: 0 <= j < i ==>
                    threads[j].schedulingMask == Effect(was[j], UnlockEvent(threads[j], mask))
        invariant forall j :: i <= j < |threads| ==> threads[j].schedulingMask == was[j]
      {
        var t := threads[i];
        if t.schedulingMask & 0xF != 2 {
          if t.schedulingMask & ROSALINA_LOCK != 0 && Chosen(t, mask) {
            RosalinaReschedule(t, false);
          }
        }
      }
    }

    /** `rescheduleThread` of the process controls. */
    method Reschedule(t: Thread, lock: bool)
      modifies this`depth, t
      ensures depth == old(depth)
      ensures t.schedulingMask
                == if lock then old(t.schedulingMask) | PROCESS_LOCK else old(t.schedulingMask) & !PROCESS_LOCK
    {
      Lock();
      if lock {
        t.schedulingMask := t.schedulingMask | 0x20;
      } else {
        t.schedulingMask := t.schedulingMask & !0x20;
      }
      Unlock();
    }

    /** `lockThread`. */
    method LockThread(t: Thread)
      modifies this`depth, t
      ensures depth == old(depth)
      ensures t.schedulingMask == if Owns(t) then old(t.schedulingMask) else old(t.schedulingMask) | PROCESS_LOCK
    {
      if mutexOwner == None || mutexOwner.value != t {
        Reschedule(t, true);
      }
    }

    /** The threads of a process, or those of them that a caller's predicate picks. */
    predicate Selected(t: Thread, process: Process, pred: Option<Thread -> bool>) {
      t.ownerProcess == Some(process) && (pred == None || pred.value(t))
    }

    ghost function ProcessEvent(t: Thread, process: Process, pred: Option<Thread -> bool>, lock: bool): Event
      reads this`mutexOwner
    {
      var selected := t.ownerProcess == Some(process) && (pred == None || pred.value(t));
      if lock then ProcessLock(selected, mutexOwner == Some(t)) else ProcessUnlock(selected)
    }

    /** A thread's turn in the unlock pass. */
    method UnlockTurn(t: Thread, process: Process, pred: Option<Thread -> bool>)
      modifies this`depth, t
      ensures depth == old(depth)
      ensures t.schedulingMask == Effect(old(t.schedulingMask), ProcessEvent(t, process, pred, false))
    {
      UnlockEffect(t.schedulingMask, Selected(t, process, pred));
      hide Effect;
      if t.schedulingMask & 0xF != 2 {
        if t.ownerProcess == Some(process) && t.schedulingMask & PROCESS_LOCK != 0 && (pred == None || pred.value(t)) {
          Reschedule(t, false);
        }
      }
    }

    /** The unlock pass of `PROCESSOP_SCHEDULE_THREADS`. */
    method UnlockProcess(process: Process, pred: Option<Thread -> bool>)
      requires Distinct()
      modifies this`depth, threads
      ensures depth == old(depth)
      ensures forall i :: 0 <= i < |threads| ==>
                threads[i].schedulingMask == Effect(old(Masks())[i],
                                                    old(ProcessEvent(threads[i], process, pred, false)))
    {
      hide Effect;
      ghost var was := Masks();
      Lock();
      for i := 0 to |threads|
        invariant depth == old(depth) + 1
        invariant forall j :: 0 <= j < i ==>
                    threads[j].schedulingMask == Effect(was[j], ProcessEvent(threads[j], process, pred, false))
        invariant forall j :: i <= j < |threads| ==> threads[j].schedulingMask == was[j]
      {
        UnlockTurn(threads[i], process, pred);
      }
      Unlock();
    }

    /** A thread's turn in the first loop of the lock pass. */
    method FirstTurn(t: Thread, process: Process, pred: Option<Thread -> bool>, found: bool) returns (found1: bool)
      modifies this`depth, t
      ensures depth == old(depth) && (found ==> found1)
      ensures LeftOrLocked(old(t.schedulingMask), t.schedulingMask, ProcessEvent(t, process, pred, true), found1)
    {
      hide Effect, LeftOrLocked;
      found1 := found;
      var running := *;
      FirstPass(t.schedulingMask, ProcessEvent(t, process, pred, true), running,
                found || (Selected(t, process, pred) && running));
      if Selected(t, process, pred) {
        if running {
          found1 := true;
        } else {
          LockThread(t);
        }
      }
    }

    /** A thread's turn in the second loop. */
    method SecondTurn(t: Thread, process: Process, pred: Option<Thread -> bool>, ghost was: bv8)
      requires LeftOrLocked(was, t.schedulingMask, ProcessEvent(t, process, pred, true), true)
      modifies this`depth, t
      ensures depth == old(depth)
      ensures LeftOrLocked(was, t.schedulingMask, ProcessEvent(t, process, pred, true), false)
    {
      hide Effect, LeftOrLocked;
      SecondProcessPass(was, t.schedulingMask, Selected(t, process, pred), Owns(t));
      if Selected(t, process, pred) {
        if t.schedulingMask & PROCESS_LOCK == 0 {
          LockThread(t);
          Lock();
          Unlock();
        }
      }
    }

    /** The lock pass of `PROCESSOP_SCHEDULE_THREADS`. */
    method LockProcess(process: Process, pred: Option<Thread -> bool>)
      requires Distinct()
      modifies this`depth, threads
      ensures depth == old(depth)
      ensures forall i :: 0 <= i < |threads| ==>
                threads[i].schedulingMask == Effect(old(Masks())[i], old(ProcessEvent(threads[i], process, pred, true)))
    {
      hide Effect;
      ghost var was := Masks();
      var found := false;
      Lock();
      for i := 0 to |threads|
        invariant depth == old(depth) + 1
        invariant forall j :: 0 <= j < i ==>
                    LeftOrLocked(was[j], threads[j].schedulingMask, ProcessEvent(threads[j], process, pred, true),
                                 found)
        invariant forall j :: i <= j < |threads| ==> threads[j].schedulingMask == was[j]
      {
        found := FirstTurn(threads[i], process, pred, found);
      }
      if found {
        for i := 0 to |threads|
          invariant depth == old(depth) + 1
          invariant forall j :: 0 <= j < i ==>
                      LeftOrLocked(was[j], threads[j].schedulingMask, ProcessEvent(threads[j], process, pred, true),
                                   false)
          invariant forall j :: i <= j < |threads| ==>
                      LeftOrLocked(was[j], threads[j].schedulingMask, ProcessEvent(threads[j], process, pred, true),
                                   true)
        {
          SecondTurn(threads[i], process, pred, was[i]);
        }
      }
      Unlock();
    }

    ghost function ExitEvent(t: Thread, process: Process, customFlags: bv32): Event {
      Event.ProcessExit(t.ownerProcess == Some(process), customFlags & 4 != 0)
    }

    /** `ExitProcessHook`, on the threads of the process that exits: its locks go only if it asked to be signalled. */
    method ExitProcess(process: Process, customFlags: bv32)
      requires Distinct()
      modifies this`depth, threads
      ensures depth == old(depth)
      ensures forall i :: 0 <= i < |threads| ==>
                threads[i].schedulingMask == Effect(old(Masks())[i], ExitEvent(threads[i], process, customFlags))
    {
      ghost var was := Masks();
      if customFlags & SIGNAL_ON_EXIT == 0 {
        return;
      }
      Lock();
      for i := 0 to |threads|
        invariant depth == old(depth) + 1
        invariant forall j :: 0 <= j < i ==>
                    threads[j].schedulingMask == Effect(was[j], ExitEvent(threads[j], process, customFlags))
        invariant forall j :: i <= j < |threads| ==> threads[j].schedulingMask == was[j]
      {
        var t := threads[i];
        if t.ownerProcess == Some(process) && t.schedulingMask & PROCESS_LOCK != 0 {
          t.schedulingMask := t.schedulingMask & !PROCESS_LOCK;
        }
      }
      Unlock();
    }
  }
}
