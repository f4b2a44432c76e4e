/** The command mailbox between the two processors: one shared word and a parameter area, in every interleaving of their
    steps. */
module Mailbox {

  datatype Operation =
    | InitScreens | SetupFramebuffers | ClearScreens | SwapFramebuffers
    | UpdateBrightness | DeinitScreens | PrepareForFirmlaunch | Ready

  const PARAMETER_WORDS := 7

  /** The words of parameters of a command, all at the start of the parameter area. */
  function ArgWords(op: Operation): (n: nat)
    ensures n <= PARAMETER_WORDS
  {
    match op
    case InitScreens => 7
    case SetupFramebuffers => 6
    case ClearScreens => 3
    case SwapFramebuffers => 1
    case UpdateBrightness => 1
    case _ => 0
  }

  datatype Command = Command(op: Operation, args: seq<int>) {
    predicate Valid() { op != Ready && |args| == ArgWords(op) }
  }

  /** The three frame buffers of a pair of screens. */
  datatype FrameBuffers = FrameBuffers(topLeft: int, topRight: int, bottom: int)
  {
    function Words(): seq<int> { [topLeft, topRight, bottom] }
  }

  /** What the functions of the ARM9 that call for a command put into the parameter area is what the ARM11 takes from
      it. */
  lemma CallsAreValid(level: int, alternate: int, fb0: FrameBuffers, fb1: FrameBuffers)
    ensures Command(InitScreens, [level] + fb0.Words() + fb1.Words()).Valid()
    ensures Command(SetupFramebuffers, fb0.Words() + fb1.Words()).Valid()
    ensures Command(ClearScreens, fb0.Words()).Valid() && Command(SwapFramebuffers, [alternate]).Valid()
    ensures Command(UpdateBrightness, [level]).Valid()
    ensures Command(DeinitScreens, []).Valid() && Command(PrepareForFirmlaunch, []).Valid()
  {
  }

  /** Where the ARM9 is: between calls, writing word `k` of the parameters, in the first wait of `invokeArm11Function`,
      about to write the operation, and in the second wait. */
  datatype Pc9 =
    | Idle
    | Preparing(cmd: Command, k: nat)
    | Waiting(cmd: Command)
    | Posting(cmd: Command)
    | Posted(cmd: Command)

  /** Where the ARM11 is: not started, reading the operation, reading parameters, about to write READY, and gone to the
      loop of the firmlaunch stub. */
  datatype Pc11 = Off | Polling | Executing(op: Operation, got: seq<int>) | Finishing(op: Operation) | Gone

  /** The shared memory, the two programs, and what has happened: the commands called for and those carried out. */
  datatype State = State(operation: Operation, params: seq<int>, pc9: Pc9, pc11: Pc11, invoked: seq<Command>,
                         executed: seq<Command>)

  /** A step of the ARM9; between calls it may call for any command. */
  function Step9(s: State, next: Command): State
    requires |s.params| == PARAMETER_WORDS && next.Valid()
  {
    match s.pc9
    case Idle => s.(pc9 := Preparing(next, 0), invoked := s.invoked + [next])
    case Preparing(c, k) =>
      if k < |c.args| && k < PARAMETER_WORDS then s.(params := s.params[k := c.args[k]], pc9 := Preparing(c, k + 1))
      else s.(pc9 := Waiting(c))
    case Waiting(c) => if s.operation == Ready then s.(pc9 := Posting(c)) else s
    case Posting(c) => s.(operation := c.op, pc9 := Posted(c))
    case Posted(c) => if s.operation == Ready then s.(pc9 := Idle) else s
  }

  /** A step of the ARM11. */
  function Step11(s: State): State
    requires |s.params| == PARAMETER_WORDS
  {
    match s.pc11
    case Off => s.(operation := Ready, pc11 := Polling)
    case Polling => if s.operation == Ready then s else s.(pc11 := Executing(s.operation, []))
    case Executing(op, got) =>
      if |got| < ArgWords(op) then s.(pc11 := Executing(op, got + [s.params[|got|]]))
      else s.(executed := s.executed + [Command(op, got)], pc11 := Finishing(op))
    case Finishing(op) => s.(operation := Ready, pc11 := if op == PrepareForFirmlaunch then Gone else Polling)
    case Gone => s
  }

  /** Whose turn it is, and what the ARM9 would call next. */
  datatype Turn = Arm9(next: Command) | Arm11

  ghost predicate Schedule(turns: seq<Turn>) { forall t :: t in turns && t.Arm9? ==> t.next.Valid() }

  function Step(s: State, t: Turn): (r: State)
    requires |s.params| == PARAMETER_WORDS && (t.Arm9? ==> t.next.Valid())
    ensures |r.params| == PARAMETER_WORDS
  {
    match t
    case Arm9(next) => Step9(s, next)
    case Arm11 => Step11(s)
  }

  function Run(s: State, turns: seq<Turn>): (r: State)
    requires |s.params| == PARAMETER_WORDS && forall t :: t in turns && t.Arm9? ==> t.next.Valid()
    ensures |r.params| == PARAMETER_WORDS
    decreases |turns|
  {
    if turns == [] then s else Run(Step(s, turns[0]), turns[1..])
  }

  /** The state in which the ARM9 starts, the ARM11 not yet running: anything in the shared memory. */
  ghost predicate Initial(s: State) {
    |s.params| == PARAMETER_WORDS && s.pc9 == Idle && s.pc11 == Off && s.invoked == [] && s.executed == []
  }

  /** No command is in the mailbox and none is being carried out. */
  ghost predicate Quiet(s: State) {
    match s.pc11
    case Off => s.operation != Ready
    case Polling => s.operation == Ready
    case Gone => s.operation == Ready
    case _ => false
  }

  /** The command that was posted: not yet taken, being carried out, done, or never to be taken. */
  ghost predicate InMailbox(s: State, c: Command) {
    match s.pc11
    case Off => false
    case Executing(op, got) =>
      s.operation == op == c.op && s.invoked == s.executed + [c] && |got| <= |c.args| && got == c.args[..|got|]
    case Finishing(op) => s.operation == op == c.op && s.executed == s.invoked
    case _ =>
      if s.operation == Ready then s.executed == s.invoked
      else s.operation == c.op && s.invoked == s.executed + [c]
  }

  ghost predicate Invariant(s: State) {
    && |s.params| == PARAMETER_WORDS
    && (match s.pc9
        case Idle => Quiet(s) && s.executed == s.invoked
        case Preparing(c, k) =>
          Quiet(s) && c.Valid() && s.invoked == s.executed + [c] && k <= |c.args| && s.params[..k] == c.args[..k]
        case Waiting(c) => Quiet(s) && c.Valid() && s.invoked == s.executed + [c] && s.params[..|c.args|] == c.args
        case Posting(c) =>
          && Quiet(s) && s.operation == Ready && c.Valid() && s.invoked == s.executed + [c]
          && s.params[..|c.args|] == c.args
        case Posted(c) => InMailbox(s, c) && c.Valid() && s.params[..|c.args|] == c.args)
  }

  lemma Step9Keeps(s: State, next: Command)
    requires Invariant(s) && next.Valid()
    ensures Invariant(Step9(s, next))
  {
  }

  lemma Step11Keeps(s: State)
    requires Invariant(s)
    ensures Invariant(Step11(s))
  {
    if s.pc11.Executing? && s.pc9.Posted? {
      var c, got := s.pc9.cmd, s.pc11.got;
      if |got| < |c.args| {
        assert s.params[|got|] == s.params[..|c.args|][|got|];
        assert c.args[..|got|] + [c.args[|got|]] == c.args[..|got| + 1];
      } else {
        assert c.args[..|got|] == c.args;
      }
    }
  }

  lemma {:induction false} RunKeeps(s: State, turns: seq<Turn>)
    requires Invariant(s) && Schedule(turns)
    ensures Invariant(Run(s, turns))
    decreases |turns|
  {
    if turns != [] {
      match turns[0]
      case Arm9(next) =>
        assert turns[0] in turns;
        Step9Keeps(s, next);
        RunKeeps(Step9(s, next), turns[1..]);
      case Arm11 =>
        Step11Keeps(s);
        RunKeeps(Step11(s), turns[1..]);
    }
  }

  /** Exactly once: what the ARM11 has carried out, parameters included, is all that was called for, in order, except
      possibly the call under way; and a call that has returned has been carried out. */
  ghost predicate ExactlyOnce(s: State) {
    && s.executed <= s.invoked && |s.invoked| <= |s.executed| + 1
    && (s.pc9 == Idle ==> s.executed == s.invoked)
  }

  /** The ARM9 writes no parameters while the ARM11 carries out a command. */
  ghost predicate ParametersLeftAlone(s: State) { s.pc9.Preparing? ==> !s.pc11.Executing? && !s.pc11.Finishing? }

  lemma EveryRun(s: State, turns: seq<Turn>)
    requires Initial(s) && s.operation != Ready && Schedule(turns)
    ensures ExactlyOnce(Run(s, turns)) && ParametersLeftAlone(Run(s, turns))
  {
    RunKeeps(s, turns);
  }

  /** With READY in the mailbox before the ARM11 starts, a call can return without its command ever being carried
      out. */
  function LosingTurns(): seq<Turn> {
    var a := Arm9(Command(DeinitScreens, []));
    [a, a, a, a, Arm11, a]
  }

  lemma LostCommand(s: State)
    requires Initial(s) && s.operation == Ready
    ensures Schedule(LosingTurns()) && !ExactlyOnce(Run(s, LosingTurns()))
  {
    var a := Arm9(Command(DeinitScreens, []));
    var s1, s2, s3, s4, s5, s6 := LosingSteps(s);
    hide Step, Run;
    RunFirst(s, a, [a, a, a, Arm11, a]);
    RunFirst(s1, a, [a, a, Arm11, a]);
    RunFirst(s2, a, [a, Arm11, a]);
    RunFirst(s3, a, [Arm11, a]);
    RunFirst(s4, Arm11, [a]);
    RunFirst(s5, a, []);
    RunNothing(s6);
    assert LosingTurns() == [a] + [a, a, a, Arm11, a];
    assert [a, a, a, Arm11, a] == [a] + [a, a, Arm11, a] && [a, a, Arm11, a] == [a] + [a, Arm11, a];
    assert [a, Arm11, a] == [a] + [Arm11, a] && [Arm11, a] == [Arm11] + [a] && [a] == [a] + [];
  }

  lemma LosingSteps(s: State) returns (s1: State, s2: State, s3: State, s4: State, s5: State, s6: State)
    requires Initial(s) && s.operation == Ready
    ensures var a := Arm9(Command(DeinitScreens, []));
            && a.next.Valid() && forall t :: t in {s, s1, s2, s3, s4, s5, s6} ==> |t.params| == PARAMETER_WORDS
    ensures var a := Arm9(Command(DeinitScreens, []));
            && Step(s, a) == s1 && Step(s1, a) == s2 && Step(s2, a) == s3 && Step(s3, a) == s4 && Step(s4, Arm11) == s5
            && Step(s5, a) == s6
    ensures s6.pc9 == Idle && s6.invoked == [Command(DeinitScreens, [])] && s6.executed == []
  {
    var c := Command(DeinitScreens, []);
    s1 := s.(pc9 := Preparing(c, 0), invoked := [c]);
    s2 := s1.(pc9 := Waiting(c));
    s3 := s1.(pc9 := Posting(c));
    s4 := s1.(operation := DeinitScreens, pc9 := Posted(c));
    s5 := s4.(operation := Ready, pc11 := Polling);
    s6 := s5.(pc9 := Idle);
  }

  lemma RunNothing(s: State)
    requires |s.params| == PARAMETER_WORDS
    ensures Run(s, []) == s
  {
  }

  lemma RunFirst(s: State, t: Turn, turns: seq<Turn>)
    requires |s.params| == PARAMETER_WORDS && forall u :: u in [t] + turns && u.Arm9? ==> u.next.Valid()
    ensures (t.Arm9? ==> t.next.Valid()) && Run(s, [t] + turns) == Run(Step(s, t), turns)
  {
    hide Step;
    assert t in [t] + turns && ([t] + turns)[1..] == turns;
  }

  /** Every interleaving is safe exactly when the word did not hold READY beforehand. */
  lemma SafeIffNotReady(s: State)
    requires Initial(s)
    ensures (forall turns :: Schedule(turns) ==> ExactlyOnce(Run(s, turns))) <==> s.operation != Ready
  {
    if s.operation == Ready {
      LostCommand(s);
    } else {
      forall turns | Schedule(turns)
        ensures ExactlyOnce(Run(s, turns))
      {
        EveryRun(s, turns);
      }
    }
  }

  /** Turns of the ARM11 only. */
  function Alone(n: nat): (turns: seq<Turn>)
    ensures forall t :: t in turns ==> t == Arm11
  {
    if n == 0 then [] else [Arm11] + Alone(n - 1)
  }

  /** How many steps of its own the ARM11 is from writing READY. */
  function StepsToReady(s: State): nat {
    match s.pc11
    case Off => 1
    case Polling => if s.operation == Ready then 0 else ArgWords(s.operation) + 3
    case Executing(op, got) => (if |got| < ArgWords(op) then ArgWords(op) - |got| else 0) + 2
    case Finishing(op) => 1
    case Gone => 0
  }

  /** No wait is in vain: left to itself the ARM11 soon writes READY, unless it has gone to the firmlaunch stub. */
  lemma {:induction false} Arm11Answers(s: State)
    requires Invariant(s) && s.pc11 != Gone
    ensures StepsToReady(s) <= PARAMETER_WORDS + 3
    ensures Run(s, Alone(StepsToReady(s))).operation == Ready
    decreases StepsToReady(s)
  {
    if StepsToReady(s) > 0 {
      Step11Keeps(s);
      var t := Step11(s);
      assert Alone(StepsToReady(s)) == [Arm11] + Alone(StepsToReady(s) - 1);
      if t.pc11 != Gone {
        Arm11Answers(t);
      }
    }
  }

  /** The firmlaunch command is the last: a call after it never returns and is never carried out. */
  ghost predicate Stuck(s: State) {
    |s.params| == PARAMETER_WORDS && s.pc11 == Gone && s.pc9.Posted? && s.operation != Ready
  }

  lemma {:induction false} NothingAfterFirmlaunch(s: State, turns: seq<Turn>)
    requires Stuck(s) && Schedule(turns)
    ensures Run(s, turns) == s
    decreases |turns|
  {
    if turns != [] {
      NothingAfterFirmlaunch(s, turns[1..]);
    }
  }
}
