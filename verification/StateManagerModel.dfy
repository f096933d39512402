/**
 The state manager and its command queue as one machine, and what every run of
 it keeps.
*/
module StateManagerModel {
  import opened Wrappers

  const SURVIVAL: int := 1
  const MISSION: int := 2

  const NO_ERROR: int := 0
  const STATE_NOT_FOUND_IN_MAP: int := 1
  const STATE_CHANGE_NOT_ALLOWED: int := 5
  const ALREADY_IN_THIS_STATE: int := 6
  const FATAL_ERROR_DETECTOR: int := 11
  const UNATTENDED_TERMINATION_ERROR: int := 12

  const COMMAND_CHANGE_STATE: int := 1
  const COMM_BUFFER_SIZE: nat := 3
  const MAX_ALLOWED_TRANSITIONS: nat := 3
  const MAX_STATES: nat := 2
  const MAX_MISSION_COUNTER: int := 12

  /** The functions a state's two callbacks point to. */
  datatype Callback = SurvivalFunction | MissionFunction
  datatype TransitionGetter = SurvivalTransitions | MissionTransitions

  datatype State = State(id: int, callback: Callback, getTransitions: TransitionGetter)

  const SURVIVAL_STATE: State := State(SURVIVAL, SurvivalFunction, SurvivalTransitions)
  const MISSION_STATE: State := State(MISSION, MissionFunction, MissionTransitions)

  /** The transition maps, padded with zeros. */
  function TransitionMap(g: TransitionGetter): (targets: seq<int>)
    ensures |targets| == MAX_ALLOWED_TRANSITIONS
  {
    match g
    case SurvivalTransitions => [MISSION, 0, 0]
    case MissionTransitions => [SURVIVAL, 0, 0]
  }

  const STATE_MAP: seq<State> := [SURVIVAL_STATE, MISSION_STATE]

  function StateOf(id: int): State
    requires id == SURVIVAL || id == MISSION
  {
    if id == SURVIVAL then SURVIVAL_STATE else MISSION_STATE
  }

  /** The code of a change-state demand, by the two states' ids. */
  function ChangeCode(current: int, target: int): int {
    if target == current then ALREADY_IN_THIS_STATE
    else if target == SURVIVAL || target == MISSION then NO_ERROR
    else if target == 0 then STATE_NOT_FOUND_IN_MAP
    else STATE_CHANGE_NOT_ALLOWED
  }

  /** A message as it sits in the zeroed receive buffer. */
  function Padded(item: seq<byte>): (b: seq<byte>)
    ensures |b| >= COMM_BUFFER_SIZE
  {
    item + [0, 0, 0]
  }

  /** The target a message names, if it is a change-state command naming a known state. */
  function TargetOf(item: seq<byte>): Option<int> {
    var b := Padded(item);
    if b[0] == COMMAND_CHANGE_STATE && (b[1] == SURVIVAL || b[1] == MISSION) then Some(b[1]) else None
  }

  function UpdateCode(current: int, item: seq<byte>): int {
    var b := Padded(item);
    if b[0] == COMMAND_CHANGE_STATE then ChangeCode(current, b[1]) else NO_ERROR
  }

  // ---------------------------------------------------- messages, byte by byte

  /** A change-state command that names a known state: byte 0 is the command, byte 1 the state. */
  predicate Names(item: seq<byte>) {
    |item| > 1 && item[0] == 1 && (item[1] == 1 || item[1] == 2)
  }

  lemma NamesIs(item: seq<byte>)
    ensures Names(item) <==> |item| > 1 && item[0] == 1 && (item[1] == 1 || item[1] == 2)
  {
  }

  lemma TargetIs(item: seq<byte>)
    ensures TargetOf(item) == if Names(item) then Some(item[1]) else None
  {
  }

  /** The code a message gets in state 1 or 2; a byte it does not have counts as 0. */
  lemma UpdateCodeIs(current: int, item: seq<byte>)
    requires current == 1 || current == 2
    ensures UpdateCode(current, item) == 6 <==> |item| > 1 && item[0] == 1 && item[1] == current
    ensures UpdateCode(current, item) == 5 <==> |item| > 1 && item[0] == 1 && item[1] > 2
    ensures UpdateCode(current, item) == 1 <==> item != [] && item[0] == 1 && (|item| == 1 || item[1] == 0)
    ensures UpdateCode(current, item) in {0, 1, 5, 6}
  {
  }

  lemma ChangeCodeIs(current: int, target: int)
    requires current == 1 || current == 2
    ensures ChangeCode(current, target) == 6 <==> target == current
    ensures ChangeCode(current, target) == 0 <==> target != current && (target == 1 || target == 2)
    ensures ChangeCode(current, target) == 1 <==> target == 0
    ensures ChangeCode(current, target) == 5 <==> target < 0 || target > 2
  {
  }

  /** `id` is the state named last in `consumed`, or 1 when none was. */
  ghost predicate IsLastNamed(consumed: seq<seq<byte>>, id: int) {
    || (id == 1 && forall i :: 0 <= i < |consumed| ==> !Names(consumed[i]))
    || exists j :: 0 <= j < |consumed| && IsLastNaming(consumed, j) && id == consumed[j][1]
  }

  ghost predicate IsLastNaming(consumed: seq<seq<byte>>, j: int)
    requires 0 <= j < |consumed|
  {
    Names(consumed[j]) && forall i :: j < i < |consumed| ==> !Names(consumed[i])
  }

  // ------------------------------------------------------------- the machine

  /** The queue's waiting items, the current state, the mission counter, and whether the thread has been cancelled. */
  datatype System = System(waiting: seq<seq<byte>>, current: State, counter: byte, stopped: bool)

  const INITIAL: System := System([], SURVIVAL_STATE, 0, false)

  /** A send from the producer: refused when `length` items wait. */
  function SendStep(s: System, item: seq<byte>, length: nat): System {
    if |s.waiting| < length then s.(waiting := s.waiting + [item]) else s
  }

  /** The update part of one turn of the thread's loop. */
  function UpdateStep(s: System): System
    requires s.current in STATE_MAP
  {
    if s.waiting == [] then s
    else
      var target := TargetOf(s.waiting[0]);
      s.(waiting := s.waiting[1..], current := if target.Some? then StateOf(target.value) else s.current)
  }

  /** The execution part: the mission callback counts, and stops the thread at its limit. */
  function ExecuteStep(s: System): System {
    if s.current.callback != MissionFunction then s
    else
      var counter: byte := (s.counter + 1) % 0x100;
      s.(counter := counter, stopped := counter >= MAX_MISSION_COUNTER)
  }

  function LoopStep(s: System): System
    requires s.current in STATE_MAP
  {
    if s.stopped then s else ExecuteStep(UpdateStep(s))
  }

  // -------------------------------------------------------------- whole runs

  datatype Op = Send(item: seq<byte>) | Turn

  /** What one operation gives back; a cancelled thread takes no more turns. */
  datatype Result = Sent(ret: int) | Turned(update: int, ran: Callback, execute: int) | Cancelled

  /** A run so far: what was accepted, what was consumed, how often the mission callback was called, and every result. */
  datatype History = History(s: System, accepted: seq<seq<byte>>, consumed: seq<seq<byte>>,
                             missionCalls: nat, results: seq<Result>)

  const START: History := History(INITIAL, [], [], 0, [])

  function Step(h: History, op: Op, length: nat, itemSize: nat): History
    requires h.s.current in STATE_MAP
  {
    match op
    case Send(item) =>
      var bytes := Truncated(item, itemSize);
      var fits := |h.s.waiting| < length;
      h.(s := SendStep(h.s, bytes, length),
         accepted := if fits then h.accepted + [bytes] else h.accepted,
         results := h.results + [Sent(if fits then 0 else -1)])
    case Turn =>
      if h.s.stopped then h.(results := h.results + [Cancelled])
      else
        var updated := UpdateStep(h.s);
        var executed := ExecuteStep(updated);
        var code := if h.s.waiting == [] then NO_ERROR else UpdateCode(h.s.current.id, h.s.waiting[0]);
        h.(s := executed,
           consumed := if h.s.waiting == [] then h.consumed else h.consumed + [h.s.waiting[0]],
           missionCalls := if updated.current.callback == MissionFunction then h.missionCalls + 1 else h.missionCalls,
           results := h.results + [Turned(code, updated.current.callback, ExecuteCode(executed))])
  }

  function ExecuteCode(executed: System): int {
    if executed.stopped then UNATTENDED_TERMINATION_ERROR else NO_ERROR
  }

  function Run(h: History, ops: seq<Op>, length: nat, itemSize: nat): (r: History)
    requires h.s.current in STATE_MAP
    ensures r.s.current in STATE_MAP
    decreases |ops|
  {
    if ops == [] then h
    else Step(Run(h, ops[..|ops| - 1], length, itemSize), ops[|ops| - 1], length, itemSize)
  }

  /** The target of the last command in `consumed` that names a known state; SURVIVAL when there is none. */
  function LastTarget(consumed: seq<seq<byte>>): (id: int)
    ensures id == SURVIVAL || id == MISSION
  {
    if consumed == [] then SURVIVAL
    else
      var target := TargetOf(consumed[|consumed| - 1]);
      if target.Some? then target.value else LastTarget(consumed[..|consumed| - 1])
  }

  lemma {:induction false} LastTargetIs(consumed: seq<seq<byte>>)
    ensures IsLastNamed(consumed, LastTarget(consumed))
  {
    hide TargetOf, Names;
    if consumed != [] {
      var last, earlier := consumed[|consumed| - 1], consumed[..|consumed| - 1];
      TargetIs(last);
      if Names(last) {
        assert IsLastNaming(consumed, |consumed| - 1);
      } else {
        LastTargetIs(earlier);
        forall j | 0 <= j < |earlier| && IsLastNaming(earlier, j)
          ensures IsLastNaming(consumed, j)
        {
        }
      }
    }
  }

  /** What one update does, by the bytes of the message it finds. */
  lemma UpdateIs(s: System)
    requires s.current in STATE_MAP
    ensures s.waiting == [] ==> UpdateStep(s) == s
    ensures s.waiting != [] ==>
              var item, after := s.waiting[0], UpdateStep(s);
              && after == s.(waiting := s.waiting[1..], current := after.current) && after.current in STATE_MAP
              && after.current.id == if Names(item) then item[1] else s.current.id
  {
    hide TargetOf;
    if s.waiting != [] {
      TargetIs(s.waiting[0]);
    }
  }

  /** What every run keeps. */
  ghost predicate Kept(h: History, length: nat) {
    && |h.s.waiting| <= length
    && h.accepted == h.consumed + h.s.waiting
    && h.s.current == StateOf(LastTarget(h.consumed))
    && h.s.counter == h.missionCalls <= MAX_MISSION_COUNTER
    && (h.s.stopped <==> h.s.counter == MAX_MISSION_COUNTER)
  }

  lemma {:induction false} LastTargetOfOneMore(consumed: seq<seq<byte>>, item: seq<byte>)
    ensures LastTarget(consumed + [item])
         == if TargetOf(item).Some? then TargetOf(item).value else LastTarget(consumed)
  {
    var more := consumed + [item];
    assert more[|more| - 1] == item && more[..|more| - 1] == consumed;
  }

  /** A turn that finds a message moves it from the waiting to the consumed ones. */
  lemma {:induction false} FirstMoves(h: History)
    requires h.accepted == h.consumed + h.s.waiting && h.s.waiting != []
    ensures h.accepted == h.consumed + [h.s.waiting[0]] + h.s.waiting[1..]
  {
    assert h.s.waiting == [h.s.waiting[0]] + h.s.waiting[1..];
  }

  lemma {:induction false} StepKeeps(h: History, op: Op, length: nat, itemSize: nat)
    requires Kept(h, length)
    ensures Kept(Step(h, op, length, itemSize), length)
  {
    hide TargetOf, LastTarget;
    match op
    case Send(item) =>
      assert forall bytes :: h.accepted + [bytes] == h.consumed + (h.s.waiting + [bytes]);
    case Turn =>
      if !h.s.stopped && h.s.waiting != [] {
        FirstMoves(h);
        LastTargetOfOneMore(h.consumed, h.s.waiting[0]);
      }
  }

  lemma {:induction false} RunKeeps(h: History, ops: seq<Op>, length: nat, itemSize: nat)
    requires Kept(h, length)
    ensures Kept(Run(h, ops, length, itemSize), length)
    ensures |Run(h, ops, length, itemSize).results| == |h.results| + |ops|
    decreases |ops|
  {
    if ops != [] {
      RunKeeps(h, ops[..|ops| - 1], length, itemSize);
      StepKeeps(Run(h, ops[..|ops| - 1], length, itemSize), ops[|ops| - 1], length, itemSize);
    }
  }

  /**
   After any interleaving of sends and loop turns: the messages consumed are a
   prefix of those accepted, in order; the state is the one the last consumed
   command for a known state named; and the mission callback has run at most
   12 times, the 12th of which stopped the thread.
  */
  lemma {:induction false} EveryRun(ops: seq<Op>, length: nat, itemSize: nat)
    ensures var r := Run(START, ops, length, itemSize);
            && r.accepted == r.consumed + r.s.waiting
            && |r.s.waiting| <= length
            && r.s.current in STATE_MAP && IsLastNamed(r.consumed, r.s.current.id)
            && r.missionCalls <= 12
            && (r.s.stopped <==> r.missionCalls == 12)
  {
    RunKeeps(START, ops, length, itemSize);
    LastTargetIs(Run(START, ops, length, itemSize).consumed);
  }

  /**
   What the next operation of a run gives back, from what was accepted and
   consumed before it: a send fails exactly when `length` messages are unread; a
   turn is refused exactly after the 12th mission call; its update code and the
   callback it runs depend on the state last named and the bytes of the next
   unread message; its execution code is fatal exactly on the 12th mission call.
  */
  ghost predicate Answers(before: History, op: Op, length: nat, result: Result)
    requires before.consumed <= before.accepted
  {
    var unread := before.accepted[|before.consumed|..];
    match op
    case Send(_) => result == Sent(if |unread| == length then -1 else 0)
    case Turn =>
      if before.missionCalls == 12 then result == Cancelled
      else exists state :: IsLastNamed(before.consumed, state) && AnswersTurn(state, unread, before.missionCalls, result)
  }

  ghost predicate AnswersTurn(state: int, unread: seq<seq<byte>>, missionCalls: nat, result: Result) {
    var next := if unread != [] && Names(unread[0]) then unread[0][1] else state;
    && result.Turned?
    && result.update == (if unread == [] || unread[0] == [] || unread[0][0] != 1 then 0
                         else if |unread[0]| == 1 || unread[0][1] == 0 then 1
                         else if unread[0][1] == state then 6
                         else if unread[0][1] > 2 then 5
                         else 0)
    && result.ran == (if next == 2 then MissionFunction else SurvivalFunction)
    && result.execute == if next == 2 && missionCalls == 11 then 12 else 0
  }

  lemma {:induction false} StepAnswers(h: History, op: Op, length: nat, itemSize: nat)
    requires Kept(h, length)
    ensures h.consumed <= h.accepted
    ensures exists result :: Step(h, op, length, itemSize).results == h.results + [result] && Answers(h, op, length, result)
  {
    hide TargetOf, LastTarget, UpdateCode, UpdateStep, Names, IsLastNamed;
    assert h.accepted[|h.consumed|..] == h.s.waiting;
    var result := Step(h, op, length, itemSize).results[|h.results|];
    if op.Turn? && !h.s.stopped {
      LastTargetIs(h.consumed);
      TurnAnswers(h, result, length, itemSize);
    }
    assert Answers(h, op, length, result);
  }

  lemma {:induction false} TurnAnswers(h: History, result: Result, length: nat, itemSize: nat)
    requires Kept(h, length) && !h.s.stopped
    requires Step(h, Turn, length, itemSize).results == h.results + [result]
    ensures AnswersTurn(h.s.current.id, h.s.waiting, h.missionCalls, result)
  {
    hide UpdateStep, TargetOf, LastTarget, UpdateCode;
    UpdateIs(h.s);
    if h.s.waiting != [] {
      UpdateCodeIs(h.s.current.id, h.s.waiting[0]);
    }
    assert Step(h, Turn, length, itemSize).results[|h.results|] == result;
  }

  /** Every result of every run answers its operation. */
  lemma {:induction false} ResultIs(ops: seq<Op>, i: nat, length: nat, itemSize: nat)
    requires i < |ops|
    ensures var before, r := Run(START, ops[..i], length, itemSize), Run(START, ops, length, itemSize);
            && before.consumed <= before.accepted && |r.results| == |ops|
            && Answers(before, ops[i], length, r.results[i])
    decreases |ops|
  {
    hide Answers, Step;
    var shorter := ops[..|ops| - 1];
    RunKeeps(START, ops, length, itemSize);
    RunKeeps(START, shorter, length, itemSize);
    StepAnswers(Run(START, shorter, length, itemSize), ops[|ops| - 1], length, itemSize);
    if i < |shorter| {
      assert shorter[..i] == ops[..i];
      ResultIs(shorter, i, length, itemSize);
    }
  }

  function Turns(n: nat): (ops: seq<Op>)
    ensures |ops| == n
  {
    seq(n, _ => Turn)
  }

  /**
   With the producer silent, as many turns as there are waiting messages either
   stop the thread or consume them all, and then the state is the one the last
   accepted command for a known state named.
  */
  lemma {:induction false} TurnsDrain(h: History, length: nat, itemSize: nat)
    requires Kept(h, length)
    ensures var r := Run(h, Turns(|h.s.waiting|), length, itemSize);
            && r.accepted == h.accepted
            && (!r.s.stopped ==> r.s.waiting == [] && IsLastNamed(h.accepted, r.s.current.id))
  {
    var n := |h.s.waiting|;
    TurnsConsume(h, n, length, itemSize);
    RunKeeps(h, Turns(n), length, itemSize);
    var r := Run(h, Turns(n), length, itemSize);
    assert r.s.waiting == [] ==> r.consumed + r.s.waiting == r.consumed;
    LastTargetIs(r.consumed);
  }

  /** Every turn of a running thread consumes one waiting message. */
  lemma {:induction false} TurnsConsume(h: History, n: nat, length: nat, itemSize: nat)
    requires Kept(h, length) && n <= |h.s.waiting|
    ensures var r := Run(h, Turns(n), length, itemSize);
            r.accepted == h.accepted && (!r.s.stopped ==> |r.s.waiting| == |h.s.waiting| - n)
  {
    if n > 0 {
      assert Turns(n)[..n - 1] == Turns(n - 1);
      TurnsConsume(h, n - 1, length, itemSize);
    }
  }
}
