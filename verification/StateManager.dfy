/** The state manager thread: its handler, its queue, and the mission state's static counter. */
module StateManager {
  import opened Wrappers
  import opened StateManagerModel
  import Queue

  class Manager {
    var currentState: State
    const stateMap: array<State>
    const readQueue: Queue.Queue
    var missionCounter: byte
    var stopped: bool

    ghost predicate Valid()
      reads this, stateMap, readQueue, readQueue.memory
    {
      && readQueue.Valid() && readQueue.Fits() && readQueue.itemSize <= COMM_BUFFER_SIZE
      && stateMap[..] == STATE_MAP
      && currentState in STATE_MAP
    }

    ghost function View(): System
      reads this, readQueue
    {
      System(readQueue.items, currentState, missionCounter, stopped)
    }

    /** The static initial values, then STATE_MANAGER__initialization. */
    constructor (queue: Queue.Queue)
      requires queue.Valid() && queue.Fits() && queue.itemSize <= COMM_BUFFER_SIZE
      ensures Valid() && readQueue == queue && fresh(stateMap)
      ensures View() == INITIAL.(waiting := queue.items)
    {
      currentState := SURVIVAL_STATE;
      readQueue := queue;
      missionCounter := 0;
      stopped := false;
      stateMap := new State[MAX_STATES](_ => SURVIVAL_STATE);
      new;
      stateMap[0] := SURVIVAL_STATE;
      stateMap[1] := MISSION_STATE;
    }

    method IsTransitionAllowed(target: int) returns (allowed: bool)
      requires Valid()
      ensures allowed == (target in TransitionMap(currentState.getTransitions))
    {
      var transitions := TransitionMap(currentState.getTransitions);
      for i := 0 to MAX_ALLOWED_TRANSITIONS
        invariant target !in transitions[..i]
      {
        if transitions[i] == target {
          return true;
        }
      }
      allowed := false;
    }

    method GetStateInMap(target: int) returns (ret: int, state: Option<State>)
      requires Valid()
      ensures ret == if target == SURVIVAL || target == MISSION then NO_ERROR else STATE_NOT_FOUND_IN_MAP
      ensures ret == NO_ERROR ==> state == Some(StateOf(target))
    {
      for i := 0 to MAX_STATES
        invariant forall j :: 0 <= j < i ==> STATE_MAP[j].id != target
      {
        assert stateMap[i] == stateMap[..][i];
        if stateMap[i].id == target {
          return NO_ERROR, Some(stateMap[i]);
        }
      }
      assert STATE_MAP[0].id != target && STATE_MAP[1].id != target;
      return STATE_NOT_FOUND_IN_MAP, None;
    }

    method ChangeState(target: int) returns (ret: int)
      requires Valid()
      modifies `currentState
      ensures Valid()
      ensures ret == ChangeCode(old(currentState).id, target)
      ensures ret == 6 <==> target == old(currentState).id
      ensures ret == 1 <==> target == 0
      ensures ret == 5 <==> target < 0 || target > 2
      ensures currentState.id == if target == 1 || target == 2 then target else old(currentState).id
      ensures currentState == if ret == NO_ERROR then StateOf(target) else old(currentState)
    {
      if currentState.id == target {
        return ALREADY_IN_THIS_STATE;
      }
      var allowed := IsTransitionAllowed(target);
      if !allowed {
        return STATE_CHANGE_NOT_ALLOWED;
      }
      var found, newState := GetStateInMap(target);
      if found != NO_ERROR {
        return found;
      }
      currentState := newState.value;
      ret := NO_ERROR;
    }

    /** Every outcome of a message: a code that is never fatal, and the state the machine says. */
    method Update() returns (ret: int)
      requires Valid()
      modifies this, readQueue
      ensures Valid() && readQueue.length == old(readQueue.length) && readQueue.itemSize == old(readQueue.itemSize)
      ensures ret == if old(readQueue.items) == [] then NO_ERROR
                     else UpdateCode(old(currentState).id, old(readQueue.items)[0])
      ensures ret <= FATAL_ERROR_DETECTOR
      ensures ret != NO_ERROR ==> currentState == old(currentState)
      ensures View() == UpdateStep(old(View()))
      ensures old(readQueue.items) != [] ==>
                var item := old(readQueue.items)[0];
                && readQueue.items == old(readQueue.items)[1..]
                && currentState.id == (if |item| > 1 && item[0] == 1 && (item[1] == 1 || item[1] == 2) then item[1]
                                       else old(currentState).id)
                && (ret == 6 <==> |item| > 1 && item[0] == 1 && item[1] == old(currentState).id)
                && (ret == 5 <==> |item| > 1 && item[0] == 1 && item[1] > 2)
                && (ret == 1 <==> item != [] && item[0] == 1 && (|item| == 1 || item[1] == 0))
                && ret in {0, 1, 5, 6}
    {
      hide TargetOf, UpdateStep, UpdateCode, Names;
      UpdateIs(View());
      if readQueue.items != [] {
        NamesIs(readQueue.items[0]);
        UpdateCodeIs(currentState.id, readQueue.items[0]);
      }
      var received, command, target := ReceiveMessage();
      ret := NO_ERROR;
      if received && command == COMMAND_CHANGE_STATE {
        ret := ChangeState(target);
      }
    }

    /** Takes the next message into a zeroed buffer: its first two bytes, where a byte it does not have is 0. */
    method ReceiveMessage() returns (received: bool, command: byte, target: byte)
      requires Valid()
      modifies readQueue
      ensures Valid() && readQueue.length == old(readQueue.length) && readQueue.itemSize == old(readQueue.itemSize)
      ensures received == (old(readQueue.items) != [])
      ensures !received ==> readQueue.items == old(readQueue.items)
      ensures received ==>
                var item := old(readQueue.items)[0];
                && readQueue.items == old(readQueue.items)[1..]
                && command == (if item == [] then 0 else item[0])
                && target == (if |item| <= 1 then 0 else item[1])
    {
      var commBuffer := new byte[COMM_BUFFER_SIZE](_ => 0);
      var code := readQueue.Receive(commBuffer);
      received := code == 0;
      assert commBuffer[0] == commBuffer[..][0] && commBuffer[1] == commBuffer[..][1];
      command, target := commBuffer[0], commBuffer[1];
    }

    /** The mission callback: an 8-bit counter, fatal at its limit. */
    method MissionFunction() returns (ret: int)
      requires Valid()
      modifies `missionCounter
      ensures Valid() && missionCounter == (old(missionCounter) + 1) % 0x100
      ensures ret == if missionCounter >= MAX_MISSION_COUNTER then UNATTENDED_TERMINATION_ERROR else NO_ERROR
    {
      missionCounter := (missionCounter + 1) % 0x100;
      if missionCounter >= MAX_MISSION_COUNTER {
        return UNATTENDED_TERMINATION_ERROR;
      }
      ret := NO_ERROR;
    }

    /** Calls the current state's callback, and reports which one that was. */
    method ExecutionLoop() returns (ret: int, ran: Callback)
      requires Valid()
      modifies `missionCounter
      ensures Valid() && ran == currentState.callback
      ensures var after := ExecuteStep(old(View()).(stopped := false));
              View() == after.(stopped := old(stopped)) && ret == ExecuteCode(after)
    {
      ran := currentState.callback;
      match ran
      case SurvivalFunction =>
        ret := NO_ERROR;
      case MissionFunction =>
        ret := MissionFunction();
    }

    /** The server thread's side: it posts what it received to the same queue. */
    method Post(item: seq<byte>) returns (ret: int)
      requires Valid() && |item| >= readQueue.itemSize
      modifies readQueue, readQueue.memory
      ensures Valid() && readQueue.length == old(readQueue.length) && readQueue.itemSize == old(readQueue.itemSize)
      ensures View() == SendStep(old(View()), Truncated(item, readQueue.itemSize), readQueue.length)
      ensures ret == if |old(readQueue.items)| < readQueue.length then 0 else -1
    {
      Queue.FitsIsRoom(readQueue);
      if |readQueue.items| < readQueue.length {
        Queue.SentAppends(readQueue.items, item[..readQueue.itemSize], Queue.Slots(readQueue.length, readQueue.itemSize));
      }
      ret := readQueue.Send(item);
      assert item[..readQueue.itemSize] == Truncated(item, readQueue.itemSize);
    }

    /** One turn of the thread's endless loop; a fatal code cancels the thread. */
    method Turn() returns (update: int, ran: Callback, execute: int)
      requires Valid() && !stopped
      modifies this, readQueue
      ensures Valid() && readQueue.length == old(readQueue.length) && readQueue.itemSize == old(readQueue.itemSize)
      ensures View() == LoopStep(old(View()))
      ensures update == if old(readQueue.items) == [] then NO_ERROR
                        else UpdateCode(old(currentState).id, old(readQueue.items)[0])
      ensures ran == currentState.callback && execute == ExecuteCode(View())
    {
      update := Update();
      assert update <= FATAL_ERROR_DETECTOR;  // the cancel after an update is never reached
      execute, ran := ExecutionLoop();
      if execute > FATAL_ERROR_DETECTOR {
        stopped := true;
      }
    }
  }

  /** One operation on the manager and its queue gives the machine's result and leaves the machine's state. */
  method ExecuteOne(m: Manager, op: Op, ghost h: History) returns (result: Result)
    requires m.Valid() && m.View() == h.s
    requires op.Send? ==> |op.item| >= m.readQueue.itemSize
    modifies m, m.readQueue, m.readQueue.memory
    ensures m.Valid() && m.readQueue.length == old(m.readQueue.length) && m.readQueue.itemSize == old(m.readQueue.itemSize)
    ensures var h' := Step(h, op, m.readQueue.length, m.readQueue.itemSize);
            && m.View() == h'.s && h'.results == h.results + [result]
            && h'.missionCalls == h.missionCalls + if RanMission(result) then 1 else 0
  {
    if op.Send? {
      var ret := m.Post(op.item);
      result := Sent(ret);
    } else if m.stopped {
      result := Cancelled;
    } else {
      var update, ran, execute := m.Turn();
      result := Turned(update, ran, execute);
    }
  }

  predicate RanMission(result: Result) {
    result.Turned? && result.ran == MissionFunction
  }

  /**
   A run carried out on a new manager and its byte ring returns the machine's
   results. So the state is the one the last consumed command for a known state
   named, and the mission callback has been called at most 12 times, the 12th
   call being the one that cancelled the thread.
  */
  method Execute(m: Manager, ops: seq<Op>)
    returns (results: seq<Result>, missionCalls: nat, ghost consumed: seq<seq<byte>>, ghost accepted: seq<seq<byte>>)
    requires m.Valid() && m.View() == INITIAL
    requires forall i :: 0 <= i < |ops| && ops[i].Send? ==> |ops[i].item| >= m.readQueue.itemSize
    modifies m, m.readQueue, m.readQueue.memory
    ensures m.Valid() && m.readQueue.length == old(m.readQueue.length) && m.readQueue.itemSize == old(m.readQueue.itemSize)
    ensures var r := Run(START, ops, m.readQueue.length, m.readQueue.itemSize);
            && m.View() == r.s && results == r.results && missionCalls == r.missionCalls
            && consumed == r.consumed && accepted == r.accepted
    ensures accepted == consumed + m.readQueue.items
    ensures IsLastNamed(consumed, m.currentState.id)
    ensures missionCalls <= 12 && (m.stopped <==> missionCalls == 12)
  {
    hide Step;
    results, missionCalls := [], 0;
    ghost var r := START;
    for i := 0 to |ops|
      invariant m.Valid()
      invariant m.readQueue.length == old(m.readQueue.length) && m.readQueue.itemSize == old(m.readQueue.itemSize)
      invariant r == Run(START, ops[..i], m.readQueue.length, m.readQueue.itemSize)
      invariant m.View() == r.s && results == r.results && missionCalls == r.missionCalls
    {
      assert ops[..i + 1][..i] == ops[..i];
      var result := ExecuteOne(m, ops[i], r);
      r := Step(r, ops[i], m.readQueue.length, m.readQueue.itemSize);
      results := results + [result];
      if RanMission(result) {
        missionCalls := missionCalls + 1;
      }
    }
    assert ops[..|ops|] == ops;
    consumed, accepted := r.consumed, r.accepted;
    EveryRun(ops, m.readQueue.length, m.readQueue.itemSize);
  }
}
