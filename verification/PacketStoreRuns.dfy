/** What every run of the packet store keeps, which states runs reach, and where the store falls short. */
module PacketStoreRuns {
  import opened Wrappers
  import opened Cyclic
  import opened TimeLog
  import opened PacketStoreModel
  import opened PacketStoreDeletes
  import opened PacketStoreEffects
  import PacketStore
  import PacketStoreReads

  // ------------------------------------------------------------- whole runs

  datatype Op = Append(e: Record) | DeleteUpTo(time: u32) | Read(start: u32, end: u32, max: nat) | Restart

  /**
   A run so far: the log and the data file it left, the records accepted and
   dropped in order, and what each call handed back.
  */
  datatype History = History(view: View, file: Option<seq<Record>>, accepted: seq<Record>, dropped: seq<Record>,
                             results: seq<Outcome>)

  const START: History := History(EMPTY, None, [], [], [])

  ghost function Step(h: History, op: Op, capacity: nat): History
    requires WellFormed(h.view, capacity)
  {
    match op
    case Append(e) =>
      var code := StoreCode(h.view, e, capacity);
      History(Stored(h.view, e, capacity), FileStored(h.file, h.view, e, capacity),
              if code == 0 then h.accepted + [e] else h.accepted, h.dropped, h.results + [Code(code)])
    case DeleteUpTo(time) =>
      var after := Deleted(h.view, time, capacity);
      DeleteDropsPrefix(h.view, time, capacity);
      History(after, FileDeleted(h.file, h.view, time, capacity),
              h.accepted, h.dropped + h.view.log[..|h.view.log| - |after.log|],
              h.results + [Code(DeleteCode(h.view, time))])
    case Read(start, end, max) =>
      h.(results := h.results + [ReadBetween(h.view, h.file, capacity, start, end, max, 0, Copies(NULL_ELEMENT, max))])
    case Restart => h
  }

  lemma {:induction false} StepKeepsWellFormed(h: History, op: Op, capacity: nat)
    requires WellFormed(h.view, capacity)
    ensures WellFormed(Step(h, op, capacity).view, capacity)
  {
    if op.DeleteUpTo? {
      DeleteDropsPrefix(h.view, op.time, capacity);
    }
  }

  ghost function Run(h: History, ops: seq<Op>, capacity: nat): (r: History)
    requires WellFormed(h.view, capacity)
    ensures WellFormed(r.view, capacity)
    decreases |ops|
  {
    if ops == [] then h
    else
      StepKeepsWellFormed(h, ops[0], capacity);
      Run(Step(h, ops[0], capacity), ops[1..], capacity)
  }

  /** Every record the run stores has the bytes a store copies. */
  ghost predicate Storable(ops: seq<Op>) {
    forall i :: 0 <= i < |ops| && ops[i].Append? ==> |ops[i].e.data| == TM_LENGTH
  }

  /** Every delete of the run was given at most `bound`. */
  ghost predicate DeletesUpTo(ops: seq<Op>, bound: int) {
    forall i :: 0 <= i < |ops| && ops[i].DeleteUpTo? ==> ops[i].time <= bound
  }

  ghost predicate Conserves(h: History, bound: int) {
    Conserved(h.accepted, h.dropped, h.view.log, bound)
  }

  lemma {:induction false} StepConserves(h: History, op: Op, bound: int, capacity: nat)
    requires WellFormed(h.view, capacity) && Conserves(h, bound)
    requires op.DeleteUpTo? ==> op.time <= bound
    ensures Conserves(Step(h, op, capacity), bound)
  {
    hide Conserved, Deleted, Sorted;
    match op
    case Append(e) =>
      ConservedAppend(h.accepted, h.dropped, h.view.log, bound, e);
    case DeleteUpTo(time) =>
      DeleteDropsPrefix(h.view, time, capacity);
      ConservedDrop(h.accepted, h.dropped, h.view.log, bound, |h.view.log| - |Deleted(h.view, time, capacity).log|);
    case Read(start, end, max) =>
    case Restart =>
  }

  lemma {:induction false} RunConserves(h: History, ops: seq<Op>, bound: int, capacity: nat)
    requires WellFormed(h.view, capacity) && Conserves(h, bound) && DeletesUpTo(ops, bound)
    ensures Conserves(Run(h, ops, capacity), bound)
    decreases |ops|
  {
    if ops != [] {
      StepConserves(h, ops[0], bound, capacity);
      StepKeepsWellFormed(h, ops[0], capacity);
      RunConserves(Step(h, ops[0], capacity), ops[1..], bound, capacity);
    }
  }

  /** Every step leaves a data file that holds the log. */
  lemma {:induction false} StepKeepsHolds(h: History, op: Op, capacity: nat)
    requires WellFormed(h.view, capacity) && Holds(h.file, h.view, capacity)
    ensures Holds(Step(h, op, capacity).file, Step(h, op, capacity).view, capacity)
  {
    hide Sorted, WriteSlot, Overwritten, NullsFrom;
    var v := h.view;
    match op
    case Append(e) =>
      if StoreCode(v, e, capacity) == 0 {
        PacketStore.StoredRepresents(HandlerOf(v, capacity), h.file, v, e, capacity);
      }
    case DeleteUpTo(time) =>
      if time < NewestTime(v.log) && LastUpTo(v.log, time) > 0 {
        assert LastUpTo(v.log, time) < |v.log|;
        var c := Taken(v, LastUpTo(v.log, time), capacity);
        PacketStore.DroppedRepresents(HandlerOf(v, capacity), h.file.value, v, c, capacity);
      }
    case Read(start, end, max) =>
    case Restart =>
  }

  lemma {:induction false} RunHolds(h: History, ops: seq<Op>, capacity: nat)
    requires WellFormed(h.view, capacity) && Holds(h.file, h.view, capacity)
    ensures Holds(Run(h, ops, capacity).file, Run(h, ops, capacity).view, capacity)
    decreases |ops|
  {
    if ops != [] {
      StepKeepsHolds(h, ops[0], capacity);
      StepKeepsWellFormed(h, ops[0], capacity);
      RunHolds(Step(h, ops[0], capacity), ops[1..], capacity);
    }
  }

  lemma {:induction false} FileHolds(ops: seq<Op>, capacity: nat)
    requires 1 <= capacity < 0x1_0000_0000
    ensures var r := Run(START, ops, capacity); WellFormed(r.view, capacity) && Holds(r.file, r.view, capacity)
  {
    RunHolds(START, ops, capacity);
  }

  /** The file past the tail, where emptying the store can write, holds nulls only. */
  ghost predicate NullPastTail(file: Option<seq<Record>>, capacity: nat) {
    file.Some? ==> forall s :: capacity <= s < |file.value| ==> file.value[s] == NULL_ELEMENT
  }

  lemma {:induction false} RunNullPastTail(h: History, ops: seq<Op>, capacity: nat)
    requires WellFormed(h.view, capacity) && NullPastTail(h.file, capacity)
    ensures NullPastTail(Run(h, ops, capacity).file, capacity)
    decreases |ops|
  {
    if ops != [] {
      StepKeepsWellFormed(h, ops[0], capacity);
      RunNullPastTail(Step(h, ops[0], capacity), ops[1..], capacity);
    }
  }

  /**
   Every run from an empty store: the data file holds the log, and past the tail
   only nulls; the accepted records are the dropped ones followed by the log,
   and the log still has every accepted record newer than all the deletes.
  */
  lemma {:induction false} EveryRunConserves(ops: seq<Op>, bound: int, capacity: nat)
    requires 1 <= capacity < 0x1_0000_0000 && DeletesUpTo(ops, bound)
    ensures var r := Run(START, ops, capacity);
            && WellFormed(r.view, capacity) && Holds(r.file, r.view, capacity)
            && NullPastTail(r.file, capacity)
            && r.accepted == r.dropped + r.view.log
            && NewerThan(r.accepted, bound) == NewerThan(r.view.log, bound)
  {
    var r := Run(START, ops, capacity);
    RunHolds(START, ops, capacity);
    RunNullPastTail(START, ops, capacity);
    RunConserves(START, ops, bound, capacity);
    ConservedKeepsNewer(r.accepted, r.dropped, r.view.log, bound);
  }

  // ------------------------------------------------------------- restarting

  function WithoutRestarts(ops: seq<Op>): seq<Op> {
    if ops == [] then []
    else (if ops[0].Restart? then [] else [ops[0]]) + WithoutRestarts(ops[1..])
  }

  /** Initialising again anywhere in a run changes no later result, log or file. */
  lemma {:induction false} RestartsAreInvisible(h: History, ops: seq<Op>, capacity: nat)
    requires WellFormed(h.view, capacity)
    ensures Run(h, WithoutRestarts(ops), capacity) == Run(h, ops, capacity)
    decreases |ops|
  {
    if ops != [] {
      StepKeepsWellFormed(h, ops[0], capacity);
      RestartsAreInvisible(Step(h, ops[0], capacity), ops[1..], capacity);
      if ops[0].Restart? {
        assert WithoutRestarts(ops) == WithoutRestarts(ops[1..]);
      } else {
        assert WithoutRestarts(ops)[0] == ops[0];
        assert WithoutRestarts(ops)[1..] == WithoutRestarts(ops[1..]);
      }
    }
  }

  /** A new process over the same disk comes up with the handler, the log and the file of the old one. */
  method PowerCycle(before: PacketStore.Store) returns (s: PacketStore.Store)
    requires before.Valid()
    ensures fresh(s) && s.Valid()
    ensures s.Live() == before.Live() && s.view == before.view && s.file == before.file
    ensures s.capacity == before.capacity
  {
    s := new PacketStore.Store(before.capacity, before.file, before.info, before.view);
    var ret := s.Init();
  }

  /**
   A run carried out on the store itself, with a power cycle for every restart:
   every call hands back, and the run leaves, what the run without restarts does.
  */
  method Execute(store: PacketStore.Store, ops: seq<Op>) returns (s: PacketStore.Store, results: seq<Outcome>)
    requires store.Valid() && Storable(ops)
    modifies store
    ensures s.Valid() && s.capacity == store.capacity && (s == store || fresh(s))
    ensures var start := History(old(store.view), old(store.file), [], [], []);
            var r := Run(start, WithoutRestarts(ops), store.capacity);
            s.view == r.view && s.file == r.file && results == r.results
  {
    s, results := store, [];
    ghost var h := History(store.view, store.file, [], [], []);
    ghost var start := h;
    for i := 0 to |ops|
      invariant s.Valid() && s.capacity == store.capacity && (s == store || fresh(s))
      invariant s.view == h.view && s.file == h.file && results == h.results
      invariant Run(h, ops[i..], store.capacity) == Run(start, ops, store.capacity)
    {
      assert ops[i..][0] == ops[i] && ops[i..][1..] == ops[i + 1..];
      s, results := ExecuteOne(s, ops[i], results, h);
      h := Step(h, ops[i], store.capacity);
    }
    RestartsAreInvisible(start, ops, store.capacity);
  }

  method ExecuteOne(store: PacketStore.Store, op: Op, results: seq<Outcome>, ghost h: History)
    returns (s: PacketStore.Store, results': seq<Outcome>)
    requires store.Valid() && (op.Append? ==> |op.e.data| == TM_LENGTH)
    requires store.view == h.view && store.file == h.file && results == h.results
    modifies store
    ensures s.Valid() && s.capacity == store.capacity && (s == store || fresh(s))
    ensures var h' := Step(h, op, store.capacity);
            s.view == h'.view && s.file == h'.file && results' == h'.results
  {
    s, results' := store, results;
    match op
    case Append(e) =>
      LittleEndianRoundTrip(e.time);
      assert e.data[..TM_LENGTH] == e.data;
      var code := store.StoreCallback(e.data, e.length, ToLittleEndian(e.time));
      results' := results + [Code(code)];
    case DeleteUpTo(time) =>
      var code := store.DeleteUpToTime(time);
      results' := results + [Code(code)];
    case Read(start, end, max) =>
      var elements := new Record[max](_ => NULL_ELEMENT);
      assert elements[..] == Copies(NULL_ELEMENT, max);
      var ret, number := store.ReadElementsBetweenTwoDates(elements, max, 0, start, end);
      results' := results + [Outcome(ret, number, elements[..])];
    case Restart =>
      s := PowerCycle(store);
  }

  // --------------------------------------------------- codes and dead slots

  lemma {:induction false} RunLast(h: History, ops: seq<Op>, capacity: nat)
    requires WellFormed(h.view, capacity) && ops != []
    ensures Run(h, ops, capacity) == Step(Run(h, ops[..|ops| - 1], capacity), ops[|ops| - 1], capacity)
  {
    hide Step;
    var shorter, last := ops[..|ops| - 1], ops[|ops| - 1];
    assert ops == shorter + [last];
    RunConcat(h, shorter, [last], capacity);
    var before := Run(h, shorter, capacity);
    StepKeepsWellFormed(before, last, capacity);
    assert [last][0] == last && [last][1..] == [];
  }

  /** What a call handed back stays in the history. */
  lemma {:induction false} RunExtends(h: History, ops: seq<Op>, capacity: nat)
    requires WellFormed(h.view, capacity)
    ensures h.results <= Run(h, ops, capacity).results
    decreases |ops|
  {
    if ops != [] {
      StepKeepsWellFormed(h, ops[0], capacity);
      RunExtends(Step(h, ops[0], capacity), ops[1..], capacity);
    }
  }

  /** The log is what was accepted and not dropped, and the file exists once a record was accepted. */
  lemma {:induction false} RunSplits(ops: seq<Op>, capacity: nat)
    requires 1 <= capacity < 0x1_0000_0000
    ensures var r := Run(START, ops, capacity);
            && r.accepted == r.dropped + r.view.log && Sorted(r.view.log) && |r.view.log| <= capacity
            && (r.view.onDisk <==> r.accepted != [])
    decreases |ops|
  {
    StartIsWellFormed(capacity);
    hide Step, Sorted;
    RunConserves(START, ops, 0xFFFF_FFFF, capacity);
    if ops != [] {
      var shorter := ops[..|ops| - 1];
      RunSplits(shorter, capacity);
      RunLast(START, ops, capacity);
      StepOnDisk(Run(START, shorter, capacity), ops[|ops| - 1], capacity);
    }
  }

  lemma {:induction false} StepOnDisk(h: History, op: Op, capacity: nat)
    requires WellFormed(h.view, capacity) && (h.view.onDisk <==> h.accepted != [])
    ensures var h' := Step(h, op, capacity); h'.view.onDisk <==> h'.accepted != []
  {
    hide Sorted;
  }

  /** The code the next store or delete of a run is given, by what was accepted and dropped before it. */
  ghost predicate Answers(before: History, op: Op, code: int, capacity: nat)
    requires |before.dropped| <= |before.accepted|
  {
    var live := before.accepted[|before.dropped|..];
    match op
    case Append(e) =>
      code == if |live| == capacity then -1 else if live != [] && e.time < live[|live| - 1].time then -2 else 0
    case DeleteUpTo(time) =>
      code == if before.accepted == [] then 1
              else if live != [] && (forall k :: 0 <= k < |live| ==> live[k].time > time) then 2
              else 0
    case Read(_, _, _) => true
    case Restart => true
  }

  lemma {:induction false} StepAnswers(h: History, op: Op, capacity: nat)
    requires WellFormed(h.view, capacity) && !op.Restart?
    requires h.accepted == h.dropped + h.view.log && (h.view.onDisk <==> h.accepted != [])
    ensures var results := Step(h, op, capacity).results;
            && |results| == |h.results| + 1 && Answers(h, op, results[|h.results|].ret, capacity)
  {
    hide Sorted, Deleted, StoreCode, DeleteCode, ReadBetween;
    assert h.accepted[|h.dropped|..] == h.view.log;
    if op.Append? {
      StoreIs(h.view, op.e, capacity);
    } else if op.DeleteUpTo? {
      DeleteCodeIs(h.view, op.time, capacity);
    }
  }

  /** Every store and every delete of every run is answered by that rule. */
  lemma {:induction false} CodeIs(ops: seq<Op>, i: nat, capacity: nat)
    requires 1 <= capacity < 0x1_0000_0000 && i < |ops| && !ops[i].Restart?
    ensures var before, r := Run(START, ops[..i], capacity), Run(START, ops, capacity);
            && |before.dropped| <= |before.accepted| && |before.results| < |r.results|
            && Answers(before, ops[i], r.results[|before.results|].ret, capacity)
  {
    hide Run, Sorted, Step, Answers;
    StartIsWellFormed(capacity);
    var before := Run(START, ops[..i], capacity);
    RunSplits(ops[..i], capacity);
    StepAnswers(before, ops[i], capacity);
    assert ops[..i + 1][..i] == ops[..i] && ops[..i + 1] + ops[i + 1..] == ops;
    RunLast(START, ops[..i + 1], capacity);
    RunConcat(START, ops[..i + 1], ops[i + 1..], capacity);
    StepKeepsWellFormed(before, ops[i], capacity);
    RunExtends(Step(before, ops[i], capacity), ops[i + 1..], capacity);
  }

  ghost predicate LiveSlot(v: View, slot: nat, capacity: nat)
    requires v.oldest < capacity && |v.log| <= capacity
  {
    exists k: nat :: k < |v.log| && At(v.oldest, k, capacity) == slot
  }

  /** The delete empties a log that has the record `e` in `slot`, past the tail. */
  ghost predicate LeavesBehind(v: View, op: Op, slot: nat, e: Record, capacity: nat)
    requires v.oldest < capacity && |v.log| <= capacity
  {
    && op.DeleteUpTo? && op.time >= NewestTime(v.log)
    && exists k: nat :: k < |v.log| && v.oldest + k >= capacity && At(v.oldest, k, capacity) == slot && v.log[k] == e
  }

  ghost predicate LeftBehind(ops: seq<Op>, slot: nat, e: Record, capacity: nat)
    requires 1 <= capacity < 0x1_0000_0000
  {
    exists j: nat :: j < |ops| && LeavesBehind(Run(START, ops[..j], capacity).view, ops[j], slot, e, capacity)
  }

  /** In every run a slot of the card that is not live is null, or was left past the tail by an emptying. */
  lemma {:induction false} DeadSlots(ops: seq<Op>, slot: nat, capacity: nat)
    requires 1 <= capacity < 0x1_0000_0000
    requires var r := Run(START, ops, capacity);
             r.file.Some? && slot < |r.file.value| && !LiveSlot(r.view, slot, capacity)
    ensures var e := Run(START, ops, capacity).file.value[slot];
            e == NULL_ELEMENT || LeftBehind(ops, slot, e, capacity)
    decreases |ops|
  {
    hide Step, LiveSlot, LeavesBehind, Sorted;
    StartIsWellFormed(capacity);
    if ops != [] {
      var shorter, op := ops[..|ops| - 1], ops[|ops| - 1];
      var before := Run(START, shorter, capacity);
      RunLast(START, ops, capacity);
      RunHolds(START, shorter, capacity);
      StepDeadSlot(before, op, slot, capacity);
      var e := Run(START, ops, capacity).file.value[slot];
      if e != NULL_ELEMENT && !LeavesBehind(before.view, op, slot, e, capacity) {
        DeadSlots(shorter, slot, capacity);
        var j: nat :| j < |shorter| && LeavesBehind(Run(START, shorter[..j], capacity).view, shorter[j], slot, e, capacity);
        assert shorter[..j] == ops[..j] && shorter[j] == ops[j];
      }
    }
  }

  /** A slot that is dead after a call and not null was so before, or held a record the call left behind. */
  lemma {:induction false} StepDeadSlot(h: History, op: Op, slot: nat, capacity: nat)
    requires WellFormed(h.view, capacity) && Holds(h.file, h.view, capacity)
    requires WellFormed(Step(h, op, capacity).view, capacity)
    requires Step(h, op, capacity).file.Some? && slot < |Step(h, op, capacity).file.value|
    requires !LiveSlot(Step(h, op, capacity).view, slot, capacity)
    ensures var e := Step(h, op, capacity).file.value[slot];
            || e == NULL_ELEMENT
            || (&& h.file.Some? && slot < |h.file.value| && h.file.value[slot] == e
                && (!LiveSlot(h.view, slot, capacity) || LeavesBehind(h.view, op, slot, e, capacity)))
  {
    match op
    case Append(e) =>
      StoredDeadSlot(h.view, h.file, e, slot, capacity);
    case DeleteUpTo(time) =>
      DeleteCodeIs(h.view, time, capacity);
      if DeleteCode(h.view, time) != 0 {
        RefusedDeleteIs(h.view, h.file, time, capacity);
      } else if time >= NewestTime(h.view.log) {
        EmptiedDeadSlot(h.view, h.file, time, slot, capacity);
      } else {
        DeletedDeadSlot(h.view, h.file, time, slot, capacity);
      }
    case Read(_, _, _) =>
    case Restart =>
  }

  lemma {:induction false} StoredDeadSlot(v: View, file: Option<seq<Record>>, e: Record, slot: nat, capacity: nat)
    requires WellFormed(v, capacity) && Holds(file, v, capacity)
    requires var v', file' := Stored(v, e, capacity), FileStored(file, v, e, capacity);
             |v'.log| <= capacity && file'.Some? && slot < |file'.value| && !LiveSlot(v', slot, capacity)
    ensures var e := FileStored(file, v, e, capacity).value[slot];
            || e == NULL_ELEMENT
            || (file.Some? && slot < |file.value| && file.value[slot] == e && !LiveSlot(v, slot, capacity))
  {
    hide FileStored, Sorted, Holds;
    StoreIs(v, e, capacity);
    StoreWrites(v, file, e, capacity);
    if StoreCode(v, e, capacity) == 0 {
      AtIs(v.oldest, |v.log|, capacity);
      assert At(v.oldest, |v.log|, capacity) != slot;
    }
  }

  lemma {:induction false} DeletedDeadSlot(v: View, file: Option<seq<Record>>, time: int, slot: nat, capacity: nat)
    requires WellFormed(v, capacity) && Holds(file, v, capacity) && v.log != [] && time < NewestTime(v.log)
    requires WellFormed(Deleted(v, time, capacity), capacity)
    requires var file' := FileDeleted(file, v, time, capacity);
             file'.Some? && slot < |file'.value| && !LiveSlot(Deleted(v, time, capacity), slot, capacity)
    ensures var e := FileDeleted(file, v, time, capacity).value[slot];
            || e == NULL_ELEMENT
            || (file.Some? && slot < |file.value| && file.value[slot] == e && !LiveSlot(v, slot, capacity))
  {
    hide FileDeleted, Sorted, Holds;
    var v' := Deleted(v, time, capacity);
    DeleteErases(v, file, time, capacity);
    var taken := |v.log| - |v'.log|;
    forall k: nat | taken <= k < |v.log|
      ensures At(v'.oldest, k - taken, capacity) == At(v.oldest, k, capacity)
    {
    }
  }

  lemma {:induction false} EmptiedDeadSlot(v: View, file: Option<seq<Record>>, time: u32, slot: nat, capacity: nat)
    requires WellFormed(v, capacity) && Holds(file, v, capacity) && file.Some? && time >= NewestTime(v.log)
    requires var file' := FileDeleted(file, v, time, capacity); file'.Some? && slot < |file'.value|
    ensures var e := FileDeleted(file, v, time, capacity).value[slot];
            || e == NULL_ELEMENT
            || (&& slot < |file.value| && file.value[slot] == e
                && (!LiveSlot(v, slot, capacity) || LeavesBehind(v, DeleteUpTo(time), slot, e, capacity)))
  {
    hide FileDeleted, Sorted;
    EmptyingWrites(v, file, time, capacity);
    if k: nat :| k < |v.log| && At(v.oldest, k, capacity) == slot {
      assert file.value[slot] == v.log[k];
    }
  }

  // ------------------------------------------------- deleting until it holds

  /** The log as it should be: a store appends in time order while there is room, a delete leaves the newer records. */
  ghost function Ideal(log: seq<Record>, op: Op, capacity: nat): seq<Record> {
    match op
    case Append(e) => if |log| < capacity && (log == [] || e.time >= NewestTime(log)) then log + [e] else log
    case DeleteUpTo(time) => NewerThan(log, time)
    case Read(_, _, _) => log
    case Restart => log
  }

  ghost function IdealRun(log: seq<Record>, ops: seq<Op>, capacity: nat): seq<Record>
    decreases |ops|
  {
    if ops == [] then log else IdealRun(Ideal(log, ops[0], capacity), ops[1..], capacity)
  }

  /** The run with every delete issued twice. */
  function Doubled(ops: seq<Op>): seq<Op> {
    if ops == [] then []
    else (if ops[0].DeleteUpTo? then [ops[0], ops[0]] else [ops[0]]) + Doubled(ops[1..])
  }

  /** What a call does to the log when a delete is issued twice. */
  lemma {:induction false} StepTwice(h: History, op: Op, capacity: nat)
    requires WellFormed(h.view, capacity)
    ensures var once := Step(h, op, capacity);
            && WellFormed(once.view, capacity)
            && var after := if op.DeleteUpTo? then Step(once, op, capacity) else once;
               WellFormed(after.view, capacity) && after.view.log == Ideal(h.view.log, op, capacity)
  {
    hide Sorted, Within, Deleted;
    StepKeepsWellFormed(h, op, capacity);
    if op.DeleteUpTo? {
      StepKeepsWellFormed(Step(h, op, capacity), op, capacity);
      DeleteTwice(h.view, op.time, capacity);
    }
  }

  /** A run in which every delete is issued twice leaves exactly the log it should. */
  lemma {:induction false} DoubledIsIdeal(h: History, ops: seq<Op>, capacity: nat)
    requires WellFormed(h.view, capacity)
    ensures Run(h, Doubled(ops), capacity).view.log == IdealRun(h.view.log, ops, capacity)
    decreases |ops|
  {
    hide Step, Ideal, WellFormed;
    if ops != [] {
      var op, rest := ops[0], Doubled(ops[1..]);
      var once := Step(h, op, capacity);
      StepTwice(h, op, capacity);
      if op.DeleteUpTo? {
        assert Doubled(ops)[0] == op && Doubled(ops)[1..] == [op] + rest;
        assert ([op] + rest)[0] == op && ([op] + rest)[1..] == rest;
        assert Run(h, Doubled(ops), capacity) == Run(once, [op] + rest, capacity);
        DoubledIsIdeal(Step(once, op, capacity), ops[1..], capacity);
      } else {
        assert Doubled(ops)[0] == op && Doubled(ops)[1..] == rest;
        DoubledIsIdeal(once, ops[1..], capacity);
      }
    }
  }

  lemma {:induction false} DoubledStorable(ops: seq<Op>)
    requires Storable(ops)
    ensures Storable(Doubled(ops))
  {
    if ops != [] {
      DoubledStorable(ops[1..]);
    }
  }

  /** The same of the store itself, power cycles included. */
  method ExecuteDoubled(store: PacketStore.Store, ops: seq<Op>) returns (s: PacketStore.Store, results: seq<Outcome>)
    requires store.Valid() && Storable(ops)
    modifies store
    ensures s.Valid() && s.capacity == store.capacity
    ensures s.view.log == IdealRun(old(store.view.log), ops, s.capacity)
  {
    ghost var start := History(store.view, store.file, [], [], []);
    DoubledStorable(ops);
    s, results := Execute(store, Doubled(ops));
    RestartsAreInvisible(start, Doubled(ops), s.capacity);
    DoubledIsIdeal(start, ops, s.capacity);
  }

  // ------------------------------------------------------- reachable states

  ghost predicate Reachable(v: View, capacity: nat)
    requires 1 <= capacity < 0x1_0000_0000
  {
    exists ops :: Storable(ops) && Run(START, ops, capacity).view == v
  }

  /** A log that does not start at the head has been through a delete, so its times are past 0. */
  ghost predicate ReachableForm(v: View, capacity: nat) {
    && WellFormed(v, capacity)
    && (forall k :: 0 <= k < |v.log| ==> |v.log[k].data| == TM_LENGTH)
    && (v.oldest > 0 ==> v.log[0].time > 0)
  }

  function Appends(records: seq<Record>): (ops: seq<Op>)
    ensures |ops| == |records|
    ensures forall i :: 0 <= i < |ops| ==> ops[i] == Append(records[i])
  {
    seq(|records|, i requires 0 <= i < |records| => Append(records[i]))
  }

  lemma {:induction false} RunConcat(h: History, a: seq<Op>, b: seq<Op>, capacity: nat)
    requires WellFormed(h.view, capacity)
    ensures Run(h, a + b, capacity) == Run(Run(h, a, capacity), b, capacity)
    decreases |a|
  {
    hide Step;
    if a == [] {
      assert a + b == b;
    } else {
      assert (a + b)[0] == a[0] && (a + b)[1..] == a[1..] + b;
      StepKeepsWellFormed(h, a[0], capacity);
      RunConcat(Step(h, a[0], capacity), a[1..], b, capacity);
    }
  }

  /** A record no older than the newest is stored while there is room. */
  lemma {:induction false} StepAppends(h: History, e: Record, capacity: nat)
    requires WellFormed(h.view, capacity) && |h.view.log| < capacity && Sorted(h.view.log + [e])
    ensures Step(h, Append(e), capacity).view == View(h.view.oldest, h.view.log + [e], true)
  {
    var log := h.view.log;
    assert log != [] ==> (log + [e])[|log| - 1] == log[|log| - 1] && (log + [e])[|log|] == e;
  }

  /** Records in time order are all stored while there is room. */
  lemma {:induction false} RunAppends(h: History, records: seq<Record>, capacity: nat)
    requires WellFormed(h.view, capacity) && |h.view.log| + |records| <= capacity && Sorted(h.view.log + records)
    ensures Run(h, Appends(records), capacity).view
         == View(h.view.oldest, h.view.log + records, h.view.onDisk || records != [])
    decreases |records|
  {
    hide Step;
    var log, ops := h.view.log, Appends(records);
    if records == [] {
      assert log + records == log;
    } else {
      var more := log + [records[0]];
      assert log + records == more + records[1..];
      assert forall k :: 0 <= k < |more| ==> more[k] == (log + records)[k];
      assert ops[0] == Append(records[0]) && ops[1..] == Appends(records[1..]);
      StepAppends(h, records[0], capacity);
      StepKeepsWellFormed(h, ops[0], capacity);
      RunAppends(Step(h, ops[0], capacity), records[1..], capacity);
    }
  }

  /** A partial delete leaves a record newer than its time first, or one behind a log that started past the head. */
  lemma {:induction false} DeleteKeepsForm(v: View, time: u32, capacity: nat)
    requires ReachableForm(v, capacity)
    ensures ReachableForm(Deleted(v, time, capacity), capacity)
  {
    hide Sorted, Deleted;
    DeleteDropsPrefix(v, time, capacity);
    DeletedStart(v, time, capacity);
    var v' := Deleted(v, time, capacity);
    var c := |v.log| - |v'.log|;
    assert forall k :: 0 <= k < |v'.log| ==> v'.log[k] == v.log[c + k];
  }

  lemma {:induction false} DeletedStart(v: View, time: u32, capacity: nat)
    requires ReachableForm(v, capacity)
    ensures var v' := Deleted(v, time, capacity); v'.oldest > 0 ==> v'.log != [] && v'.log[0].time > 0
  {
    hide Sorted, Taken, At;
    var m := LastUpTo(v.log, time);
    if v.log != [] && time < NewestTime(v.log) && m > 0 {
      assert m < |v.log|;
      TakenIs(v, m, capacity);
      FirstAfterDelete(v, time, Taken(v, m, capacity), capacity);
    }
  }

  lemma TakenIs(v: View, m: nat, capacity: nat)
    requires 1 <= m < |v.log|
    ensures Taken(v, m, capacity) < |v.log|
  {
  }

  lemma {:induction false} FirstAfterDelete(v: View, time: u32, c: nat, capacity: nat)
    requires ReachableForm(v, capacity) && 0 < LastUpTo(v.log, time) < |v.log|
    requires c == Taken(v, LastUpTo(v.log, time), capacity)
    ensures v.log[c].time > 0
  {
    if c != LastUpTo(v.log, time) {
      assert v.oldest > 0 && v.log[0].time <= v.log[c].time;
    }
  }

  lemma {:induction false} AppendKeepsForm(v: View, e: Record, capacity: nat)
    requires ReachableForm(v, capacity) && |e.data| == TM_LENGTH
    ensures ReachableForm(Stored(v, e, capacity), capacity)
  {
  }

  lemma {:induction false} StepKeepsForm(h: History, op: Op, capacity: nat)
    requires ReachableForm(h.view, capacity) && (op.Append? ==> |op.e.data| == TM_LENGTH)
    ensures ReachableForm(Step(h, op, capacity).view, capacity)
  {
    assert WellFormed(h.view, capacity);
    hide ReachableForm, WellFormed, Deleted, Stored, FileStored, FileDeleted, ReadBetween;
    match op
    case Append(e) =>
      AppendKeepsForm(h.view, e, capacity);
    case DeleteUpTo(time) =>
      DeleteKeepsForm(h.view, time, capacity);
    case Read(start, end, max) =>
    case Restart =>
  }

  lemma {:induction false} RunKeepsForm(h: History, ops: seq<Op>, capacity: nat)
    requires ReachableForm(h.view, capacity) && Storable(ops)
    ensures ReachableForm(Run(h, ops, capacity).view, capacity)
    decreases |ops|
  {
    if ops != [] {
      StepKeepsForm(h, ops[0], capacity);
      RunKeepsForm(Step(h, ops[0], capacity), ops[1..], capacity);
    }
  }

  /** A run that ends with a delete leaves what that delete leaves. */
  lemma {:induction false} RunThenDelete(ops: seq<Op>, time: u32, capacity: nat)
    requires 1 <= capacity < 0x1_0000_0000
    ensures Run(START, ops + [DeleteUpTo(time)], capacity).view
         == Deleted(Run(START, ops, capacity).view, time, capacity)
  {
    RunConcat(START, ops, [DeleteUpTo(time)], capacity);
    var h := Run(START, ops, capacity);
    StepKeepsWellFormed(h, DeleteUpTo(time), capacity);
    assert [DeleteUpTo(time)][0] == DeleteUpTo(time) && [DeleteUpTo(time)][1..] == [];
  }

  /** Deleting time-0 records at the head of the ring moves the start of the log behind them. */
  lemma {:induction false} DeleteBlanks(n: nat, first: Record, capacity: nat)
    requires 0 < n < capacity && first.time > 0
    ensures Deleted(View(0, Copies(NULL_ELEMENT, n) + [first], true), 0, capacity) == View(n, [first], true)
  {
    var log := Copies(NULL_ELEMENT, n) + [first];
    assert log[n] == first && log[n - 1].time == 0;
    assert LastUpTo(log, 0) == n;
    assert log[n..] == [first];
  }

  lemma StartIsWellFormed(capacity: nat)
    requires 1 <= capacity < 0x1_0000_0000
    ensures WellFormed(START.view, capacity)
  {
  }

  lemma BlanksSorted(n: nat, first: Record)
    ensures Sorted(Copies(NULL_ELEMENT, n) + [first])
  {
  }

  /** Filling the first slots with time-0 records and deleting them moves the start of the log anywhere. */
  lemma {:induction false} RunMovesStart(oldest: nat, first: Record, capacity: nat)
    requires 0 < oldest < capacity < 0x1_0000_0000 && first.time > 0
    ensures var ops := Appends(Copies(NULL_ELEMENT, oldest) + [first]) + [DeleteUpTo(0)];
            Run(START, ops, capacity).view == View(oldest, [first], true)
  {
    hide Run, Deleted, Sorted, Copies, Appends;
    var log := Copies(NULL_ELEMENT, oldest) + [first];
    BlanksSorted(oldest, first);
    StartIsWellFormed(capacity);
    assert START.view.log + log == log;
    RunAppends(START, log, capacity);
    RunThenDelete(Appends(log), 0, capacity);
    DeleteBlanks(oldest, first, capacity);
  }

  /** A run of the store that reaches a view of that form. */
  ghost function RunTo(v: View, capacity: nat): seq<Op>
    requires ReachableForm(v, capacity)
  {
    if v.log == [] then
      if v.onDisk then Appends(Copies(NULL_ELEMENT, 1)) + [DeleteUpTo(0)] else []
    else if v.oldest == 0 then Appends(v.log)
    else Appends(Copies(NULL_ELEMENT, v.oldest) + [v.log[0]]) + [DeleteUpTo(0)] + Appends(v.log[1..])
  }

  lemma {:induction false} RunToReaches(v: View, capacity: nat)
    requires ReachableForm(v, capacity)
    ensures Run(START, RunTo(v, capacity), capacity).view == v
  {
    hide Run, Sorted;
    if v.log == [] {
      if v.onDisk {
        RunEmpties(capacity);
      } else {
        RunNothing(capacity);
      }
    } else if v.oldest == 0 {
      StartIsWellFormed(capacity);
      assert START.view.log + v.log == v.log;
      RunAppends(START, v.log, capacity);
    } else {
      RunStartsAt(v, capacity);
    }
  }

  lemma RunToStorable(v: View, capacity: nat)
    requires ReachableForm(v, capacity)
    ensures Storable(RunTo(v, capacity))
  {
  }

  lemma RunNothing(capacity: nat)
    requires 1 <= capacity < 0x1_0000_0000
    ensures Run(START, [], capacity) == START
  {
  }

  lemma {:induction false} RunEmpties(capacity: nat)
    requires 1 <= capacity < 0x1_0000_0000
    ensures Run(START, Appends(Copies(NULL_ELEMENT, 1)) + [DeleteUpTo(0)], capacity).view == View(0, [], true)
  {
    hide Run;
    assert START.view.log + Copies(NULL_ELEMENT, 1) == Copies(NULL_ELEMENT, 1);
    RunAppends(START, Copies(NULL_ELEMENT, 1), capacity);
    RunThenDelete(Appends(Copies(NULL_ELEMENT, 1)), 0, capacity);
  }

  lemma {:induction false} RunStartsAt(v: View, capacity: nat)
    requires ReachableForm(v, capacity) && v.oldest > 0 && v.log != []
    ensures var moved := Appends(Copies(NULL_ELEMENT, v.oldest) + [v.log[0]]) + [DeleteUpTo(0)];
            Run(START, moved + Appends(v.log[1..]), capacity).view == v
  {
    hide Run;
    var moved := Appends(Copies(NULL_ELEMENT, v.oldest) + [v.log[0]]) + [DeleteUpTo(0)];
    RunMovesStart(v.oldest, v.log[0], capacity);
    RunConcat(START, moved, Appends(v.log[1..]), capacity);
    assert [v.log[0]] + v.log[1..] == v.log;
    RunAppends(Run(START, moved, capacity), v.log[1..], capacity);
  }

  /** The reachable states of the store, exactly. */
  lemma {:induction false} ReachableExactly(v: View, capacity: nat)
    requires 1 <= capacity < 0x1_0000_0000
    ensures Reachable(v, capacity) <==> ReachableForm(v, capacity)
  {
    if Reachable(v, capacity) {
      var ops :| Storable(ops) && Run(START, ops, capacity).view == v;
      RunKeepsForm(START, ops, capacity);
    }
    if ReachableForm(v, capacity) {
      RunToReaches(v, capacity);
      RunToStorable(v, capacity);
    }
  }

  // ------------------------------------------------ where the store falls short

  function Sample(time: u32): Record {
    NULL_ELEMENT.(time := time)
  }

  /** Three records in a ring of 3 that starts at its last slot. */
  const ACROSS: View := View(2, [Sample(1), Sample(2), Sample(3)], true)

  lemma AcrossIsReachable()
    ensures Reachable(ACROSS, 3)
    ensures LastUpTo(ACROSS.log, 2) == 2 && FirstAtLeast(ACROSS.log, 1) == 0 && FirstAtLeast(ACROSS.log, 2) == 1
  {
    var log := ACROSS.log;
    assert log[0].time == 1 && log[1].time == 2 && log[2].time == 3;
    ReachableExactly(ACROSS, 3);
  }

  /** Two windows of that ring: what they hold, and that neither is read exactly. */
  lemma AcrossWindows()
    ensures WellFormed(ACROSS, 3)
    ensures Within(ACROSS.log, 2, 2) == [Sample(2)] && Within(ACROSS.log, 1, 2) == [Sample(1), Sample(2)]
    ensures !PacketStoreReads.WholeLog(ACROSS, 2, 2) && !PacketStoreReads.WholeLog(ACROSS, 1, 2)
    ensures !PacketStoreReads.LastMatchAhead(ACROSS, 2, 3) && FirstAtLeast(ACROSS.log, 1) == 0
  {
    hide Within;
    AcrossIsReachable();
    WithinIsSlice(ACROSS.log, 1, 2);
    WithinIsSlice(ACROSS.log, 2, 2);
  }

  /** A delete up to 2 leaves the record of time 2. */
  lemma DeleteFallsShort()
    ensures Reachable(ACROSS, 3)
    ensures Deleted(ACROSS, 2, 3).log == [Sample(2), Sample(3)]
  {
    AcrossIsReachable();
  }

  /** A read of the one record of time 2 is refused, in whatever run the state arises. */
  lemma ReadFallsShort(ops: seq<Op>, buffer: seq<Record>)
    requires Run(START, ops, 3).view == ACROSS && |buffer| == 3
    ensures Reachable(ACROSS, 3) && Within(ACROSS.log, 2, 2) == [Sample(2)]
    ensures ReadBetween(ACROSS, Run(START, ops, 3).file, 3, 2, 2, 3, 0, buffer).ret == -1
  {
    hide Run, ReadBetween, Within, Sorted, Holds, PacketStoreReads.WholeLog, PacketStoreReads.LastMatchAhead;
    AcrossIsReachable();
    AcrossWindows();
    StartIsWellFormed(3);
    FileHolds(ops, 3);
    PacketStoreReads.ReadExact(ACROSS, Run(START, ops, 3).file, 3, 2, 2, 3, 0, buffer);
  }

  /** Two records match, there is room for one, and the read reports success with the first. */
  lemma ReadAcceptsShortBuffer(ops: seq<Op>, buffer: seq<Record>)
    requires Run(START, ops, 3).view == ACROSS && |buffer| == 1
    ensures Reachable(ACROSS, 3) && Within(ACROSS.log, 1, 2) == [Sample(1), Sample(2)]
    ensures ReadBetween(ACROSS, Run(START, ops, 3).file, 3, 1, 2, 1, 0, buffer) == Outcome(0, 1, [Sample(1)])
  {
    hide Run, ReadBetween, Within, Sorted, Holds, PacketStoreReads.WholeLog, PacketStoreReads.LastMatchAhead;
    AcrossIsReachable();
    AcrossWindows();
    StartIsWellFormed(3);
    FileHolds(ops, 3);
    PacketStoreReads.ReadDropsNewest(ACROSS, Run(START, ops, 3).file, 3, 1, 2, 1, 0, buffer);
    assert [Sample(1), Sample(2)][..1] == [Sample(1)] && buffer[1..] == [];
  }

  /** Four records in a ring of 4 that starts at its last slot. */
  const FULL: View := View(3, [Sample(1), Sample(2), Sample(3), Sample(4)], true)

  /** Emptying that ring leaves the three records past the tail on the card. */
  lemma DeleteAllFallsShort(ops: seq<Op>)
    requires Run(START, ops, 4).view == FULL
    ensures Reachable(FULL, 4) && Deleted(FULL, 4, 4) == View(0, [], true)
    ensures var after := FileDeleted(Run(START, ops, 4).file, FULL, 4, 4);
            after.Some? && after.value[..3] == [Sample(2), Sample(3), Sample(4)]
  {
    hide Run;
    FullIsReachable();
    FileHolds(ops, 4);
    DeleteAllErases(FULL, Run(START, ops, 4).file, 4, 4);
    assert FULL.log[1] == Sample(2) && FULL.log[2] == Sample(3) && FULL.log[3] == Sample(4);
    var after := FileDeleted(Run(START, ops, 4).file, FULL, 4, 4).value;
    assert after[At(3, 1, 4)] == Sample(2) && after[At(3, 2, 4)] == Sample(3) && after[At(3, 3, 4)] == Sample(4);
  }

  lemma FullIsReachable()
    ensures Reachable(FULL, 4)
  {
    var log := FULL.log;
    assert log[0].time == 1 && log[1].time == 2 && log[2].time == 3 && log[3].time == 4;
    ReachableExactly(FULL, 4);
  }

  /** Two records are stored after that, and a read of the gap between them hands back one that was deleted. */
  lemma {:induction false} ReadReturnsDeleted(ops: seq<Op>, buffer: seq<Record>)
    requires Run(START, ops, 4).view == FULL && |buffer| == 4
    ensures var more := [DeleteUpTo(4), Append(Sample(5)), Append(Sample(7))];
            var r := Run(Run(START, ops, 4), more, 4);
            && r.view == View(0, [Sample(5), Sample(7)], true) && Within(r.view.log, 6, 6) == []
            && ReadBetween(r.view, r.file, 4, 6, 6, 4, 0, buffer)
               == Outcome(0, 3, [Sample(7), Sample(4), NULL_ELEMENT, buffer[3]])
  {
    hide Run, ReadBetween, Step;
    var h := Run(START, ops, 4);
    var emptied := Step(h, DeleteUpTo(4), 4);
    FileHolds(ops, 4);
    StepEmpties(h);
    var stored := Step(emptied, Append(Sample(5)), 4);
    StepKeepsHolds(h, DeleteUpTo(4), 4);
    StepAppends(emptied, Sample(5), 4);
    StepFile(emptied, Sample(5));
    StepKeepsHolds(emptied, Append(Sample(5)), 4);
    TwoSorted();
    StepAppends(stored, Sample(7), 4);
    StepFile(stored, Sample(7));
    StepKeepsHolds(stored, Append(Sample(7)), 4);
    RunThree(h, DeleteUpTo(4), Append(Sample(5)), Append(Sample(7)), 4);
    ReadOfGap(Step(stored, Append(Sample(7)), 4).file, buffer);
  }

  lemma TwoSorted()
    ensures Sorted([Sample(5)] + [Sample(7)]) && [Sample(5)] + [Sample(7)] == [Sample(5), Sample(7)]
    ensures Sorted([] + [Sample(5)]) && [] + [Sample(5)] == [Sample(5)]
  {
  }

  lemma {:induction false} StepEmpties(h: History)
    requires h.view == FULL && WellFormed(FULL, 4) && Holds(h.file, FULL, 4)
    ensures var r := Step(h, DeleteUpTo(4), 4);
            && r.view == View(0, [], true)
            && r.file.Some? && |r.file.value| >= 4 && r.file.value[2] == Sample(4) && r.file.value[3] == NULL_ELEMENT
  {
    DeleteAllErases(FULL, h.file, 4, 4);
    assert FULL.log[3] == Sample(4);
    var after := FileDeleted(h.file, FULL, 4, 4).value;
    assert after[At(3, 0, 4)] == NULL_ELEMENT && after[At(3, 3, 4)] == Sample(4);
  }

  /** Storing in one of the first two slots leaves the next two as they were. */
  lemma {:induction false} StepFile(h: History, e: Record)
    requires WellFormed(h.view, 4) && h.view.oldest == 0 && |h.view.log| < 2 && h.file.Some? && |h.file.value| >= 4
    ensures var r := Step(h, Append(e), 4);
            r.file.Some? && |r.file.value| >= 4 && r.file.value[2..4] == h.file.value[2..4]
  {
    hide Sorted;
  }

  lemma {:induction false} RunThree(h: History, a: Op, b: Op, c: Op, capacity: nat)
    requires WellFormed(h.view, capacity)
    ensures WellFormed(Step(h, a, capacity).view, capacity)
    ensures WellFormed(Step(Step(h, a, capacity), b, capacity).view, capacity)
    ensures Run(h, [a, b, c], capacity) == Step(Step(Step(h, a, capacity), b, capacity), c, capacity)
  {
    hide Step;
    StepKeepsWellFormed(h, a, capacity);
    var h1 := Step(h, a, capacity);
    StepKeepsWellFormed(h1, b, capacity);
    var h2 := Step(h1, b, capacity);
    StepKeepsWellFormed(h2, c, capacity);
    assert [a, b, c][1..] == [b, c] && [b, c][1..] == [c] && [c][1..] == [];
    assert Run(h2, [c], capacity) == Step(h2, c, capacity);
    assert Run(h1, [b, c], capacity) == Run(h2, [c], capacity);
  }

  lemma {:induction false} ReadOfGap(file: Option<seq<Record>>, buffer: seq<Record>)
    requires var v := View(0, [Sample(5), Sample(7)], true); WellFormed(v, 4) && Holds(file, v, 4)
    requires file.Some? && |file.value| >= 4 && file.value[2] == Sample(4) && file.value[3] == NULL_ELEMENT
    requires |buffer| == 4
    ensures var v := View(0, [Sample(5), Sample(7)], true);
            && Within(v.log, 6, 6) == []
            && ReadBetween(v, file, 4, 6, 6, 4, 0, buffer)
               == Outcome(0, 3, [Sample(7), Sample(4), NULL_ELEMENT, buffer[3]])
  {
    hide ReadBetween, Holds, Within;
    var v := View(0, [Sample(5), Sample(7)], true);
    assert v.log[0].time == 5 && v.log[1].time == 7;
    PacketStoreReads.GapIsEmpty(v, 6, 6);
    PacketStoreReads.ReadGap(v, file, 4, 6, 6, 4, 0, buffer);
    var r := ReadBetween(v, file, 4, 6, 6, 4, 0, buffer);
    assert r.buffer == r.buffer[..3] + r.buffer[3..];
  }
}
