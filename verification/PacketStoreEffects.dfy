/**
 What a store and a delete of the packet store do, in terms of the records, the
 times and the slots alone.
*/
module PacketStoreEffects {
  import opened Wrappers
  import opened Cyclic
  import opened TimeLog
  import opened PacketStoreModel

  /** Which store gets which code, and what becomes of the log. */
  lemma StoreIs(v: View, e: Record, capacity: nat)
    requires WellFormed(v, capacity)
    ensures StoreCode(v, e, capacity) == -1 <==> |v.log| == capacity
    ensures StoreCode(v, e, capacity) == -2 <==> 0 < |v.log| < capacity && e.time < v.log[|v.log| - 1].time
    ensures StoreCode(v, e, capacity) == 0
            <==> |v.log| < capacity && (v.log == [] || v.log[|v.log| - 1].time <= e.time)
    ensures Stored(v, e, capacity)
         == if StoreCode(v, e, capacity) == 0 then View(v.oldest, v.log + [e], true) else v
  {
  }

  /** An accepted record goes to the slot behind the newest, round the ring; nothing else on the card changes. */
  lemma StoreWrites(v: View, file: Option<seq<Record>>, e: Record, capacity: nat)
    requires WellFormed(v, capacity) && Holds(file, v, capacity)
    ensures StoreCode(v, e, capacity) != 0 ==> FileStored(file, v, e, capacity) == file
    ensures StoreCode(v, e, capacity) == 0 ==>
              var slot, before, after := (v.oldest + |v.log|) % capacity, file, FileStored(file, v, e, capacity);
              var size := if before.Some? then |before.value| else 0;
              && slot <= size && after.Some? && |after.value| == (if slot < size then size else size + 1)
              && after.value[slot] == e
              && (forall s :: 0 <= s < size && s != slot ==> after.value[s] == before.value[s])
  {
    AtIs(v.oldest, |v.log|, capacity);
    if v.log != [] {
      assert At(v.oldest, |v.log| - 1, capacity) < |file.value|;
    }
  }

  /** Which delete gets which code. */
  lemma {:induction false} DeleteCodeIs(v: View, time: int, capacity: nat)
    requires WellFormed(v, capacity) && time >= 0
    ensures DeleteCode(v, time) == 1 <==> !v.onDisk
    ensures DeleteCode(v, time) == 2 <==> v.log != [] && forall k :: 0 <= k < |v.log| ==> v.log[k].time > time
    ensures DeleteCode(v, time) in {0, 1, 2}
  {
    var m := LastUpTo(v.log, time);
    assert v.log != [] && time >= NewestTime(v.log) ==> v.log[|v.log| - 1].time <= time;
    assert m > 0 ==> v.log[m - 1].time <= time;
  }

  /** A delete that is refused touches nothing. */
  lemma {:induction false} RefusedDeleteIs(v: View, file: Option<seq<Record>>, time: int, capacity: nat)
    requires WellFormed(v, capacity) && Holds(file, v, capacity) && DeleteCode(v, time) != 0
    ensures Deleted(v, time, capacity) == v && FileDeleted(file, v, time, capacity) == file
  {
  }

  /** A delete below the newest time nulls the slots of the records it takes off, and no other. */
  lemma {:induction false} DeleteErases(v: View, file: Option<seq<Record>>, time: int, capacity: nat)
    requires WellFormed(v, capacity) && Holds(file, v, capacity) && v.log != [] && time < NewestTime(v.log)
    ensures var taken := |v.log| - |Deleted(v, time, capacity).log|;
            var after := FileDeleted(file, v, time, capacity);
            && 0 <= taken < |v.log| && file.Some? && after.Some? && |after.value| == |file.value|
            && (forall k: nat :: k < taken ==>
                  At(v.oldest, k, capacity) < |after.value| && after.value[At(v.oldest, k, capacity)] == NULL_ELEMENT)
            && (forall s: nat :: s < |after.value| && (forall k: nat :: k < taken ==> At(v.oldest, k, capacity) != s) ==>
                  after.value[s] == file.value[s])
  {
    hide Sorted, Overwritten;
    var m := LastUpTo(v.log, time);
    if m > 0 {
      assert m < |v.log|;
      OverwrittenSlots(file.value, v.oldest, Taken(v, m, capacity), capacity, NULL_ELEMENT);
    }
  }

  /** A delete from the newest time on nulls as many slots as there are records, straight on from the oldest, and no other. */
  lemma {:induction false} EmptyingWrites(v: View, file: Option<seq<Record>>, time: int, capacity: nat)
    requires WellFormed(v, capacity) && Holds(file, v, capacity) && file.Some? && time >= NewestTime(v.log)
    ensures Deleted(v, time, capacity) == View(0, [], true)
    ensures var end, size, after := v.oldest + |v.log|, |file.value|, FileDeleted(file, v, time, capacity);
            && after.Some? && |after.value| == (if v.log == [] || end <= size then size else end)
            && (forall s :: v.oldest <= s < end ==> after.value[s] == NULL_ELEMENT)
            && (forall s :: 0 <= s < |after.value| && !(v.oldest <= s < end) ==> s < size && after.value[s] == file.value[s])
  {
    hide Sorted;
    if v.log != [] {
      assert At(v.oldest, 0, capacity) == v.oldest;
      assert v.oldest < |file.value|;
    }
  }
}
