/** What one and two deletes of the packet store do, in every state. */
module PacketStoreDeletes {
  import opened Wrappers
  import opened Cyclic
  import opened TimeLog
  import opened PacketStoreModel

  /** A delete only ever drops a prefix, and only records no newer than `time`. */
  lemma {:induction false} DeleteDropsPrefix(v: View, time: int, capacity: nat)
    requires WellFormed(v, capacity)
    ensures WellFormed(Deleted(v, time, capacity), capacity)
    ensures var c := |v.log| - |Deleted(v, time, capacity).log|;
            && 0 <= c <= |v.log|
            && Deleted(v, time, capacity).log == v.log[c..]
            && forall k :: 0 <= k < c ==> v.log[k].time <= time
  {
    SortedSplits(v.log, time, time);
  }

  /**
   Exact effect of one delete below the newest time: everything up to `time`
   goes unless those records cross the tail, and then all but the newest of them.
  */
  lemma {:induction false} DeleteExact(v: View, time: int, capacity: nat)
    requires WellFormed(v, capacity) && v.log != [] && time < NewestTime(v.log)
    ensures var m := LastUpTo(v.log, time);
            var after := Deleted(v, time, capacity).log;
            && (after == NewerThan(v.log, time) <==> m == 0 || v.oldest + m - 1 < capacity)
            && (m > 0 && v.oldest + m - 1 >= capacity ==> after == [v.log[m - 1]] + NewerThan(v.log, time))
  {
    hide Within, Sorted;
    NewerIsSuffix(v.log, time);
    var m := LastUpTo(v.log, time);
    assert m > 0 ==> v.log[m - 1..] == [v.log[m - 1]] + v.log[m..];
  }

  /** Two deletes with the same time leave exactly the records newer than it, in every layout. */
  lemma {:induction false} DeleteTwice(v: View, time: int, capacity: nat)
    requires WellFormed(v, capacity)
    ensures WellFormed(Deleted(v, time, capacity), capacity)
    ensures Deleted(Deleted(v, time, capacity), time, capacity).log == NewerThan(v.log, time)
  {
    hide Within, Deleted, Sorted, IsLastUpTo;
    DeleteDropsPrefix(v, time, capacity);
    var once := Deleted(v, time, capacity);
    if v.log != [] && time < NewestTime(v.log) {
      DeleteLeaves(v, time, capacity);
      DeleteExact(once, time, capacity);
    } else {
      DeleteEmpties(v, time, capacity);
      DeleteDropsPrefix(once, time, capacity);
    }
  }

  /** From the newest time on a delete leaves nothing, and there is nothing newer to leave. */
  lemma {:induction false} DeleteEmpties(v: View, time: int, capacity: nat)
    requires WellFormed(v, capacity) && (v.log == [] || time >= NewestTime(v.log))
    ensures Deleted(v, time, capacity).log == [] && NewerThan(v.log, time) == []
  {
    hide Within;
    NewerIsSuffix(v.log, time);
    SortedSplits(v.log, time, time);
    assert v.log != [] ==> LastUpTo(v.log, time) == |v.log|;
  }

  /** After a delete below the newest time what is left to delete no longer crosses the tail. */
  lemma {:induction false} DeleteLeaves(v: View, time: int, capacity: nat)
    requires WellFormed(v, capacity) && v.log != [] && time < NewestTime(v.log)
    ensures var once := Deleted(v, time, capacity);
            var m := LastUpTo(once.log, time);
            && WellFormed(once, capacity)
            && once.log != [] && NewestTime(once.log) == NewestTime(v.log)
            && (m == 0 || once.oldest + m - 1 < capacity)
            && NewerThan(once.log, time) == NewerThan(v.log, time)
  {
    DeleteDropsPrefix(v, time, capacity);
    var m := LastUpTo(v.log, time);
    if m > 0 {
      SuffixAfter(v.log, Taken(v, m, capacity), time);
    }
  }

  /**
   What emptying the store leaves on the card: nulls in the slots up to the tail,
   and every record whose slot lies past the tail as it was. So the records are
   erased if and only if those were null already.
  */
  lemma {:induction false} DeleteAllErases(v: View, file: Option<seq<Record>>, time: int, capacity: nat)
    requires WellFormed(v, capacity) && Holds(file, v, capacity) && v.log != [] && time >= NewestTime(v.log)
    ensures FileDeleted(file, v, time, capacity).Some?
    ensures var after := FileDeleted(file, v, time, capacity).value;
            && (forall k: nat :: k < |v.log| ==>
                  && At(v.oldest, k, capacity) < |after|
                  && after[At(v.oldest, k, capacity)] == if v.oldest + k < capacity then NULL_ELEMENT else v.log[k])
            && ((forall k: nat :: k < |v.log| ==> after[At(v.oldest, k, capacity)] == NULL_ELEMENT) <==>
                (forall k: nat :: capacity - v.oldest <= k < |v.log| ==> v.log[k] == NULL_ELEMENT))
  {
    hide Sorted;
    var after := FileDeleted(file, v, time, capacity).value;
    forall k: nat | k < |v.log|
      ensures At(v.oldest, k, capacity) < |after|
      ensures after[At(v.oldest, k, capacity)] == if v.oldest + k < capacity then NULL_ELEMENT else v.log[k]
    {
      assert At(v.oldest, k, capacity) < |file.value|;
    }
  }
}
