/** What the RAM storage promises, proved of its abstract machine. */
module RamStorageProperties {
  import opened Cyclic
  import opened TimeLog
  import opened RamStorageModel
  import opened Wrappers
  import RamStorage

  // ---------------------------------------------------------------- searches

  /** The start search misses only when no record is recent enough, sorted log or not. */
  lemma {:induction false} StartSearchMisses(log: seq<Record>, below: nat, time: int)
    requires below <= |log|
    ensures LatestStart(log, below, time) == -1 <==> forall j :: 0 <= j < below ==> log[j].time < time
  {
    if below > 0 {
      StartSearchMisses(log, below - 1, time);
      assert below > 1 && log[below - 2].time >= time ==> LatestStart(log, below - 1, time) != -1;
    }
  }

  /** On a sorted log the start search finds the first record with time >= `time`. */
  lemma {:induction false} StartSearchSorted(log: seq<Record>, time: int)
    requires Sorted(log)
    ensures LatestStart(log, |log|, time) == if FirstAtLeast(log, time) < |log| then FirstAtLeast(log, time) else -1
  {
    StartSearchMisses(log, |log|, time);
    SortedSplits(log, time, time);
    var i, k := FirstAtLeast(log, time), LatestStart(log, |log|, time);
    if i < |log| {
      assert log[i].time >= time;
      assert k > 0 ==> log[k - 1].time < time;
    }
  }

  /** On a sorted log the end search stops at the last record it may look at that is in the window. */
  lemma {:induction false} EndSearchSorted(log: seq<Record>, i: nat, k: nat, stop: nat, end: int)
    requires Sorted(log) && i <= k < stop <= |log|
    requires k < LastUpTo(log, end) || log[i].time > end
    ensures FirstEnd(log, k, stop, log[i].time, end)
         == if log[i].time > end then -1 else if LastUpTo(log, end) < stop then LastUpTo(log, end) - 1 else stop - 1
    decreases stop - k
  {
    SortedSplits(log, end, end);
    assert log[i].time <= log[k].time;
    hide Sorted, IsLastUpTo;
    if k + 1 < stop && (log[i].time > end || k + 1 < LastUpTo(log, end)) {
      EndSearchSorted(log, i, k + 1, stop, end);
    }
  }

  // ---------------------------------------------------------------- reading

  /** The record after the last one a read from the i-th record can return. */
  ghost function ReadStop(v: View, i: nat, end: int, capacity: nat): (stop: nat)
    requires WellFormed(v, capacity) && i < |v.log|
    ensures stop <= |v.log|
  {
    CountsInRange(v, i, |v.log| - 1, capacity);
    var m := LastUpTo(v.log, end);
    var limit := i + ReadableBetween(SlotOf(v, i, capacity), SlotOf(v, |v.log| - 1, capacity), capacity);
    if m < limit then m else limit
  }

  /** Where a read from the i-th record stops on a sorted log. */
  lemma {:induction false} EndSearchIs(v: View, i: nat, end: int, capacity: nat)
    requires WellFormed(v, capacity) && Sorted(v.log) && i < |v.log|
    ensures EndSearch(v, capacity, i, end)
         == if v.log[i].time > end || ReadStop(v, i, end, capacity) == i then -1 else ReadStop(v, i, end, capacity) - 1
    ensures v.log[i].time <= end ==> i <= ReadStop(v, i, end, capacity)
  {
    hide SlotOf, ReadableBetween, FirstEnd, Sorted;
    CountsInRange(v, i, |v.log| - 1, capacity);
    var limit := i + ReadableBetween(SlotOf(v, i, capacity), SlotOf(v, |v.log| - 1, capacity), capacity);
    SortedSplits(v.log, end, end);
    if i < limit {
      EndSearchSorted(v.log, i, i, limit, end);
    } else {
      assert FirstEnd(v.log, i, limit, v.log[i].time, end) == -1;
    }
  }

  /** What a read does on a sorted log, in terms of the two ends of the window. */
  lemma {:induction false} ReadSorted(v: View, capacity: nat, start: int, end: int,
                                      max: nat, number: int, buffer: seq<Record>)
    requires WellFormed(v, capacity) && Sorted(v.log) && max <= |buffer|
    ensures var i := FirstAtLeast(v.log, start);
            var r := ReadBetween(v, capacity, start, end, max, number, buffer);
            if i == |v.log| then r == Outcome(-1, number, buffer)
            else if v.log[i].time > end || ReadStop(v, i, end, capacity) == i then r == Outcome(-2, number, buffer)
            else
              var stop := ReadStop(v, i, end, capacity);
              && i < stop
              && var n := NumberBetween(SlotOf(v, i, capacity), SlotOf(v, stop - 1, capacity), capacity);
                 && 1 <= n <= stop - i
                 && r == if n > max then Outcome(-3, n, buffer) else Outcome(0, n, v.log[i..i + n] + buffer[n..])
  {
    hide SlotOf, NumberBetween, LatestStart, EndSearch, ReadStop, Sorted;
    var i := FirstAtLeast(v.log, start);
    StartSearchSorted(v.log, start);
    if i < |v.log| {
      var stop := ReadStop(v, i, end, capacity);
      EndSearchIs(v, i, end, capacity);
      if v.log[i].time <= end && i < stop {
        CountsInRange(v, i, stop - 1, capacity);
      }
    }
  }

  /**
   How many elements the end search looks at from the i-th record on: all up to
   the newest, unless their slots cross the tail, where it misses up to two; and
   fewer still when their bytes do not fit 32 bits.
  */
  function Looked(v: View, i: nat, capacity: nat): nat
    requires WellFormed(v, capacity) && i < |v.log|
  {
    var first, newest := SlotOf(v, i, capacity), SlotOf(v, |v.log| - 1, capacity);
    var missed := if first <= newest then 0
                  else (if first == capacity - 1 then 0 else 1) + (if newest == 0 then 0 else 1);
    if missed <= |v.log| - i then Narrowed(|v.log| - i - missed) else 0
  }

  /**
   The layouts in which both hand-written counts are right for the i-th to the
   m-th record: the search looks as far as the m-th record, and the slots of
   the window do not cross the tail, or start on it, or end on the head.
  */
  predicate Reaches(v: View, i: nat, m: nat, capacity: nat)
    requires WellFormed(v, capacity) && i < m <= |v.log|
  {
    var first, last := SlotOf(v, i, capacity), SlotOf(v, m - 1, capacity);
    m - i <= Looked(v, i, capacity) && (first <= last || first == capacity - 1 || last == 0)
  }

  /** How many of the records i..m a read hands over: those looked at, or one fewer. */
  function Delivered(v: View, i: nat, m: nat, capacity: nat): int
    requires WellFormed(v, capacity) && i < m <= |v.log|
  {
    var looked := Looked(v, i, capacity);
    var stop := if m - i <= looked then m else i + looked;
    if stop <= i then 0
    else
      var first, last := SlotOf(v, i, capacity), SlotOf(v, stop - 1, capacity);
      if first <= last || first == capacity - 1 || last == 0 then stop - i else stop - i - 1
  }

  /**
   Everything is handed over exactly in the layouts above, and nothing exactly
   when the search looks at nothing, which takes a ring of 2^32 bytes or more.
  */
  lemma {:induction false} DeliveredIsAll(v: View, i: nat, m: nat, capacity: nat)
    requires WellFormed(v, capacity) && i < m <= |v.log|
    ensures 0 <= Delivered(v, i, m, capacity) <= m - i
    ensures Delivered(v, i, m, capacity) == m - i <==> Reaches(v, i, m, capacity)
    ensures Delivered(v, i, m, capacity) == 0 <==> Looked(v, i, capacity) == 0
    ensures capacity * ELEMENT_SIZE < 0x1_0000_0000 ==> Looked(v, i, capacity) > 0
  {
    hide SlotOf, ReadableBetween, NumberBetween, Narrowed;
    LookedInRange(v, i, capacity);
    var looked := Looked(v, i, capacity);
    var stop := if m - i <= looked then m else i + looked;
    if i < stop {
      CountsInRange(v, i, stop - 1, capacity);
      NumberExact(v, i, stop, capacity);
    }
  }

  lemma {:induction false} LookedInRange(v: View, i: nat, capacity: nat)
    requires WellFormed(v, capacity) && i < |v.log|
    ensures Looked(v, i, capacity) <= |v.log| - i
    ensures capacity * ELEMENT_SIZE < 0x1_0000_0000 ==> Looked(v, i, capacity) > 0
  {
    hide Narrowed;
    assert |v.log| * ELEMENT_SIZE <= capacity * ELEMENT_SIZE;
  }

  /**
   Exactly what a read does when the window has a record: it hands over that
   many of its first records, or refuses when that many do not fit, or when
   there are none.
  */
  lemma {:induction false} ReadOutcome(v: View, capacity: nat, start: int, end: int,
                                       max: nat, number: int, buffer: seq<Record>)
    requires WellFormed(v, capacity) && Sorted(v.log) && max <= |buffer|
    requires Within(v.log, start, end) != []
    ensures FirstAtLeast(v.log, start) < LastUpTo(v.log, end)
    ensures var want := Within(v.log, start, end);
            var n := Delivered(v, FirstAtLeast(v.log, start), LastUpTo(v.log, end), capacity);
            && 0 <= n <= |want|
            && ReadBetween(v, capacity, start, end, max, number, buffer)
               == if n == 0 then Outcome(-2, number, buffer)
                  else if n > max then Outcome(-3, n, buffer)
                  else Outcome(0, n, want[..n] + buffer[n..])
  {
    hide SlotOf, NumberBetween, ReadableBetween, ReadBetween, Within, Sorted, Narrowed, Looked;
    var i, m := FirstAtLeast(v.log, start), LastUpTo(v.log, end);
    ReadSorted(v, capacity, start, end, max, number, buffer);
    WithinIsSlice(v.log, start, end);
    SortedSplits(v.log, start, end);
    ReadableExact(v, i, capacity);
    if i < ReadStop(v, i, end, capacity) {
      NumberExact(v, i, ReadStop(v, i, end, capacity), capacity);
    }
    DeliveredIsAll(v, i, m, capacity);
    PrefixOfSlice(v.log, i, m, Delivered(v, i, m, capacity));
  }

  /** So a read whose window fits is exact if and only if the layout is one of those. */
  lemma {:induction false} ReadExact(v: View, capacity: nat, start: int, end: int,
                                     max: nat, number: int, buffer: seq<Record>)
    requires WellFormed(v, capacity) && Sorted(v.log) && max <= |buffer|
    requires Within(v.log, start, end) != [] && |Within(v.log, start, end)| <= max
    ensures var i, m := FirstAtLeast(v.log, start), LastUpTo(v.log, end);
            && i < m
            && (Delivers(ReadBetween(v, capacity, start, end, max, number, buffer), Within(v.log, start, end), buffer)
                <==> Reaches(v, i, m, capacity))
  {
    hide SlotOf, ReadBetween, Within, Sorted, Delivered, Reaches;
    var want := Within(v.log, start, end);
    ReadOutcome(v, capacity, start, end, max, number, buffer);
    WithinIsSlice(v.log, start, end);
    DeliveredIsAll(v, FirstAtLeast(v.log, start), LastUpTo(v.log, end), capacity);
    assert want[..|want|] == want;
  }

  /**
   In every ring layout a successful read hands over a non-empty chronological
   prefix of the window and nothing else, and every refusal leaves the buffer
   alone: -1 exactly when no record has time >= start, -2 exactly when the
   first such record is later than end or the search looks at nothing, which
   takes a ring of 2^32 bytes, and -3 only when the buffer is too short for the
   window. In the layouts above -3 says exactly that; in the others a buffer
   that holds the records the read will hand over is accepted.
  */
  lemma {:induction false} ReadSound(v: View, capacity: nat, start: int, end: int,
                                     max: nat, number: int, buffer: seq<Record>)
    requires WellFormed(v, capacity) && Sorted(v.log) && max <= |buffer|
    ensures var want := Within(v.log, start, end);
            var i, m := FirstAtLeast(v.log, start), LastUpTo(v.log, end);
            var r := ReadBetween(v, capacity, start, end, max, number, buffer);
            && (r.ret == 0 ==> 1 <= r.number <= |want| && Delivers(r, want[..r.number], buffer))
            && (r.ret != 0 ==> r.ret in {-1, -2, -3} && r.buffer == buffer)
            && (r.ret == -1 <==> forall k :: 0 <= k < |v.log| ==> v.log[k].time < start)
            && (r.ret == -2 <==> r.ret != -1 && (want == [] || (i < |v.log| && Looked(v, i, capacity) == 0)))
            && (capacity * ELEMENT_SIZE < 0x1_0000_0000 ==> (r.ret == -2 <==> r.ret != -1 && want == []))
            && (r.ret == -3 ==> |want| > max && r.number > max)
            && (want != [] ==> i < m)
            && (want != [] && Reaches(v, i, m, capacity) ==> (r.ret == -3 <==> |want| > max))
            && (want != [] ==> (r.ret == -3 <==> Delivered(v, i, m, capacity) > max))
  {
    hide SlotOf, ReadBetween, Within, Sorted, Delivered, Reaches, Looked;
    var want := Within(v.log, start, end);
    var i := FirstAtLeast(v.log, start);
    SortedSplits(v.log, start, end);
    WithinIsSlice(v.log, start, end);
    if want == [] {
      ReadNothing(v, capacity, start, end, max, number, buffer);
    } else {
      ReadOutcome(v, capacity, start, end, max, number, buffer);
      DeliveredIsAll(v, i, LastUpTo(v.log, end), capacity);
    }
  }

  /** An empty window: nothing is recent enough, or the first that is lies past its end. */
  lemma {:induction false} ReadNothing(v: View, capacity: nat, start: int, end: int,
                                       max: nat, number: int, buffer: seq<Record>)
    requires WellFormed(v, capacity) && Sorted(v.log) && max <= |buffer|
    requires Within(v.log, start, end) == []
    ensures ReadBetween(v, capacity, start, end, max, number, buffer)
         == Outcome(if FirstAtLeast(v.log, start) == |v.log| then -1 else -2, number, buffer)
  {
    hide SlotOf, NumberBetween, ReadableBetween, ReadBetween, ReadStop, Within, Sorted;
    ReadSorted(v, capacity, start, end, max, number, buffer);
    WithinIsSlice(v.log, start, end);
    SortedSplits(v.log, start, end);
  }

  /** The element count is right unless the slots cross the tail away from both ends of the ring. */
  lemma {:induction false} NumberExact(v: View, i: nat, m: nat, capacity: nat)
    requires WellFormed(v, capacity) && i < m <= |v.log|
    ensures var first, last := SlotOf(v, i, capacity), SlotOf(v, m - 1, capacity);
            var n := if first <= last || first == capacity - 1 || last == 0 then m - i else m - i - 1;
            NumberBetween(first, last, capacity) == n
  {
  }

  /** The distance formula gives the number of elements looked at. */
  lemma {:induction false} ReadableExact(v: View, i: nat, capacity: nat)
    requires WellFormed(v, capacity) && i < |v.log|
    ensures ReadableBetween(SlotOf(v, i, capacity), SlotOf(v, |v.log| - 1, capacity), capacity) == Looked(v, i, capacity)
  {
    hide Narrowed;
  }

  /**
   In a ring of 2^32 bytes and more a read can look at nothing: 330382100
   records are 4 bytes more than 32 bits hold, and none of them is found.
  */
  lemma {:induction false} ReadMissesEverything(log: seq<Record>, capacity: nat, start: int, end: int,
                                                max: nat, number: int, buffer: seq<Record>)
    requires |log| == 330382100 <= capacity && Sorted(log) && max <= |buffer|
    requires start <= log[0].time && log[|log| - 1].time <= end
    ensures Within(log, start, end) == log
    ensures ReadBetween(View(At(0, |log|, capacity), log), capacity, start, end, max, number, buffer)
         == Outcome(-2, number, buffer)
  {
    hide ReadBetween, Within;
    var v := View(At(0, |log|, capacity), log);
    assert FirstAtLeast(log, start) == 0;
    AllUpTo(log, end);
    WithinIsSlice(log, start, end);
    assert log[0..|log|] == log;
    assert SlotOf(v, 0, capacity) == 0;
    assert Looked(v, 0, capacity) == 0;
    DeliveredIsAll(v, 0, |log|, capacity);
    ReadOutcome(v, capacity, start, end, max, number, buffer);
  }

  // --------------------------------------------------------------- deleting

  lemma {:induction false} RunStartSorted(log: seq<Record>, j: nat, time: int)
    requires Sorted(log) && j < |log| && log[j].time <= time
    ensures RunStart(log, j, time) == 0
  {
    if j > 0 {
      RunStartSorted(log, j - 1, time);
    }
  }

  /** On a sorted log a delete drops that many of the oldest records. */
  lemma {:induction false} DeleteSorted(v: View, time: int, capacity: nat)
    requires WellFormed(v, capacity) && Sorted(v.log)
    ensures var m := LastUpTo(v.log, time);
            if m == 0 then Deleted(v, time, capacity) == v
            else
              var c := if CrossesBadly(v, m, capacity) then m - 1 else m;
              1 <= c && Deleted(v, time, capacity) == View(v.write, v.log[c..])
  {
    hide SlotOf, NumberBetween, RunStart;
    var m := LastUpTo(v.log, time);
    if m == 0 {
      return;
    }
    RunStartSorted(v.log, m - 1, time);
    NumberExact(v, 0, m, capacity);
    var n := RunLength(v, 0, m, capacity);
    assert Zeroed(v.log, 0, n)[n..] == v.log[n..];
  }

  /**
   One delete, on any log, record by record and cell by cell. The run k..m that
   ends with the newest record up to `time` is zeroed, less its last record when
   its slots cross the tail away from both ends; then as many of the oldest
   records are forgotten. No other cell of the heap changes.
  */
  lemma {:induction false} DeleteIs(heap: seq<Record>, v: View, time: int, k: nat, m: nat, capacity: nat)
    requires WellFormed(v, capacity) && Holds(heap, v, capacity) && k < m == LastUpTo(v.log, time)
    requires (k == 0 || v.log[k - 1].time > time) && forall i :: k <= i < m ==> v.log[i].time <= time
    ensures var first, last := SlotOf(v, k, capacity), SlotOf(v, m - 1, capacity);
            var n := if first <= last || first == capacity - 1 || last == 0 then m - k else m - k - 1;
            && ForgetsRun(v, Deleted(v, time, capacity), k, n)
            && NullsRun(v, heap, HeapDeleted(heap, v, time, capacity), k, n, capacity)
  {
    hide SlotOf, RunStart, NumberBetween, ForgetsRun, NullsRun;
    RunStartIs(v.log, m - 1, time, k);
    NumberExact(v, k, m, capacity);
    var n := RunLength(v, k, m, capacity);
    DroppedForgets(v, k, n);
    OverwrittenNulls(v, heap, k, n, capacity);
  }

  /** The n records from the k-th became nulls, and then the n oldest were forgotten. */
  ghost predicate ForgetsRun(v: View, v': View, k: nat, n: nat) {
    && v'.write == v.write && |v'.log| == |v.log| - n
    && forall i: nat :: i < |v'.log| ==> v'.log[i] == if k <= i + n < k + n then NULL_ELEMENT else v.log[i + n]
  }

  /** The cells of the n records from the k-th are nulls, and no other cell changed. */
  ghost predicate NullsRun(v: View, heap: seq<Record>, heap': seq<Record>, k: nat, n: nat, capacity: nat)
    requires WellFormed(v, capacity) && k + n <= |v.log| && capacity <= |heap|
  {
    && |heap'| == |heap|
    && (forall i: nat :: k <= i < k + n ==> heap'[SlotOf(v, i, capacity)] == NULL_ELEMENT)
    && (forall s: nat :: s < |heap| && (forall i: nat :: k <= i < k + n ==> SlotOf(v, i, capacity) != s) ==>
          heap'[s] == heap[s])
  }

  lemma {:induction false} DroppedForgets(v: View, k: nat, n: nat)
    requires k + n <= |v.log|
    ensures ForgetsRun(v, View(v.write, Dropped(v.log, k, n)), k, n)
  {
    hide Zeroed;
    forall i: nat | i < |v.log| - n
      ensures Dropped(v.log, k, n)[i] == if k <= i + n < k + n then NULL_ELEMENT else v.log[i + n]
    {
      RamStorage.ZeroedWhere(v.log, k, n, i + n);
    }
  }

  lemma {:induction false} OverwrittenNulls(v: View, heap: seq<Record>, k: nat, n: nat, capacity: nat)
    requires WellFormed(v, capacity) && capacity <= |heap| && k < |v.log| && k + n <= |v.log|
    ensures NullsRun(v, heap, Overwritten(heap, SlotOf(v, k, capacity), n, capacity, NULL_ELEMENT), k, n, capacity)
  {
    hide SlotOf, InRun;
    var heap' := Overwritten(heap, SlotOf(v, k, capacity), n, capacity, NULL_ELEMENT);
    forall i: nat | k <= i < k + n
      ensures heap'[SlotOf(v, i, capacity)] == NULL_ELEMENT
    {
      RamStorage.SlotInRun(v, k, i, n, capacity);
    }
    forall s: nat | s < |heap| && (forall i: nat :: k <= i < k + n ==> SlotOf(v, i, capacity) != s)
      ensures heap'[s] == heap[s]
    {
      if InRun(s, SlotOf(v, k, capacity), n, capacity) {
        RunHasSlot(v, k, n, s, capacity);
      }
    }
  }

  /** Every slot of the run from the k-th record is one of the records'. */
  lemma {:induction false} RunHasSlot(v: View, k: nat, n: nat, s: nat, capacity: nat)
    requires WellFormed(v, capacity) && k + n <= |v.log| && k < |v.log|
    requires InRun(s, SlotOf(v, k, capacity), n, capacity)
    ensures exists i: nat :: k <= i < k + n && SlotOf(v, i, capacity) == s
  {
    var start := SlotOf(v, k, capacity);
    var i := k + if s >= start then s - start else s + capacity - start;
    assert SlotOf(v, i, capacity) == s;
  }

  /** On a sorted log a delete nulls the cells of the records it drops, and no other. */
  lemma {:induction false} DeleteErases(heap: seq<Record>, v: View, time: int, capacity: nat)
    requires WellFormed(v, capacity) && Holds(heap, v, capacity) && Sorted(v.log)
    ensures |HeapDeleted(heap, v, time, capacity)| == |heap|
    ensures var dropped := |v.log| - |Deleted(v, time, capacity).log|;
            && 0 <= dropped <= |v.log| && Deleted(v, time, capacity) == View(v.write, v.log[dropped..])
            && NullsRun(v, heap, HeapDeleted(heap, v, time, capacity), 0, dropped, capacity)
  {
    hide SlotOf, RunStart, NumberBetween, NullsRun, CrossesBadly;
    var m := LastUpTo(v.log, time);
    DeleteSorted(v, time, capacity);
    if m == 0 {
      assert v.log[0..] == v.log;
      NullsNothing(v, heap, capacity);
    } else {
      RunStartSorted(v.log, m - 1, time);
      OverwrittenNulls(v, heap, 0, RunLength(v, 0, m, capacity), capacity);
      RunLengthFromOldest(v, m, capacity);
    }
  }

  lemma {:induction false} NullsNothing(v: View, heap: seq<Record>, capacity: nat)
    requires WellFormed(v, capacity) && capacity <= |heap|
    ensures NullsRun(v, heap, heap, 0, 0, capacity)
  {
  }

  /** The m oldest records cross the tail, their first slot is not the tail and their last not the head. */
  predicate CrossesBadly(v: View, m: nat, capacity: nat)
    requires WellFormed(v, capacity) && 0 < m <= |v.log|
  {
    var first, last := SlotOf(v, 0, capacity), SlotOf(v, m - 1, capacity);
    first > last && first != capacity - 1 && last != 0
  }

  /** The run a delete goes back over starts at the oldest record exactly when all before its end are old. */
  lemma {:induction false} RunStartIsOldest(log: seq<Record>, j: nat, time: int)
    requires j < |log| && log[j].time <= time
    ensures RunStart(log, j, time) == 0 <==> forall k :: 0 <= k <= j ==> log[k].time <= time
  {
    if j > 0 && log[j - 1].time <= time {
      RunStartIsOldest(log, j - 1, time);
    }
  }

  /**
   Exact effect of one delete on any log: what is left is the records newer than
   `time` if and only if there is nothing to delete, or the records to delete
   are the oldest ones and do not cross the tail badly. Otherwise a record up to
   `time`, or a null in its place, is left in the log.
  */
  lemma {:induction false} DeleteExact(v: View, time: int, capacity: nat)
    requires WellFormed(v, capacity) && time >= 0
    ensures var m := LastUpTo(v.log, time);
            Deleted(v, time, capacity).log == NewerThan(v.log, time)
            <==> m == 0 || ((forall k :: 0 <= k < m ==> v.log[k].time <= time) && !CrossesBadly(v, m, capacity))
  {
    hide RunStart, Within, Deleted, CrossesBadly;
    var log, m := v.log, LastUpTo(v.log, time);
    if m == 0 {
      NewerIsRest(log, time);
      DeleteNothing(v, time, capacity);
    } else {
      RunStartIsOldest(log, m - 1, time);
      if RunStart(log, m - 1, time) == 0 {
        NewerIsRest(log, time);
        DeleteFromOldest(v, time, capacity);
        assert log[m - 1..] != log[m..];
      } else {
        DeleteLeavesNull(v, time, capacity);
        WithinInside(log, time + 1, 0xFFFF_FFFF);
      }
    }
  }

  lemma {:induction false} DeleteNothing(v: View, time: int, capacity: nat)
    requires WellFormed(v, capacity) && LastUpTo(v.log, time) == 0
    ensures Deleted(v, time, capacity).log == v.log[0..]
  {
    assert v.log[0..] == v.log;
  }

  /** A delete whose run starts at the oldest record drops that run, or all of it but the last record. */
  lemma {:induction false} DeleteFromOldest(v: View, time: int, capacity: nat)
    requires WellFormed(v, capacity) && LastUpTo(v.log, time) > 0
    requires RunStart(v.log, LastUpTo(v.log, time) - 1, time) == 0
    ensures var m := LastUpTo(v.log, time);
            Deleted(v, time, capacity).log == v.log[if CrossesBadly(v, m, capacity) then m - 1 else m..]
  {
    hide SlotOf, NumberBetween, RunStart, RunLength, Zeroed, CrossesBadly;
    var m := LastUpTo(v.log, time);
    RunLengthFromOldest(v, m, capacity);
    ZeroedAt(v.log, 0, RunLength(v, 0, m, capacity));
  }

  /** A delete whose run starts later leaves a null of that run in the log. */
  lemma {:induction false} DeleteLeavesNull(v: View, time: int, capacity: nat)
    requires WellFormed(v, capacity) && LastUpTo(v.log, time) > 0
    requires RunStart(v.log, LastUpTo(v.log, time) - 1, time) > 0
    ensures NULL_ELEMENT in Deleted(v, time, capacity).log
  {
    hide SlotOf, NumberBetween, RunStart, RunLength, Zeroed;
    var m := LastUpTo(v.log, time);
    var k := RunStart(v.log, m - 1, time);
    ZeroedAt(v.log, k, RunLength(v, k, m, capacity));
  }

  lemma {:induction false} RunLengthFromOldest(v: View, m: nat, capacity: nat)
    requires WellFormed(v, capacity) && 0 < m <= |v.log|
    ensures RunLength(v, 0, m, capacity) == if CrossesBadly(v, m, capacity) then m - 1 else m
  {
    hide SlotOf, NumberBetween;
    NumberExact(v, 0, m, capacity);
  }

  lemma ZeroedAt(log: seq<Record>, k: nat, n: nat)
    requires k + n <= |log| && n > 0
    ensures k > 0 ==> Dropped(log, k, n)[k - 1] == NULL_ELEMENT
    ensures k == 0 ==> Dropped(log, k, n) == log[n..]
  {
  }

  /** So on a sorted log only the layout matters, and where it is bad exactly one record too many is left. */
  lemma {:induction false} DeleteSortedExact(v: View, time: int, capacity: nat)
    requires WellFormed(v, capacity) && Sorted(v.log) && time >= 0
    ensures var m := LastUpTo(v.log, time);
            var after := Deleted(v, time, capacity).log;
            && (after == NewerThan(v.log, time) <==> m == 0 || !CrossesBadly(v, m, capacity))
            && (m > 0 && CrossesBadly(v, m, capacity) ==> after == [v.log[m - 1]] + NewerThan(v.log, time))
            && Sorted(after)
  {
    hide SlotOf, NumberBetween, RunStart, Deleted, CrossesBadly, Within;
    var m := LastUpTo(v.log, time);
    DeleteExact(v, time, capacity);
    SortedSplits(v.log, time, time);
    NewerIsSuffix(v.log, time);
    DeleteSorted(v, time, capacity);
    assert v.log[0..] == v.log;
    assert m > 0 ==> v.log[m - 1..] == [v.log[m - 1]] + v.log[m..];
  }

  /** Two deletes with the same time leave exactly the records newer than it, in every layout. */
  lemma {:induction false} DeleteTwice(v: View, time: int, capacity: nat)
    requires WellFormed(v, capacity) && Sorted(v.log) && time >= 0
    ensures WellFormed(Deleted(v, time, capacity), capacity)
    ensures Deleted(Deleted(v, time, capacity), time, capacity).log == NewerThan(v.log, time)
  {
    hide SlotOf, NumberBetween, RunStart, Deleted, Within, Sorted;
    var m := LastUpTo(v.log, time);
    var once := Deleted(v, time, capacity);
    DeleteSorted(v, time, capacity);
    var c := if m == 0 then 0 else if CrossesBadly(v, m, capacity) then m - 1 else m;
    assert v.log[0..] == v.log;
    SuffixAfter(v.log, c, time);
    DeleteSortedExact(once, time, capacity);
    OneLeftIsStraight(once, capacity);
  }

  /** A single record never crosses the tail. */
  lemma OneLeftIsStraight(v: View, capacity: nat)
    requires WellFormed(v, capacity)
    ensures v.log != [] ==> !CrossesBadly(v, 1, capacity)
  {
  }

  function Sample(time: u32): Record {
    NULL_ELEMENT.(time := time)
  }

  /**
   An unsorted log that fails the condition of DeleteExact: the delete zeroes the
   record in the middle and then forgets the oldest one, which is newer than `time`.
  */
  lemma DeleteUnsortedLosesNewer()
    ensures var a, b, c := Sample(5), Sample(1), Sample(9);
            Deleted(View(3, [a, b, c]), 1, 4).log == [NULL_ELEMENT, c]
  {
    var a, b, c := Sample(5), Sample(1), Sample(9);
    var log := [a, b, c];
    assert log[0].time == 5 && log[1].time == 1 && log[2].time == 9;
    assert LastUpTo(log, 1) == 2;
    assert RunStart(log, 1, 1) == 1;
  }

  /** A sorted log that fails it: a full ring of 4 whose log starts at slot 2 keeps a record one delete should take. */
  lemma DeleteFallsShort()
    ensures var log := [Sample(1), Sample(2), Sample(3), Sample(4)];
            Sorted(log) && NewerThan(log, 4) == [] && Deleted(View(2, log), 4, 4).log == [Sample(4)]
  {
    var log := [Sample(1), Sample(2), Sample(3), Sample(4)];
    assert log[0].time == 1 && log[1].time == 2 && log[2].time == 3 && log[3].time == 4;
    AllUpTo(log, 4);
    NewerIsSuffix(log, 4);
    DeleteSorted(View(2, log), 4, 4);
  }

  /**
   A read that misses its newest record: a full ring of 4 whose log starts at
   slot 1. With room for only three of the four it reports success all the same.
  */
  lemma ReadFallsShort(buffer: seq<Record>)
    requires |buffer| == 4
    ensures var log := [Sample(1), Sample(2), Sample(3), Sample(4)];
            && Sorted(log) && Within(log, 1, 4) == log
            && ReadBetween(View(1, log), 4, 1, 4, 4, 0, buffer) == Outcome(0, 3, log[..3] + buffer[3..])
            && ReadBetween(View(1, log), 4, 1, 4, 3, 0, buffer) == Outcome(0, 3, log[..3] + buffer[3..])
  {
    hide ReadBetween, Within;
    var log := [Sample(1), Sample(2), Sample(3), Sample(4)];
    assert log[0].time == 1 && log[1].time == 2 && log[2].time == 3 && log[3].time == 4;
    assert FirstAtLeast(log, 1) == 0 && LastUpTo(log, 4) == 4;
    WithinIsSlice(log, 1, 4);
    assert log[0..4] == log;
    ReadOutcome(View(1, log), 4, 1, 4, 4, 0, buffer);
    ReadOutcome(View(1, log), 4, 1, 4, 3, 0, buffer);
  }

  // ------------------------------------------------------------- whole runs

  datatype Op = Write(e: Record) | DeleteUpTo(time: u32) | Read(start: u32, end: u32, max: nat)

  /** A run so far: the records accepted and dropped in order, and what each call handed back. */
  datatype History = History(view: View, accepted: seq<Record>, dropped: seq<Record>, results: seq<Outcome>)

  const START: History := History(View(0, []), [], [], [])

  /** The caller writes in time order, which the storage does not check. */
  ghost predicate InOrder(v: View, op: Op) {
    op.Write? && v.log != [] ==> op.e.time >= v.log[|v.log| - 1].time
  }

  ghost function Step(h: History, op: Op, capacity: nat): History
    requires WellFormed(h.view, capacity) && Sorted(h.view.log)
  {
    match op
    case Write(e) =>
      History(Stored(h.view, e, capacity),
              if |h.view.log| < capacity then h.accepted + [e] else h.accepted, h.dropped,
              h.results + [Code(if |h.view.log| < capacity then 0 else 1)])
    case DeleteUpTo(time) =>
      DeleteSorted(h.view, time, capacity);
      var after := Deleted(h.view, time, capacity);
      History(after, h.accepted, h.dropped + h.view.log[..|h.view.log| - |after.log|],
              h.results + [Code(if LastUpTo(h.view.log, time) == 0 then -1 else 0)])
    case Read(start, end, max) =>
      h.(results := h.results + [ReadBetween(h.view, capacity, start, end, max, 0, Copies(NULL_ELEMENT, max))])
  }

  lemma {:induction false} StepKeepsOrder(h: History, op: Op, capacity: nat)
    requires WellFormed(h.view, capacity) && Sorted(h.view.log) && InOrder(h.view, op)
    ensures WellFormed(Step(h, op, capacity).view, capacity) && Sorted(Step(h, op, capacity).view.log)
  {
    if op.DeleteUpTo? {
      DeleteSorted(h.view, op.time, capacity);
      DeleteSortedExact(h.view, op.time, capacity);
    }
  }

  /** Every write of the run is in time order when its turn comes, and every delete is given at most `bound`. */
  ghost predicate Proper(h: History, ops: seq<Op>, bound: int, capacity: nat)
    requires WellFormed(h.view, capacity) && Sorted(h.view.log)
    decreases |ops|
  {
    ops == [] ||
    (&& InOrder(h.view, ops[0])
     && (ops[0].DeleteUpTo? ==> ops[0].time <= bound)
     && (StepKeepsOrder(h, ops[0], capacity); Proper(Step(h, ops[0], capacity), ops[1..], bound, capacity)))
  }

  ghost function Run(h: History, ops: seq<Op>, bound: int, capacity: nat): (r: History)
    requires WellFormed(h.view, capacity) && Sorted(h.view.log) && Proper(h, ops, bound, capacity)
    ensures WellFormed(r.view, capacity) && Sorted(r.view.log)
    decreases |ops|
  {
    if ops == [] then h
    else
      StepKeepsOrder(h, ops[0], capacity);
      Run(Step(h, ops[0], capacity), ops[1..], bound, capacity)
  }

  lemma {:induction false} StepConserves(h: History, op: Op, bound: int, capacity: nat)
    requires WellFormed(h.view, capacity) && Sorted(h.view.log)
    requires op.DeleteUpTo? ==> op.time <= bound
    requires Conserved(h.accepted, h.dropped, h.view.log, bound)
    ensures var r := Step(h, op, capacity); Conserved(r.accepted, r.dropped, r.view.log, bound)
  {
    hide Conserved, Deleted, CrossesBadly;
    match op
    case Write(e) =>
      ConservedAppend(h.accepted, h.dropped, h.view.log, bound, e);
    case DeleteUpTo(time) =>
      DeleteSorted(h.view, time, capacity);
      SortedSplits(h.view.log, time, time);
      var c := |h.view.log| - |Deleted(h.view, time, capacity).log|;
      assert h.view.log[0..] == h.view.log;
      ConservedDrop(h.accepted, h.dropped, h.view.log, bound, c);
    case Read(start, end, max) =>
  }

  lemma {:induction false} RunConserves(h: History, ops: seq<Op>, bound: int, capacity: nat)
    requires WellFormed(h.view, capacity) && Sorted(h.view.log) && Proper(h, ops, bound, capacity)
    requires Conserved(h.accepted, h.dropped, h.view.log, bound)
    ensures var r := Run(h, ops, bound, capacity); Conserved(r.accepted, r.dropped, r.view.log, bound)
    decreases |ops|
  {
    if ops != [] {
      StepKeepsOrder(h, ops[0], capacity);
      StepConserves(h, ops[0], bound, capacity);
      RunConserves(Step(h, ops[0], capacity), ops[1..], bound, capacity);
    }
  }

  /**
   Every run of chronological writes, deletes and reads from a fresh storage:
   accepted records are the dropped ones followed by the log, which stays sorted
   and still has every accepted record newer than all the deletes asked for.
  */
  lemma {:induction false} EveryRunConserves(ops: seq<Op>, bound: int, capacity: nat)
    requires Proper(START, ops, bound, capacity)
    ensures var r := Run(START, ops, bound, capacity);
            && Sorted(r.view.log)
            && r.accepted == r.dropped + r.view.log
            && NewerThan(r.accepted, bound) == NewerThan(r.view.log, bound)
  {
    var r := Run(START, ops, bound, capacity);
    RunConserves(START, ops, bound, capacity);
    ConservedKeepsNewer(r.accepted, r.dropped, r.view.log, bound);
  }

  /** Every cell that holds no live record is null. */
  ghost predicate Clean(heap: seq<Record>, v: View, capacity: nat)
    requires WellFormed(v, capacity) && capacity <= |heap|
  {
    forall s: nat :: s < |heap| && (forall k: nat :: k < |v.log| ==> SlotOf(v, k, capacity) != s) ==>
      heap[s] == NULL_ELEMENT
  }

  ghost predicate Swept(storage: RamStorage.Storage)
    requires storage.Valid()
    reads storage, storage.heap
  {
    Clean(storage.heap[..], storage.view, storage.maxNumberOfElements)
  }

  lemma {:induction false} WriteKeepsClean(heap: seq<Record>, v: View, e: Record, capacity: nat)
    requires WellFormed(v, capacity) && capacity <= |heap| && Clean(heap, v, capacity)
    ensures var heap' := if |v.log| < capacity then heap[v.write := e] else heap;
            Clean(heap', Stored(v, e, capacity), capacity)
  {
    if |v.log| < capacity {
      var v' := Stored(v, e, capacity);
      assert SlotOf(v', |v.log|, capacity) == v.write;
      forall k: nat | k < |v.log|
        ensures SlotOf(v', k, capacity) == SlotOf(v, k, capacity)
      {
      }
    }
  }

  lemma {:induction false} DeleteKeepsClean(heap: seq<Record>, v: View, time: int, capacity: nat)
    requires WellFormed(v, capacity) && Holds(heap, v, capacity) && Sorted(v.log) && Clean(heap, v, capacity)
    ensures WellFormed(Deleted(v, time, capacity), capacity)
    ensures Clean(HeapDeleted(heap, v, time, capacity), Deleted(v, time, capacity), capacity)
  {
    hide SlotOf, HeapDeleted, Deleted, Sorted, NullsRun;
    DeleteErases(heap, v, time, capacity);
    var v', heap' := Deleted(v, time, capacity), HeapDeleted(heap, v, time, capacity);
    forall s: nat | s < |heap| && (forall k: nat :: k < |v'.log| ==> SlotOf(v', k, capacity) != s)
      ensures heap'[s] == NULL_ELEMENT
    {
      DeadAfterDrop(heap, heap', v, v', s, capacity);
    }
  }

  /** A slot that is dead once the oldest records are dropped was dead before, or one of theirs. */
  lemma {:induction false} DeadAfterDrop(heap: seq<Record>, heap': seq<Record>, v: View, v': View, s: nat, capacity: nat)
    requires WellFormed(v, capacity) && WellFormed(v', capacity) && capacity <= |heap| && Clean(heap, v, capacity)
    requires v'.write == v.write && |v'.log| <= |v.log| && NullsRun(v, heap, heap', 0, |v.log| - |v'.log|, capacity)
    requires s < |heap| && forall k: nat :: k < |v'.log| ==> SlotOf(v', k, capacity) != s
    ensures heap'[s] == NULL_ELEMENT
  {
    hide SlotOf;
    var dropped := |v.log| - |v'.log|;
    if forall k: nat :: k < dropped ==> SlotOf(v, k, capacity) != s {
      forall k: nat | k < |v.log|
        ensures SlotOf(v, k, capacity) != s
      {
        if k >= dropped {
          RamStorage.SlotAfterDrop(v, v', dropped, k - dropped, capacity);
        }
      }
    }
  }

  /** Such a run carried out on the storage itself hands back and leaves what the machine's run does. */
  method Execute(storage: RamStorage.Storage, ops: seq<Op>, ghost bound: int) returns (results: seq<Outcome>)
    requires storage.Valid() && Sorted(storage.view.log)
    requires Proper(START.(view := storage.view), ops, bound, storage.maxNumberOfElements)
    modifies storage, storage.heap
    ensures storage.Valid() && storage.maxNumberOfElements == old(storage.maxNumberOfElements)
    ensures var r := Run(START.(view := old(storage.view)), ops, bound, storage.maxNumberOfElements);
            storage.view == r.view && results == r.results
    ensures old(Swept(storage)) ==> Swept(storage)
  {
    ghost var h := START.(view := storage.view);
    ghost var start, capacity := h, storage.maxNumberOfElements;
    results := [];
    for i := 0 to |ops|
      invariant storage.Valid() && storage.maxNumberOfElements == capacity
      invariant storage.view == h.view && Sorted(h.view.log) && results == h.results
      invariant old(Swept(storage)) ==> Swept(storage)
      invariant Proper(h, ops[i..], bound, capacity)
      invariant Run(h, ops[i..], bound, capacity) == Run(start, ops, bound, capacity)
    {
      assert ops[i..][0] == ops[i] && ops[i..][1..] == ops[i + 1..];
      StepKeepsOrder(h, ops[i], capacity);
      results := ExecuteOne(storage, ops[i], results, h);
      h := Step(h, ops[i], capacity);
    }
  }

  method ExecuteOne(storage: RamStorage.Storage, op: Op, results: seq<Outcome>, ghost h: History)
    returns (results': seq<Outcome>)
    requires storage.Valid() && Sorted(storage.view.log)
    requires storage.view == h.view && results == h.results
    modifies storage, storage.heap
    ensures storage.Valid() && storage.maxNumberOfElements == old(storage.maxNumberOfElements)
    ensures var h' := Step(h, op, storage.maxNumberOfElements);
            storage.view == h'.view && results' == h'.results
    ensures old(Swept(storage)) ==> Swept(storage)
  {
    hide Clean, ReadBetween, HeapDeleted, SlotOf;
    ghost var heap, view, capacity := storage.heap[..], storage.view, storage.maxNumberOfElements;
    match op
    case Write(e) =>
      if Clean(heap, view, capacity) {
        WriteKeepsClean(heap, view, e, capacity);
      }
      var code := storage.WriteElement(e);
      results' := results + [Code(code)];
    case DeleteUpTo(time) =>
      if Clean(heap, view, capacity) {
        DeleteKeepsClean(heap, view, time, capacity);
      }
      var code := storage.DeleteUpToTime(time);
      results' := results + [Code(code)];
    case Read(start, end, max) =>
      var elements := new Record[max](_ => NULL_ELEMENT);
      assert elements[..] == Copies(NULL_ELEMENT, max);
      var ret, number := storage.ReadElementsBetweenTwoDates(elements, max, 0, start, end);
      results' := results + [Outcome(ret, number, elements[..])];
  }

  /**
   A run on a freshly initialised storage leaves nulls in every cell that is not
   live, and so the oldest and newest time of an emptied storage are 0.
  */
  method ExecuteFromInit(storage: RamStorage.Storage, length: u32, ops: seq<Op>, ghost bound: int)
    returns (results: seq<Outcome>, oldest: int, newest: int)
    requires 0 < length <= storage.heap.Length && Proper(START, ops, bound, length)
    modifies storage, storage.heap
    ensures storage.Valid() && Swept(storage)
    ensures var r := Run(START, ops, bound, length); storage.view == r.view && results == r.results
    ensures oldest == if storage.view.log == [] then 0 else storage.view.log[0].time
    ensures newest == if storage.view.log == [] then 0 else storage.view.log[|storage.view.log| - 1].time
  {
    hide SlotOf, Step, Proper;
    var ret := storage.Init(length);
    FreshIsClean(storage.heap[..], length);
    results := Execute(storage, ops, bound);
    oldest := storage.GetOldestTime();
    newest := storage.GetNewestTime();
    if storage.view.log == [] {
      EmptyIsNull(storage.heap[..], storage.view, length);
    } else {
      MinimumIsFirst(storage.view.log, oldest);
    }
  }

  lemma FreshIsClean(heap: seq<Record>, capacity: nat)
    requires 0 < capacity <= |heap| && forall s :: 0 <= s < |heap| ==> heap[s] == NULL_ELEMENT
    ensures Clean(heap, View(0, []), capacity)
  {
  }

  lemma EmptyIsNull(heap: seq<Record>, v: View, capacity: nat)
    requires WellFormed(v, capacity) && capacity <= |heap| && capacity > 0 && v.log == [] && Clean(heap, v, capacity)
    ensures heap[Back(v.write, 1, capacity)] == NULL_ELEMENT
  {
  }

  lemma MinimumIsFirst(log: seq<Record>, time: int)
    requires log != [] && Sorted(log) && IsMinimum(log, time)
    ensures time == log[0].time
  {
    var k :| 0 <= k < |log| && log[k].time == time;
    assert time <= log[0].time && (k > 0 ==> log[0].time <= log[k].time);
  }

  /** The log as it should be: a write appends while there is room, a delete leaves the newer records. */
  ghost function Ideal(log: seq<Record>, op: Op, capacity: nat): seq<Record> {
    match op
    case Write(e) => if |log| < capacity then log + [e] else log
    case DeleteUpTo(time) => NewerThan(log, time)
    case Read(_, _, _) => log
  }

  ghost function IdealRun(log: seq<Record>, ops: seq<Op>, capacity: nat): seq<Record>
    decreases |ops|
  {
    if ops == [] then log else IdealRun(Ideal(log, ops[0], capacity), ops[1..], capacity)
  }

  /** The run with every delete issued twice. */
  function Doubled(ops: seq<Op>): seq<Op> {
    if ops == [] then []
    else (if ops[0].DeleteUpTo? then [ops[0], ops[0]] else [ops[0]]) + Doubled(ops[1..])
  }

  /** What a call does to the log when a delete is issued twice. */
  lemma {:induction false} StepTwice(h: History, op: Op, capacity: nat)
    requires WellFormed(h.view, capacity) && Sorted(h.view.log) && InOrder(h.view, op)
    ensures var once := Step(h, op, capacity);
            && WellFormed(once.view, capacity) && Sorted(once.view.log)
            && var after := if op.DeleteUpTo? then Step(once, op, capacity) else once;
               && WellFormed(after.view, capacity) && Sorted(after.view.log)
               && after.view.log == Ideal(h.view.log, op, capacity)
  {
    hide Sorted, Within, Deleted;
    StepKeepsOrder(h, op, capacity);
    if op.DeleteUpTo? {
      StepKeepsOrder(Step(h, op, capacity), op, capacity);
      DeleteTwice(h.view, op.time, capacity);
    }
  }

  /** A proper run in which every delete is issued twice leaves exactly the log it should. */
  lemma {:induction false} DoubledIsIdeal(h: History, ops: seq<Op>, bound: int, capacity: nat)
    requires WellFormed(h.view, capacity) && Sorted(h.view.log) && Proper(h, Doubled(ops), bound, capacity)
    ensures Run(h, Doubled(ops), bound, capacity).view.log == IdealRun(h.view.log, ops, capacity)
    decreases |ops|
  {
    hide Step, Ideal, Sorted, InOrder;
    if ops != [] {
      var op, rest := ops[0], Doubled(ops[1..]);
      assert Doubled(ops)[0] == op;
      StepTwice(h, op, capacity);
      var once := Step(h, op, capacity);
      if op.DeleteUpTo? {
        assert Doubled(ops)[1..] == [op] + rest;
        assert ([op] + rest)[0] == op && ([op] + rest)[1..] == rest;
        assert Run(h, Doubled(ops), bound, capacity) == Run(once, [op] + rest, bound, capacity);
        DoubledIsIdeal(Step(once, op, capacity), ops[1..], bound, capacity);
      } else {
        assert Doubled(ops)[1..] == rest;
        DoubledIsIdeal(once, ops[1..], bound, capacity);
      }
    }
  }

  /** On a sorted log the minimum over all records is the time in the slot |log| behind the write slot. */
  lemma MinimumIsOldest(heap: seq<Record>, v: View, capacity: nat, time: int)
    requires WellFormed(v, capacity) && Holds(heap, v, capacity) && Sorted(v.log) && IsMinimum(v.log, time)
    ensures capacity > 0 && time == heap[Back(v.write, |v.log|, capacity)].time
  {
    var k :| 0 <= k < |v.log| && v.log[k].time == time;
    assert heap[SlotOf(v, 0, capacity)] == v.log[0];
    assert time <= v.log[0].time && (k > 0 ==> v.log[0].time <= v.log[k].time);
  }

  // ------------------------------------------------------- reachable states

  function Writes(records: seq<Record>): (ops: seq<Op>)
    ensures |ops| == |records|
    ensures forall i :: 0 <= i < |ops| ==> ops[i] == Write(records[i])
  {
    seq(|records|, i requires 0 <= i < |records| => Write(records[i]))
  }

  lemma {:induction false} RunConcat(h: History, a: seq<Op>, b: seq<Op>, bound: int, capacity: nat)
    requires WellFormed(h.view, capacity) && Sorted(h.view.log) && Proper(h, a, bound, capacity)
    requires Proper(Run(h, a, bound, capacity), b, bound, capacity)
    ensures Proper(h, a + b, bound, capacity)
    ensures Run(h, a + b, bound, capacity) == Run(Run(h, a, bound, capacity), b, bound, capacity)
    decreases |a|
  {
    hide Step, InOrder;
    if a == [] {
      assert a + b == b;
    } else {
      assert (a + b)[0] == a[0] && (a + b)[1..] == a[1..] + b;
      StepKeepsOrder(h, a[0], capacity);
      RunConcat(Step(h, a[0], capacity), a[1..], b, bound, capacity);
    }
  }

  /** Records in time order are all written while there is room. */
  lemma {:induction false} RunWrites(h: History, records: seq<Record>, bound: int, capacity: nat)
    requires WellFormed(h.view, capacity) && |h.view.log| + |records| <= capacity && 0 < capacity
    requires Sorted(h.view.log) && Sorted(h.view.log + records)
    ensures Proper(h, Writes(records), bound, capacity)
    ensures Run(h, Writes(records), bound, capacity).view
         == View(At(h.view.write, |records|, capacity), h.view.log + records)
    decreases |records|
  {
    var log, ops := h.view.log, Writes(records);
    if records == [] {
      assert log + records == log;
    } else {
      assert log != [] ==> (log + records)[|log| - 1] == log[|log| - 1] && (log + records)[|log|] == records[0];
      assert InOrder(h.view, ops[0]);
      assert ops[1..] == Writes(records[1..]);
      assert log + records == (log + [records[0]]) + records[1..];
      StepKeepsOrder(h, ops[0], capacity);
      RunWrites(Step(h, ops[0], capacity), records[1..], bound, capacity);
    }
  }

  /** A proper run that ends with a delete leaves what that delete leaves. */
  lemma {:induction false} RunThenDelete(ops: seq<Op>, time: u32, bound: int, capacity: nat)
    requires Proper(START, ops, bound, capacity) && time <= bound
    ensures Proper(START, ops + [DeleteUpTo(time)], bound, capacity)
    ensures Run(START, ops + [DeleteUpTo(time)], bound, capacity).view
         == Deleted(Run(START, ops, bound, capacity).view, time, capacity)
  {
    RunOne(Run(START, ops, bound, capacity), DeleteUpTo(time), bound, capacity);
    RunConcat(START, ops, [DeleteUpTo(time)], bound, capacity);
  }

  lemma {:induction false} RunOne(h: History, op: Op, bound: int, capacity: nat)
    requires WellFormed(h.view, capacity) && Sorted(h.view.log) && InOrder(h.view, op)
    requires op.DeleteUpTo? ==> op.time <= bound
    ensures Proper(h, [op], bound, capacity) && Run(h, [op], bound, capacity) == Step(h, op, capacity)
  {
    hide Step;
    var ops := [op];
    assert ops[0] == op && ops[1..] == [];
    StepKeepsOrder(h, op, capacity);
    RunNothing(Step(h, op, capacity), bound, capacity);
  }

  lemma RunNothing(h: History, bound: int, capacity: nat)
    requires WellFormed(h.view, capacity) && Sorted(h.view.log)
    ensures Proper(h, [], bound, capacity) && Run(h, [], bound, capacity) == h
  {
  }

  /** Deleting n time-0 records that start at the head empties the log. */
  lemma {:induction false} DeleteBlanks(n: nat, capacity: nat)
    requires n < capacity
    ensures Deleted(View(n, Copies(NULL_ELEMENT, n)), 0, capacity) == View(n, [])
  {
    var v := View(n, Copies(NULL_ELEMENT, n));
    AllUpTo(v.log, 0);
    DeleteSorted(v, 0, capacity);
  }

  /** Filling the first slots with time-0 records and deleting them all moves an empty log anywhere. */
  lemma {:induction false} RunMovesStart(slot: nat, capacity: nat)
    requires slot < capacity
    ensures var ops := Writes(Copies(NULL_ELEMENT, slot)) + [DeleteUpTo(0)];
            Proper(START, ops, 0, capacity) && Run(START, ops, 0, capacity).view == View(slot, [])
  {
    hide Run, Proper, Deleted, Writes;
    var blanks := Copies(NULL_ELEMENT, slot);
    assert START.view.log + blanks == blanks;
    RunWrites(START, blanks, 0, capacity);
    RunThenDelete(Writes(blanks), 0, 0, capacity);
    DeleteBlanks(slot, capacity);
  }

  /** Every layout the theorems speak of arises: some proper run ends in it. */
  lemma {:induction false} EveryLayoutArises(v: View, capacity: nat)
    requires WellFormed(v, capacity) && Sorted(v.log) && capacity > 0
    ensures exists ops :: Proper(START, ops, 0, capacity) && Run(START, ops, 0, capacity).view == v
  {
    hide Run, Proper;
    var slot := Oldest(v, capacity);
    var a, b := Writes(Copies(NULL_ELEMENT, slot)) + [DeleteUpTo(0)], Writes(v.log);
    RunMovesStart(slot, capacity);
    assert [] + v.log == v.log;
    RunWrites(Run(START, a, 0, capacity), v.log, 0, capacity);
    RunConcat(START, a, b, 0, capacity);
    assert Proper(START, a + b, 0, capacity);
  }
}
