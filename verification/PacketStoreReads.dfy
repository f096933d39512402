/** What a range read of the packet store hands back, in every state and for every window. */
module PacketStoreReads {
  import opened Wrappers
  import opened Cyclic
  import opened TimeLog
  import opened PacketStoreModel

  lemma {:induction false} StepsInRing(slot: nat, i: nat, capacity: nat)
    requires slot < capacity && i <= capacity
    ensures Steps(slot, i, capacity) == At(slot, i, capacity)
  {
    StepsAre(slot, i, capacity);
    DivisionIs(slot + i, if slot + i < capacity then 0 else 1, At(slot, i, capacity), capacity);
  }

  /** Copying from a slot of the ring yields that slice of the log and leaves the rest of the buffer. */
  lemma {:induction false} CopiedIsSlice(v: View, file: Option<seq<Record>>, capacity: nat,
                                         i: nat, n: nat, buffer: seq<Record>)
    requires WellFormed(v, capacity) && Holds(file, v, capacity) && file.Some?
    requires i + n <= |v.log| && n <= |buffer|
    requires n > 0 ==> v.oldest + i < capacity
    ensures Copied(file.value, v.oldest + i, n, capacity, buffer) == v.log[i..i + n] + buffer[n..]
  {
    var copied := Copied(file.value, v.oldest + i, n, capacity, buffer);
    forall k | 0 <= k < |buffer|
      ensures copied[k] == (v.log[i..i + n] + buffer[n..])[k]
    {
      if k < n {
        StepsInRing(v.oldest + i, k, capacity);
        assert At(v.oldest + i, k, capacity) == At(v.oldest, i + k, capacity);
      }
    }
  }

  ghost predicate WholeLog(v: View, start: int, end: int) {
    start <= OldestTime(v.log) && end >= NewestTime(v.log)
  }

  /** The slot of the newest record with time <= `end` is not below the oldest record's slot. */
  ghost predicate LastMatchAhead(v: View, end: int, capacity: nat)
    requires v.oldest < capacity && |v.log| <= capacity
  {
    var m := LastUpTo(v.log, end);
    m > 0 && At(v.oldest, m - 1, capacity) >= v.oldest
  }

  /** The count for the i-th to the m-th record, when it is right and what it is otherwise. */
  lemma {:induction false} CountExact(v: View, i: nat, m: nat, capacity: nat)
    requires WellFormed(v, capacity) && i < m <= |v.log|
    ensures var n := CountBetween(v.oldest + i, At(v.oldest, m - 1, capacity), capacity);
            n == if v.oldest + m - 1 < capacity then m - i
                 else if m - i > 1 then m - i - 1
                 else 954437176
  {
    hide CountBetween, Sorted;
    var first, last := v.oldest + i, At(v.oldest, m - 1, capacity);
    if first < capacity + last {
      CountIs(first, last, capacity);
    } else {
      CountWraps(first, last, capacity, 1);
    }
  }

  /**
   A range read that has a record to return is exact if and only if it dumps
   the whole log or the last matching record's slot is not below the oldest
   slot. Otherwise the count it reports is wrong.
  */
  lemma {:induction false} ReadExact(v: View, file: Option<seq<Record>>, capacity: nat, start: int, end: int,
                                     max: nat, number: int, buffer: seq<Record>)
    requires WellFormed(v, capacity) && Holds(file, v, capacity) && max <= |buffer|
    requires Within(v.log, start, end) != [] && |Within(v.log, start, end)| <= max
    ensures var want := Within(v.log, start, end);
            var r := ReadBetween(v, file, capacity, start, end, max, number, buffer);
            && (Delivers(r, want, buffer) <==> WholeLog(v, start, end) || LastMatchAhead(v, end, capacity))
            && (!Delivers(r, want, buffer) ==>
                  && r.number == (if |want| > 1 then |want| - 1 else 954437176)
                  && r.ret == (if r.number > max then -1 else 0)
                  && (r.ret == -1 ==> r.buffer == buffer))
  {
    hide ReadBetween, CountBetween, Copied, Within, Sorted, Holds;
    var i, m := FirstAtLeast(v.log, start), LastUpTo(v.log, end);
    WithinIsSlice(v.log, start, end);
    ReadIsOneCopy(v, file, capacity, start, end, max, number, buffer);
    if WholeLog(v, start, end) {
      WindowEnds(v.log, start, end);
      DumpDelivers(v, file, capacity, buffer);
    } else {
      CopyDelivers(v, file, capacity, i, m, max, buffer);
    }
  }

  /**
   A buffer too short for the window is refused, and left alone, if and only if
   the read would have been exact, or the window has one record, or the buffer
   is short by more than one. Otherwise the count one too low slips past the
   check: the read fills the buffer and reports success.
  */
  lemma {:induction false} ReadRefuses(v: View, file: Option<seq<Record>>, capacity: nat, start: int, end: int,
                                       max: nat, number: int, buffer: seq<Record>)
    requires WellFormed(v, capacity) && Holds(file, v, capacity) && max <= |buffer|
    requires |Within(v.log, start, end)| > max
    ensures var want := Within(v.log, start, end);
            var r := ReadBetween(v, file, capacity, start, end, max, number, buffer);
            && (r.ret == -1 <==>
                  WholeLog(v, start, end) || LastMatchAhead(v, end, capacity) || |want| == 1 || |want| > max + 1)
            && (r.ret == -1 ==>
                  && r.buffer == buffer
                  && r.number == if WholeLog(v, start, end) then number
                                 else if LastMatchAhead(v, end, capacity) then |want|
                                 else if |want| > 1 then |want| - 1
                                 else 954437176)
            && (r.ret != -1 ==> r.ret == 0 && r.number == max == |want| - 1)
  {
    hide ReadBetween, CountBetween, Copied, Within, Sorted, Holds;
    var i, m := FirstAtLeast(v.log, start), LastUpTo(v.log, end);
    WithinIsSlice(v.log, start, end);
    ReadIsOneCopy(v, file, capacity, start, end, max, number, buffer);
    CountExact(v, i, m, capacity);
    if WholeLog(v, start, end) {
      WindowEnds(v.log, start, end);
    }
  }

  /**
   When the exact windows' condition fails but the first matching slot is still
   before the tail, the read hands over all of the window but its newest record.
  */
  lemma {:induction false} ReadDropsNewest(v: View, file: Option<seq<Record>>, capacity: nat, start: int, end: int,
                                           max: nat, number: int, buffer: seq<Record>)
    requires WellFormed(v, capacity) && Holds(file, v, capacity) && max <= |buffer|
    requires Within(v.log, start, end) != [] && |Within(v.log, start, end)| - 1 <= max
    requires !WholeLog(v, start, end) && !LastMatchAhead(v, end, capacity)
    requires v.oldest + FirstAtLeast(v.log, start) < capacity
    ensures var want := Within(v.log, start, end);
            Delivers(ReadBetween(v, file, capacity, start, end, max, number, buffer), want[..|want| - 1], buffer)
  {
    hide ReadBetween, CountBetween, Copied, Within, Sorted, Holds;
    var i, m := FirstAtLeast(v.log, start), LastUpTo(v.log, end);
    WithinIsSlice(v.log, start, end);
    ReadIsOneCopy(v, file, capacity, start, end, max, number, buffer);
    CountExact(v, i, m, capacity);
    CopiedIsSlice(v, file, capacity, i, m - i - 1, buffer);
    PrefixOfSlice(v.log, i, m, m - i - 1);
  }

  /**
   When the first matching record lies past the tail the read starts behind the
   ring: its first entry is whatever the file holds there, if anything, and the
   rest are the records from the head on, whether they match or not.
  */
  lemma {:induction false} ReadPastTail(v: View, file: Option<seq<Record>>, capacity: nat, start: int, end: int,
                                        max: nat, number: int, buffer: seq<Record>)
    requires WellFormed(v, capacity) && Holds(file, v, capacity) && file.Some? && max <= |buffer|
    requires 2 <= |Within(v.log, start, end)| <= max + 1
    requires v.oldest + FirstAtLeast(v.log, start) >= capacity
    ensures var i, n, head := FirstAtLeast(v.log, start), |Within(v.log, start, end)| - 1, capacity - v.oldest;
            var first := if v.oldest + i < |file.value| then file.value[v.oldest + i] else buffer[0];
            && head + n - 1 <= |v.log|
            && ReadBetween(v, file, capacity, start, end, max, number, buffer)
               == Outcome(0, n, [first] + v.log[head..head + n - 1] + buffer[n..])
  {
    hide ReadBetween, CountBetween, Copied, Within, Sorted, Holds, At, IsFirstAtLeast;
    var i, m := FirstAtLeast(v.log, start), LastUpTo(v.log, end);
    WithinIsSlice(v.log, start, end);
    ReadIsOneCopy(v, file, capacity, start, end, max, number, buffer);
    WindowEnds(v.log, start, end);
    CountExact(v, i, m, capacity);
    CopiedFromHead(v, file, capacity, i, m - i - 1, buffer);
  }

  /** Copying from behind the tail: one entry from there, then the ring from its head on. */
  lemma {:induction false} CopiedPastTail(file: seq<Record>, slot: nat, n: nat, capacity: nat, buffer: seq<Record>, k: nat)
    requires 1 <= capacity <= slot && k < n <= |buffer| && k <= capacity
    ensures var source := if k == 0 then slot else k - 1;
            Copied(file, slot, n, capacity, buffer)[k] == if source < |file| then file[source] else buffer[k]
  {
    if k > 0 {
      StepsPastTail(slot, k, capacity);
    }
  }

  lemma {:induction false} StepsPastTail(slot: nat, k: nat, capacity: nat)
    requires 1 <= capacity <= slot && 1 <= k <= capacity
    ensures Steps(slot, k, capacity) == k - 1
  {
    StepsAre(slot, k, capacity);
    DivisionIs(k - 1, 0, k - 1, capacity);
  }

  lemma {:induction false} CopiedFromHead(v: View, file: Option<seq<Record>>, capacity: nat,
                                          i: nat, n: nat, buffer: seq<Record>)
    requires WellFormed(v, capacity) && Holds(file, v, capacity) && file.Some?
    requires v.oldest + i >= capacity && 1 <= n <= |buffer| && i + n < |v.log|
    ensures var head := capacity - v.oldest;
            var first := if v.oldest + i < |file.value| then file.value[v.oldest + i] else buffer[0];
            && head + n - 1 <= |v.log|
            && Copied(file.value, v.oldest + i, n, capacity, buffer)
               == [first] + v.log[head..head + n - 1] + buffer[n..]
  {
    hide Copied, Holds, Sorted;
    var head := capacity - v.oldest;
    var first := if v.oldest + i < |file.value| then file.value[v.oldest + i] else buffer[0];
    var got := Copied(file.value, v.oldest + i, n, capacity, buffer);
    var want := [first] + v.log[head..head + n - 1];
    forall k | 0 <= k < n
      ensures got[k] == want[k]
    {
      CopiedPastTail(file.value, v.oldest + i, n, capacity, buffer, k);
      if k > 0 {
        HeadSlot(v, file, capacity, k - 1);
      }
    }
    CopiedRest(file.value, v.oldest + i, n, capacity, buffer);
    assert got[..n] == want;
    assert got == got[..n] + got[n..];
  }

  /** The slots from the head on hold the records whose slots lie past the tail. */
  lemma {:induction false} HeadSlot(v: View, file: Option<seq<Record>>, capacity: nat, slot: nat)
    requires WellFormed(v, capacity) && Holds(file, v, capacity) && file.Some?
    requires capacity - v.oldest + slot < |v.log|
    ensures slot < |file.value| && file.value[slot] == v.log[capacity - v.oldest + slot]
  {
    hide Sorted;
    assert At(v.oldest, capacity - v.oldest + slot, capacity) == slot;
  }

  lemma {:induction false} DumpDelivers(v: View, file: Option<seq<Record>>, capacity: nat, buffer: seq<Record>)
    requires WellFormed(v, capacity) && Holds(file, v, capacity) && file.Some? && |v.log| <= |buffer|
    ensures v.log[0..|v.log|] == v.log
    ensures Copied(file.value, v.oldest, |v.log|, capacity, buffer) == v.log + buffer[|v.log|..]
  {
    CopiedIsSlice(v, file, capacity, 0, |v.log|, buffer);
    assert v.log[0..|v.log|] == v.log;
  }

  /** Copying from the i-th to the m-th record delivers them exactly when the m-th lies ahead of the oldest slot. */
  lemma {:induction false} CopyDelivers(v: View, file: Option<seq<Record>>, capacity: nat, i: nat, m: nat,
                                        max: nat, buffer: seq<Record>)
    requires WellFormed(v, capacity) && Holds(file, v, capacity) && file.Some?
    requires i < m <= |v.log| && m - i <= max <= |buffer|
    ensures var n := CountBetween(v.oldest + i, At(v.oldest, m - 1, capacity), capacity);
            var r := CopyOut(file.value, v.oldest + i, n, capacity, max, buffer);
            && (Delivers(r, v.log[i..m], buffer) <==> At(v.oldest, m - 1, capacity) >= v.oldest)
            && (At(v.oldest, m - 1, capacity) < v.oldest ==>
                  && r.number == (if m - i > 1 then m - i - 1 else 954437176)
                  && r.ret == (if r.number > max then -1 else 0)
                  && (r.ret == -1 ==> r.buffer == buffer))
  {
    CountExact(v, i, m, capacity);
    if v.oldest + m - 1 < capacity {
      CopiedIsSlice(v, file, capacity, i, m - i, buffer);
    }
  }

  /** With a record in the window every branch copies from the first matching slot, or dumps everything. */
  lemma {:induction false} ReadIsOneCopy(v: View, file: Option<seq<Record>>, capacity: nat, start: int, end: int,
                                         max: nat, number: int, buffer: seq<Record>)
    requires WellFormed(v, capacity) && Holds(file, v, capacity) && max <= |buffer|
    requires FirstAtLeast(v.log, start) < LastUpTo(v.log, end)
    ensures file.Some?
    ensures var i, m := FirstAtLeast(v.log, start), LastUpTo(v.log, end);
            var n := CountBetween(v.oldest + i, At(v.oldest, m - 1, capacity), capacity);
            var r := ReadBetween(v, file, capacity, start, end, max, number, buffer);
            if !WholeLog(v, start, end) then r == CopyOut(file.value, v.oldest + i, n, capacity, max, buffer)
            else if |v.log| > max then r == Outcome(-1, number, buffer)
            else r == Outcome(0, |v.log|, Copied(file.value, v.oldest, |v.log|, capacity, buffer))
  {
    WindowEnds(v.log, start, end);
  }

  /** A window with a record in it opens at the first record exactly when it starts by then, and so on. */
  lemma {:induction false} WindowEnds(log: seq<Record>, start: int, end: int)
    requires Sorted(log) && FirstAtLeast(log, start) < LastUpTo(log, end)
    ensures start <= OldestTime(log) <==> FirstAtLeast(log, start) == 0
    ensures end >= NewestTime(log) <==> LastUpTo(log, end) == |log|
  {
  }

  /**
   A window with no record in it: the code is 2 exactly when all records are on
   one side of it. Inside a gap the store counts the other way round the ring,
   so it reports `capacity - gap` records, or refuses for want of room; past
   the tail the 64-bit difference wraps.
  */
  lemma {:induction false} ReadEmptyWindow(v: View, file: Option<seq<Record>>, capacity: nat, start: int, end: int,
                                           max: nat, number: int, buffer: seq<Record>)
    requires WellFormed(v, capacity) && Holds(file, v, capacity) && max <= |buffer|
    requires v.log != [] && Within(v.log, start, end) == []
    ensures var r := ReadBetween(v, file, capacity, start, end, max, number, buffer);
            var i, m := FirstAtLeast(v.log, start), LastUpTo(v.log, end);
            && (r.ret == 2 <==> i == |v.log| || m == 0)
            && (r.ret == 2 ==> r.number == number && r.buffer == buffer)
            && (r.ret != 2 ==>
                  var gap := i - m + 1;
                  && r.number == (if v.oldest + m - 1 < capacity then capacity - gap
                                  else (954437176 - gap) % 0x1_0000_0000)
                  && r.ret == (if r.number > max then -1 else 0)
                  && (r.ret == -1 ==> r.buffer == buffer))
  {
    WithinIsSlice(v.log, start, end);
    SortedSplits(v.log, start, end);
    var i, m := FirstAtLeast(v.log, start), LastUpTo(v.log, end);
    if i < |v.log| && m > 0 {
      GapCount(v, i, m, capacity);
    }
  }

  lemma {:induction false} GapCount(v: View, i: nat, m: nat, capacity: nat)
    requires WellFormed(v, capacity) && 1 <= m <= i < |v.log|
    ensures CountBetween(v.oldest + i, At(v.oldest, m - 1, capacity), capacity)
         == if v.oldest + m - 1 < capacity then capacity - (i - m + 1)
            else (954437176 - (i - m + 1)) % 0x1_0000_0000
  {
    hide CountBetween, Sorted;
    var gap := i - m + 1;
    var first, last := v.oldest + i, At(v.oldest, m - 1, capacity);
    if v.oldest + m - 1 < capacity {
      CountIs(first, last, capacity);
    } else {
      CountWraps(first, last, capacity, gap + 1);
    }
  }

  /** With an empty log only a window that contains time 0 is answered, by an empty dump once the file exists. */
  lemma ReadEmptyLog(v: View, file: Option<seq<Record>>, capacity: nat, start: int, end: int,
                     max: nat, number: int, buffer: seq<Record>)
    requires WellFormed(v, capacity) && Holds(file, v, capacity) && max <= |buffer| && v.log == []
    ensures ReadBetween(v, file, capacity, start, end, max, number, buffer)
         == if !(start <= 0 <= end) then Outcome(2, number, buffer)
            else if file.None? then Outcome(1, number, buffer)
            else Outcome(0, 0, buffer)
  {
    if file.Some? {
      assert Copied(file.value, v.oldest, 0, capacity, buffer) == buffer;
    }
  }

  /**
   Every entry of every read but a dump, matching or not: the read starts at the
   first record with time >= start, unwrapped, and walks the ring from there. An
   entry is the record whose slot it is, or what a dead slot or the file behind
   the ring holds, or is left alone past the end of the file.
  */
  lemma {:induction false} ReadEntries(v: View, file: Option<seq<Record>>, capacity: nat, start: int, end: int,
                                       max: nat, number: int, buffer: seq<Record>)
    requires WellFormed(v, capacity) && Holds(file, v, capacity) && max <= |buffer|
    requires v.log != [] && !WholeLog(v, start, end)
    requires ReadBetween(v, file, capacity, start, end, max, number, buffer).ret == 0
    ensures var r := ReadBetween(v, file, capacity, start, end, max, number, buffer);
            && file.Some? && 0 <= r.number <= max && |r.buffer| == |buffer|
            && (forall k: nat :: k < r.number ==>
                  r.buffer[k] == Entry(v, file, capacity, v.oldest + FirstAtLeast(v.log, start), k, buffer))
            && r.buffer[r.number..] == buffer[r.number..]
  {
    hide CountBetween, Sorted, ReadBetween, WholeLog, Copied, Entry, Holds, IsFirstAtLeast;
    var r := ReadBetween(v, file, capacity, start, end, max, number, buffer);
    var from := v.oldest + FirstAtLeast(v.log, start);
    ReadStartsAt(v, file, capacity, start, end, max, number, buffer);
    CopiedRest(file.value, from, r.number, capacity, buffer);
    forall k: nat | k < r.number
      ensures r.buffer[k] == Entry(v, file, capacity, from, k, buffer)
    {
      EntryIs(v, file, capacity, from, r.number, k, buffer);
    }
  }

  lemma CopiedRest(file: seq<Record>, from: nat, n: nat, capacity: nat, buffer: seq<Record>)
    requires n <= |buffer|
    ensures Copied(file, from, n, capacity, buffer)[n..] == buffer[n..]
  {
  }

  lemma {:induction false} EntryIs(v: View, file: Option<seq<Record>>, capacity: nat, from: nat, n: nat, k: nat,
                                   buffer: seq<Record>)
    requires WellFormed(v, capacity) && Holds(file, v, capacity) && file.Some? && k < n <= |buffer|
    ensures Copied(file.value, from, n, capacity, buffer)[k] == Entry(v, file, capacity, from, k, buffer)
  {
    hide Sorted, Steps, Source;
    StepsAre(from, k, capacity);
    var slot := Source(from, k, capacity);
    var index := if slot >= v.oldest then slot - v.oldest else slot + capacity - v.oldest;
    assert slot < capacity && index < |v.log| ==> At(v.oldest, index, capacity) == slot;
  }

  /** The k-th entry read from a slot on. */
  function Entry(v: View, file: Option<seq<Record>>, capacity: nat, from: nat, k: nat, buffer: seq<Record>): Record
    requires WellFormed(v, capacity) && Holds(file, v, capacity) && file.Some? && k < |buffer|
  {
    var slot := Source(from, k, capacity);
    var index := if slot >= v.oldest then slot - v.oldest else slot + capacity - v.oldest;
    if slot < capacity && index < |v.log| then v.log[index]
    else if slot < |file.value| then file.value[slot]
    else buffer[k]
  }

  lemma {:induction false} ReadStartsAt(v: View, file: Option<seq<Record>>, capacity: nat, start: int, end: int,
                                        max: nat, number: int, buffer: seq<Record>)
    requires WellFormed(v, capacity) && Holds(file, v, capacity) && max <= |buffer|
    requires v.log != [] && !WholeLog(v, start, end)
    requires ReadBetween(v, file, capacity, start, end, max, number, buffer).ret == 0
    ensures var r := ReadBetween(v, file, capacity, start, end, max, number, buffer);
            && file.Some? && 0 <= r.number <= max
            && r.buffer == Copied(file.value, v.oldest + FirstAtLeast(v.log, start), r.number, capacity, buffer)
  {
    hide CountBetween, Copied, Holds;
    SortedSplits(v.log, start, end);
  }

  /**
   What a read of a gap hands over when it starts inside the ring: the records
   after the gap, whatever the dead slots hold, and the records before the gap
   but the last. None of the records is in the window.
  */
  lemma {:induction false} ReadGap(v: View, file: Option<seq<Record>>, capacity: nat, start: int, end: int,
                                   max: nat, number: int, buffer: seq<Record>)
    requires WellFormed(v, capacity) && Holds(file, v, capacity) && file.Some? && max <= |buffer|
    requires 0 < LastUpTo(v.log, end) <= FirstAtLeast(v.log, start) < |v.log|
    requires v.oldest + FirstAtLeast(v.log, start) < capacity
    requires capacity - (FirstAtLeast(v.log, start) - LastUpTo(v.log, end) + 1) <= max
    ensures var r := ReadBetween(v, file, capacity, start, end, max, number, buffer);
            var i := FirstAtLeast(v.log, start);
            && r.ret == 0 && r.number == capacity - (i - LastUpTo(v.log, end) + 1) && |r.buffer| == |buffer|
            && (forall k: nat :: k < r.number ==> r.buffer[k] == InGap(v, file, capacity, i, k, buffer))
            && r.buffer[r.number..] == buffer[r.number..]
  {
    hide CountBetween, Sorted, ReadBetween, Entry, Holds, At, WholeLog, IsFirstAtLeast, IsLastUpTo;
    var i := FirstAtLeast(v.log, start);
    var r := ReadBetween(v, file, capacity, start, end, max, number, buffer);
    GapIsEmpty(v, start, end);
    ReadEmptyWindow(v, file, capacity, start, end, max, number, buffer);
    ReadEntries(v, file, capacity, start, end, max, number, buffer);
    forall k: nat | k < r.number
      ensures r.buffer[k] == InGap(v, file, capacity, i, k, buffer)
    {
      EntryInGap(v, file, capacity, i, k, buffer);
    }
  }

  /** The k-th entry read from the i-th record on, in a gap: by where in the ring it lies. */
  function InGap(v: View, file: Option<seq<Record>>, capacity: nat, i: nat, k: nat, buffer: seq<Record>): Record
    requires WellFormed(v, capacity) && i < |v.log| && v.oldest + i < capacity && k < |buffer| && file.Some?
    requires k < capacity
  {
    if k < |v.log| - i then v.log[i + k]
    else if k >= capacity - i then v.log[k - (capacity - i)]
    else
      var dead := At(v.oldest, i + k, capacity);
      if dead < |file.value| then file.value[dead] else buffer[k]
  }

  lemma {:induction false} EntryInGap(v: View, file: Option<seq<Record>>, capacity: nat, i: nat, k: nat, buffer: seq<Record>)
    requires WellFormed(v, capacity) && Holds(file, v, capacity) && file.Some?
    requires i < |v.log| && v.oldest + i < capacity && k < capacity && k < |buffer|
    ensures Entry(v, file, capacity, v.oldest + i, k, buffer) == InGap(v, file, capacity, i, k, buffer)
  {
    hide Holds, Sorted, Steps, Source;
    StepsAre(v.oldest + i, k, capacity);
    StepsInRing(v.oldest + i, k, capacity);
  }

  /** A window that closes before it opens in the log has nothing in it, and is not the whole log. */
  lemma {:induction false} GapIsEmpty(v: View, start: int, end: int)
    requires Sorted(v.log) && 0 < LastUpTo(v.log, end) <= FirstAtLeast(v.log, start) < |v.log|
    ensures Within(v.log, start, end) == [] && !WholeLog(v, start, end)
  {
    WithinIsSlice(v.log, start, end);
  }
}
