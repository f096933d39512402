/**
 The packet store over its two files, moving byte positions in place.

 The data file is kept as its sequence of element-sized slots, which grows when
 a write lands past its end; the info file as the handler last written to it.
*/
module PacketStore {
  import opened Wrappers
  import opened Cyclic
  import opened TimeLog
  import opened PacketStoreModel
  import opened PacketStoreEffects

  lemma WriteInside(file: seq<Record>, slot: nat, e: Record)
    requires slot < |file|
    ensures WriteSlot(file, slot, e) == file[slot := e]
  {
  }

  lemma NullsNone(file: seq<Record>, start: nat)
    ensures NullsFrom(file, start, 0) == file
  {
  }

  /** Each null of a contiguous run overwrites the next slot, or extends the file by one. */
  lemma NullsOneMore(file: seq<Record>, start: nat, n: nat)
    requires start <= |file|
    ensures WriteSlot(NullsFrom(file, start, n), start + n, NULL_ELEMENT) == NullsFrom(file, start, n + 1)
  {
    var now, next := NullsFrom(file, start, n), NullsFrom(file, start, n + 1);
    assert start + n >= |now| ==> |now| == start + n;
    assert WriteSlot(now, start + n, NULL_ELEMENT) == next;
  }

  /** The fields StoreCallback leaves behind are the handler of the extended log. */
  lemma {:induction false} StoredRepresents(h: Handler, file: Option<seq<Record>>, v: View, e: Record, capacity: nat)
    requires Represents(h, file, v, capacity) && StoreCode(v, e, capacity) == 0
    ensures var slot := At(v.oldest, |v.log|, capacity);
            var h' := Handler(0, h.tail, Next(slot, capacity) * ELEMENT_SIZE, h.tmNumber + 1,
                              if h.tmNumber == 0 then h.writeTo else h.oldestPosition,
                              if h.tmNumber == 0 then e.time else h.oldestTime, e.time);
            Represents(h', FileStored(file, v, e, capacity), Stored(v, e, capacity), capacity)
  {
    hide Sorted, Holds, WriteSlot;
    StoredSorted(v, e, capacity);
    StoredHolds(file, v, e, capacity);
    assert At(v.oldest, |v.log| + 1, capacity) == Next(At(v.oldest, |v.log|, capacity), capacity);
  }

  lemma {:induction false} StoredSorted(v: View, e: Record, capacity: nat)
    requires WellFormed(v, capacity) && StoreCode(v, e, capacity) == 0
    ensures Sorted(v.log + [e])
  {
  }

  lemma {:induction false} StoredHolds(file: Option<seq<Record>>, v: View, e: Record, capacity: nat)
    requires WellFormed(v, capacity) && Holds(file, v, capacity) && StoreCode(v, e, capacity) == 0
    ensures Holds(FileStored(file, v, e, capacity), Stored(v, e, capacity), capacity)
  {
    hide Sorted, WriteSlot;
    var file', v' := FileStored(file, v, e, capacity), Stored(v, e, capacity);
    forall k: nat | k < |v'.log|
      ensures At(v.oldest, k, capacity) < |file'.value| && file'.value[At(v.oldest, k, capacity)] == v'.log[k]
    {
      assert k < |v.log| ==> At(v.oldest, k, capacity) != At(v.oldest, |v.log|, capacity);
    }
  }

  /** The fields a partial delete leaves behind are the handler of the shortened log. */
  lemma {:induction false} DroppedRepresents(h: Handler, file: seq<Record>, v: View, c: nat, capacity: nat)
    requires Represents(h, Some(file), v, capacity) && c < |v.log|
    ensures var start := At(v.oldest, c, capacity);
            var h' := Handler(0, h.tail, h.writeTo, h.tmNumber - c, start * ELEMENT_SIZE, v.log[c].time, h.newestTime);
            && Represents(h', Some(Overwritten(file, v.oldest, c, capacity, NULL_ELEMENT)),
                       View(start, v.log[c..], true), capacity)
            && start < |file| && Overwritten(file, v.oldest, c, capacity, NULL_ELEMENT)[start] == v.log[c]
  {
    var start := At(v.oldest, c, capacity);
    var file' := Overwritten(file, v.oldest, c, capacity, NULL_ELEMENT);
    forall k: nat | k < |v.log| - c
      ensures At(start, k, capacity) < |file'| && file'[At(start, k, capacity)] == v.log[c..][k]
    {
      assert At(start, k, capacity) == At(v.oldest, c + k, capacity);
      OverwrittenAt(file, v.oldest, c, capacity, NULL_ELEMENT, c + k);
    }
  }

  lemma {:induction false} SlotsInFile(file: seq<Record>, v: View, capacity: nat)
    requires WellFormed(v, capacity) && Holds(Some(file), v, capacity)
    ensures At(v.oldest, 0, capacity) == v.oldest
    ensures forall k: nat :: k < |v.log| ==> At(v.oldest, k, capacity) < |file|
  {
  }

  /** Below the newest time the byte count from the oldest record to the last one found is what a delete takes. */
  lemma {:induction false} CountIsTaken(v: View, time: int, capacity: nat)
    requires WellFormed(v, capacity) && v.log != [] && time < NewestTime(v.log) && LastUpTo(v.log, time) > 0
    ensures var m := LastUpTo(v.log, time);
            && CountBetween(v.oldest, At(v.oldest, m - 1, capacity), capacity) == Taken(v, m, capacity)
            && 1 <= Taken(v, m, capacity) < |v.log|
  {
    var m := LastUpTo(v.log, time);
    assert m < |v.log|;
    CountIs(v.oldest, At(v.oldest, m - 1, capacity), capacity);
  }

  lemma {:induction false} HeldSlots(file: Option<seq<Record>>, v: View, capacity: nat)
    requires WellFormed(v, capacity) && Holds(file, v, capacity)
    ensures file.Some? ==>
              forall k: nat :: k < |v.log| ==>
                var slot := Round(v.oldest, k, capacity); slot < |file.value| && file.value[slot] == v.log[k]
  {
    hide Sorted;
    if file.Some? {
      forall k: nat | k < |v.log|
        ensures var slot := Round(v.oldest, k, capacity); slot < |file.value| && file.value[slot] == v.log[k]
      {
        AtIs(v.oldest, k, capacity);
      }
    }
  }

  class Store {
    const capacity: nat

    var head: int
    var tail: int
    var writeTo: int
    var tmNumber: int
    var oldestPosition: int
    var oldestTime: int
    var newestTime: int

    var file: Option<seq<Record>>
    var info: Option<Handler>

    ghost var view: View

    /** The handler held in memory, as a write of the whole struct would save it. */
    function Live(): Handler
      reads this
    {
      Handler(head, tail, writeTo, tmNumber, oldestPosition, oldestTime, newestTime)
    }

    /** What holds between calls once the store is initialised. */
    ghost predicate Valid()
      reads this
    {
      && Represents(Live(), file, view, capacity)
      && info == Some(Live())
    }

    /** Between calls every cached field says what it should of the log. */
    lemma CachesAgree()
      requires Valid()
      ensures head == 0 && tail == (capacity - 1) * ELEMENT_SIZE && tmNumber == |view.log|
      ensures oldestPosition == view.oldest * ELEMENT_SIZE
      ensures writeTo == (view.oldest + tmNumber) % capacity * ELEMENT_SIZE
      ensures view.log != [] ==> oldestTime == view.log[0].time && newestTime == view.log[|view.log| - 1].time
      ensures view.log == [] ==> oldestPosition == oldestTime == newestTime == 0
      ensures file.Some? ==>
                forall k: nat :: k < |view.log| ==>
                  var slot := Round(view.oldest, k, capacity); slot < |file.value| && file.value[slot] == view.log[k]
      ensures info == Some(Handler(head, tail, writeTo, tmNumber, oldestPosition, oldestTime, newestTime))
    {
      AtIs(view.oldest, |view.log|, capacity);
      HeldSlots(file, view, capacity);
    }

    /** What a program start needs: no info file, or one that some run left behind. */
    ghost predicate Resumable()
      reads this
    {
      if info.None? then
        1 <= capacity < 0x1_0000_0000 && newestTime == 0 && view == View(0, [], file.Some?)
      else
        Represents(info.value, file, view, capacity)
    }

    /** A program start: static storage is zero, the files are whatever the disk holds. */
    constructor (capacity: nat, file: Option<seq<Record>>, info: Option<Handler>, ghost view: View)
      requires 1 <= capacity < 0x1_0000_0000
      requires if info.Some? then Represents(info.value, file, view, capacity) else view == View(0, [], file.Some?)
      ensures Resumable()
      ensures this.capacity == capacity && this.file == file && this.info == info && this.view == view
    {
      this.capacity := capacity;
      head, tail, writeTo, tmNumber := 0, 0, 0, 0;
      oldestPosition, oldestTime, newestTime := 0, 0, 0;
      this.file := file;
      this.info := info;
      this.view := view;
    }

    method Init() returns (ret: int)
      requires Resumable()
      modifies this
      ensures ret == 0 && Valid()
      ensures view == old(view) && file == old(file)
      ensures old(info).Some? ==> Live() == old(info).value
    {
      head := 0;
      tail := head + (capacity - 1) * ELEMENT_SIZE;
      if info.None? {
        writeTo := head;
        tmNumber := 0;
        oldestPosition := 0;
        oldestTime := 0;
        info := Some(Live());
      } else {
        var h := info.value;
        head, tail, writeTo, tmNumber := h.head, h.tail, h.writeTo, h.tmNumber;
        oldestPosition, oldestTime, newestTime := h.oldestPosition, h.oldestTime, h.newestTime;
      }
      ret := 0;
    }

    method UpdateInfoFile() returns (ret: int)
      modifies `info
      ensures old(info).Some? ==> ret == 0 && info == Some(Live())
      ensures old(info).None? ==> ret == -1 && info == None
    {
      if info.None? {
        return -1;
      }
      info := Some(Live());
      ret := 0;
    }

    method UpdateBrowserAscending(browser: int) returns (browser': int)
      requires 1 <= capacity && head == 0 && tail == (capacity - 1) * ELEMENT_SIZE
      requires 0 <= browser && browser % ELEMENT_SIZE == 0
      ensures browser' == Next(browser / ELEMENT_SIZE, capacity) * ELEMENT_SIZE
    {
      if browser + ELEMENT_SIZE > tail {
        browser' := head;
      } else {
        browser' := browser + ELEMENT_SIZE;
      }
    }

    method UpdateBrowserDescending(browser: int) returns (browser': int)
      requires 1 <= capacity && head == 0 && tail == (capacity - 1) * ELEMENT_SIZE
      requires 0 <= browser <= tail && browser % ELEMENT_SIZE == 0
      ensures browser' == Back(browser / ELEMENT_SIZE, 1, capacity) * ELEMENT_SIZE
    {
      if browser - ELEMENT_SIZE < head {
        browser' := tail;
      } else {
        browser' := browser - ELEMENT_SIZE;
      }
    }

    method StoreCallback(data: seq<byte>, dataSize: u32, storageTime: seq<byte>) returns (ret: int)
      requires Valid() && |data| >= TM_LENGTH && |storageTime| >= 4
      modifies this
      ensures Valid()
      ensures var e := Record(LittleEndian(storageTime), dataSize, data[..TM_LENGTH]);
              && ret == StoreCode(old(view), e, capacity)
              && view == Stored(old(view), e, capacity)
              && file == FileStored(old(file), old(view), e, capacity)
      ensures ret == -1 <==> |old(view).log| == capacity
      ensures ret == -2 <==> 0 < |old(view).log| < capacity
                             && LittleEndian(storageTime) < old(view).log[|old(view).log| - 1].time
      ensures ret in {0, -1, -2}
      ensures ret != 0 ==> file == old(file) && Live() == old(Live())
    {
      hide Sorted, Holds, WriteSlot, At;
      StoreIs(view, Record(LittleEndian(storageTime), dataSize, data[..TM_LENGTH]), capacity);
      if tmNumber >= capacity {
        return -1;
      }
      var element := Record(LittleEndian(storageTime), dataSize, data[..TM_LENGTH]);
      ghost var before := Live();
      if tmNumber == 0 {
        oldestPosition := writeTo;
        oldestTime := element.time;
      } else if element.time < newestTime {
        return -2;
      }
      AppendElement(element, before);
      var saved := UpdateInfoFile();
      if saved != 0 {
        return -2;
      }
      ret := 0;
    }

    /** Writes an accepted element and moves the rest of the handler on; `before` was the handler. */
    method AppendElement(element: Record, ghost before: Handler)
      requires Represents(before, file, view, capacity) && StoreCode(view, element, capacity) == 0
      requires Live() == if before.tmNumber == 0 then before.(oldestPosition := writeTo, oldestTime := element.time) else before
      modifies this
      ensures view == Stored(old(view), element, capacity)
      ensures file == FileStored(old(file), old(view), element, capacity)
      ensures Represents(Live(), file, view, capacity) && info == old(info)
    {
      hide Sorted, Holds, WriteSlot;
      StoredRepresents(before, file, view, element, capacity);
      SlotOfOffset(At(view.oldest, |view.log|, capacity), ELEMENT_SIZE);
      var slots := if file.Some? then file.value else [];
      file := Some(WriteSlot(slots, writeTo / ELEMENT_SIZE, element));
      writeTo := UpdateBrowserAscending(writeTo);
      tmNumber := tmNumber + 1;
      newestTime := element.time;
      view := Stored(view, element, capacity);
    }

    method SearchStart(startTime: u32) returns (ret: int, position: int)
      requires Represents(Live(), file, view, capacity)
      ensures ret == if file.None? then -1 else if FirstAtLeast(view.log, startTime) == |view.log| then 1 else 0
      ensures ret == 0 ==> position == (view.oldest + FirstAtLeast(view.log, startTime)) * ELEMENT_SIZE
    {
      hide Sorted;
      position := 0;
      if file.None? {
        return -1, position;
      }
      var browser := oldestPosition;
      for i := 0 to tmNumber
        invariant browser == At(view.oldest, i, capacity) * ELEMENT_SIZE
        invariant i <= FirstAtLeast(view.log, startTime)
      {
        var time := file.value[browser / ELEMENT_SIZE].time;
        if time >= startTime {
          return 0, oldestPosition + i * ELEMENT_SIZE;
        }
        browser := UpdateBrowserAscending(browser);
      }
      ret := 1;
    }

    method SearchEnd(endTime: u32) returns (ret: int, position: int)
      requires Represents(Live(), file, view, capacity)
      ensures ret == if file.None? then -1 else if LastUpTo(view.log, endTime) == 0 then 1 else 0
      ensures ret == 0 ==> position == At(view.oldest, LastUpTo(view.log, endTime) - 1, capacity) * ELEMENT_SIZE
    {
      hide Sorted, Holds, At;
      position := 0;
      if file.None? {
        return -1, position;
      }
      var browser := writeTo;
      for i := 0 to tmNumber
        invariant browser == At(view.oldest, tmNumber - i, capacity) * ELEMENT_SIZE
        invariant LastUpTo(view.log, endTime) <= tmNumber - i
      {
        var time;
        browser, time := ReadBack(browser, tmNumber - i - 1);
        if time <= endTime {
          return 0, browser;
        }
      }
      ret := 1;
    }

    /** One turn of the backward search: steps from behind the k-th record to it, and reads its time. */
    method ReadBack(browser: int, ghost k: nat) returns (browser': int, time: int)
      requires Represents(Live(), file, view, capacity) && file.Some? && k < |view.log|
      requires browser == At(view.oldest, k + 1, capacity) * ELEMENT_SIZE
      ensures browser' == At(view.oldest, k, capacity) * ELEMENT_SIZE && time == view.log[k].time
    {
      hide Sorted;
      SlotOfOffset(At(view.oldest, k + 1, capacity), ELEMENT_SIZE);
      browser' := UpdateBrowserDescending(browser);
      StepBack(view.oldest, k + 1, capacity);
      SlotOfOffset(At(view.oldest, k, capacity), ELEMENT_SIZE);
      time := file.value[browser' / ELEMENT_SIZE].time;
    }

    function NumberOfElementsBetween(start: int, end: int): (n: int)
      requires 1 <= capacity && head == 0 && tail == (capacity - 1) * ELEMENT_SIZE
      requires 0 <= start && 0 <= end && start % ELEMENT_SIZE == 0 && end % ELEMENT_SIZE == 0
      reads this
      ensures n == CountBetween(start / ELEMENT_SIZE, end / ELEMENT_SIZE, capacity)
    {
      if end >= start then (end - start) / ELEMENT_SIZE + 1
      else (((tail - start) + (end - head)) % 0x1_0000_0000_0000_0000 / ELEMENT_SIZE + 1) % 0x1_0000_0000
    }

    /** Copies `number` elements, starting at byte position `start`, into the caller's buffer. */
    method CopyElements(elements: array<Record>, start: int, number: nat)
      requires 1 <= capacity && head == 0 && tail == (capacity - 1) * ELEMENT_SIZE && file.Some?
      requires 0 <= start && start % ELEMENT_SIZE == 0 && number <= elements.Length
      modifies elements
      ensures elements[..] == Copied(file.value, start / ELEMENT_SIZE, number, capacity, old(elements[..]))
    {
      var browser := start;
      for i := 0 to number
        invariant browser == Steps(start / ELEMENT_SIZE, i, capacity) * ELEMENT_SIZE
        invariant elements[..] == Copied(file.value, start / ELEMENT_SIZE, i, capacity, old(elements[..]))
      {
        if browser / ELEMENT_SIZE < |file.value| {
          elements[i] := file.value[browser / ELEMENT_SIZE];
        }
        browser := UpdateBrowserAscending(browser);
      }
    }

    /** The tail of every branch that reads from a start to an end position. */
    method ReadPositions(elements: array<Record>, max: nat, startPos: int, endPos: int, ghost start: nat, ghost end: nat)
      returns (ret: int, readNumber: int)
      requires 1 <= capacity && head == 0 && tail == (capacity - 1) * ELEMENT_SIZE && file.Some?
      requires startPos == start * ELEMENT_SIZE && endPos == end * ELEMENT_SIZE && max <= elements.Length
      modifies elements
      ensures Outcome(ret, readNumber, elements[..])
           == CopyOut(file.value, start, CountBetween(start, end, capacity), capacity, max, old(elements[..]))
    {
      SlotOfOffset(start, ELEMENT_SIZE);
      SlotOfOffset(end, ELEMENT_SIZE);
      readNumber := NumberOfElementsBetween(startPos, endPos);
      if readNumber > max {
        return -1, readNumber;
      }
      CopyElements(elements, startPos, readNumber);
      ret := 0;
    }

    /** The branch of a read whose window opens at or before the oldest record. */
    method ReadFromOldest(elements: array<Record>, max: nat, number: int, startTime: u32, endTime: u32)
      returns (ret: int, readNumber: int)
      requires Valid() && max <= elements.Length && startTime <= oldestTime
      modifies elements
      ensures Outcome(ret, readNumber, elements[..])
           == ReadBetween(view, file, capacity, startTime, endTime, max, number, old(elements[..]))
    {
      hide Sorted, Holds, CountBetween, Copied;
      readNumber := number;
      var startPos := oldestPosition;
      if endTime >= newestTime {
        if tmNumber > max {
          return -1, readNumber;
        }
        if file.None? {
          return 1, readNumber;
        }
        SlotOfOffset(view.oldest, ELEMENT_SIZE);
        CopyElements(elements, oldestPosition, tmNumber);
        return 0, tmNumber;
      } else {
        var endPos;
        ret, endPos := SearchEnd(endTime);
        if ret != 0 {
          return 2, readNumber;
        }
        ghost var last := At(view.oldest, LastUpTo(view.log, endTime) - 1, capacity);
        ret, readNumber := ReadPositions(elements, max, startPos, endPos, view.oldest, last);
      }
    }

    /** The branch of a read whose window opens after the oldest record. */
    method ReadFromStart(elements: array<Record>, max: nat, number: int, startTime: u32, endTime: u32)
      returns (ret: int, readNumber: int)
      requires Valid() && max <= elements.Length && startTime > oldestTime
      modifies elements
      ensures Outcome(ret, readNumber, elements[..])
           == ReadBetween(view, file, capacity, startTime, endTime, max, number, old(elements[..]))
    {
      hide Sorted, Holds, CountBetween, Copied;
      readNumber := number;
      var startPos, endPos;
      ret, startPos := SearchStart(startTime);
      if ret != 0 {
        return 2, readNumber;
      }
      ghost var start := view.oldest + FirstAtLeast(view.log, startTime);
      if endTime >= newestTime {
        SlotOfOffset(At(view.oldest, tmNumber, capacity), ELEMENT_SIZE);
        endPos := UpdateBrowserDescending(writeTo);
        ret, readNumber := ReadPositions(elements, max, startPos, endPos, start, At(view.oldest, tmNumber - 1, capacity));
      } else {
        ret, endPos := SearchEnd(endTime);
        if ret != 0 {
          return 2, readNumber;
        }
        ghost var last := At(view.oldest, LastUpTo(view.log, endTime) - 1, capacity);
        ret, readNumber := ReadPositions(elements, max, startPos, endPos, start, last);
      }
    }

    method ReadElementsBetweenTwoDates(elements: array<Record>, max: nat, number: int, startTime: u32, endTime: u32)
      returns (ret: int, readNumber: int)
      requires Valid() && max <= elements.Length
      modifies elements
      ensures Outcome(ret, readNumber, elements[..])
           == ReadBetween(view, file, capacity, startTime, endTime, max, number, old(elements[..]))
    {
      if startTime <= oldestTime {
        ret, readNumber := ReadFromOldest(elements, max, number, startTime, endTime);
      } else {
        ret, readNumber := ReadFromStart(elements, max, number, startTime, endTime);
      }
    }

    /** The branch of a delete that empties the store. */
    method EraseAll()
      requires Represents(Live(), file, view, capacity) && file.Some?
      modifies this
      ensures Represents(Live(), file, View(0, [], true), capacity)
      ensures file == Some(NullsFrom(old(file).value, view.oldest, |view.log|))
      ensures view == old(view) && info == old(info)
    {
      hide WriteSlot, NullsFrom;
      SlotsInFile(file.value, view, capacity);
      ghost var before := file.value;
      var position := oldestPosition;
      NullsNone(before, view.oldest);
      for i := 0 to tmNumber
        modifies `file
        invariant position == (view.oldest + i) * ELEMENT_SIZE
        invariant file == Some(NullsFrom(before, view.oldest, i))
      {
        position := ExtendNulls(position, before, view.oldest, i);
      }
      writeTo, tmNumber, oldestPosition, oldestTime, newestTime := 0, 0, 0, 0, 0;
    }

    /** One turn of a delete of everything: nulls the next slot, past the tail too. */
    method ExtendNulls(position: int, ghost before: seq<Record>, ghost start: nat, ghost i: nat) returns (position': int)
      requires start <= |before| && position == (start + i) * ELEMENT_SIZE
      requires file == Some(NullsFrom(before, start, i))
      modifies `file
      ensures file == Some(NullsFrom(before, start, i + 1)) && position' == (start + i + 1) * ELEMENT_SIZE
    {
      hide WriteSlot, NullsFrom;
      SlotOfOffset(start + i, ELEMENT_SIZE);
      NullsOneMore(before, start, i);
      file := Some(WriteSlot(file.value, position / ELEMENT_SIZE, NULL_ELEMENT));
      position' := position + ELEMENT_SIZE;
    }

    /** One turn of a partial delete: nulls the slot of the i-th record and moves on. */
    method WriteNull(browser: int, ghost before: seq<Record>, ghost i: nat) returns (browser': int)
      requires 1 <= capacity && head == 0 && tail == (capacity - 1) * ELEMENT_SIZE
      requires view.oldest < capacity && i < capacity && At(view.oldest, i, capacity) < |before|
      requires browser == At(view.oldest, i, capacity) * ELEMENT_SIZE
      requires file == Some(Overwritten(before, view.oldest, i, capacity, NULL_ELEMENT))
      modifies `file
      ensures file == Some(Overwritten(before, view.oldest, i + 1, capacity, NULL_ELEMENT))
      ensures browser' == At(view.oldest, i + 1, capacity) * ELEMENT_SIZE
    {
      hide WriteSlot, Overwritten;
      ghost var slot := At(view.oldest, i, capacity);
      SlotOfOffset(slot, ELEMENT_SIZE);
      OverwrittenOneMore(before, view.oldest, i, capacity, NULL_ELEMENT);
      WriteInside(file.value, slot, NULL_ELEMENT);
      file := Some(WriteSlot(file.value, browser / ELEMENT_SIZE, NULL_ELEMENT));
      browser' := UpdateBrowserAscending(browser);
    }

    /** The branch of a delete that takes off the `stop` oldest records. */
    method EraseOldest(stop: nat)
      requires Represents(Live(), file, view, capacity) && file.Some? && stop < |view.log|
      modifies this
      ensures view == old(view) && info == old(info)
      ensures file == Some(Overwritten(old(file).value, view.oldest, stop, capacity, NULL_ELEMENT))
      ensures Represents(Live(), file, View(At(view.oldest, stop, capacity), view.log[stop..], true), capacity)
    {
      hide Sorted, Overwritten, Holds, At;
      ghost var before := file.value;
      var browser := oldestPosition;
      SlotsInFile(before, view, capacity);
      OverwrittenNone(before, view.oldest, capacity, NULL_ELEMENT);
      for i := 0 to stop
        modifies `file
        invariant browser == At(view.oldest, i, capacity) * ELEMENT_SIZE
        invariant file == Some(Overwritten(before, view.oldest, i, capacity, NULL_ELEMENT))
      {
        browser := WriteNull(browser, before, i);
      }
      SlotOfOffset(At(view.oldest, stop, capacity), ELEMENT_SIZE);
      DroppedRepresents(Live(), before, view, stop, capacity);
      tmNumber := tmNumber - stop;
      oldestPosition := browser;
      oldestTime := file.value[oldestPosition / ELEMENT_SIZE].time;
    }

    /** The branch of a delete that keeps the newest record. */
    method ErasePart(time: u32) returns (ret: int)
      requires Represents(Live(), file, view, capacity) && time < newestTime
      modifies this
      ensures view == old(view) && info == old(info)
      ensures ret == if LastUpTo(view.log, time) == 0 then 2 else 0
      ensures ret != 0 ==> file == old(file) && Live() == old(Live())
      ensures ret == 0 ==>
                var stop := Taken(view, LastUpTo(view.log, time), capacity);
                && stop < |view.log| && old(file).Some?
                && file == Some(Overwritten(old(file).value, view.oldest, stop, capacity, NULL_ELEMENT))
                && Represents(Live(), file, View(At(view.oldest, stop, capacity), view.log[stop..], true), capacity)
    {
      hide Sorted, Overwritten, CountBetween, Taken;
      var found, endPos := SearchEnd(time);
      if found != 0 {
        return 2;
      }
      CountIsTaken(view, time, capacity);
      ghost var m := LastUpTo(view.log, time);
      SlotOfOffset(view.oldest, ELEMENT_SIZE);
      SlotOfOffset(At(view.oldest, m - 1, capacity), ELEMENT_SIZE);
      var stop := NumberOfElementsBetween(oldestPosition, endPos);
      EraseOldest(stop);
      ret := 0;
    }

    method DeleteUpToTime(time: u32) returns (ret: int)
      requires Valid()
      modifies this
      ensures Valid()
      ensures ret == DeleteCode(old(view), time)
      ensures view == Deleted(old(view), time, capacity)
      ensures file == FileDeleted(old(file), old(view), time, capacity)
      ensures ret == 1 <==> old(file).None?
      ensures ret == 2 <==> old(view).log != [] && forall k :: 0 <= k < |old(view).log| ==> old(view).log[k].time > time
      ensures ret in {0, 1, 2}
      ensures ret != 0 ==> Live() == old(Live())
    {
      DeleteCodeIs(view, time, capacity);
      hide Sorted, IsLastUpTo, Overwritten, NullsFrom, Taken, At;
      if time >= newestTime {
        if file.None? {
          return 1;
        }
        EraseAll();
      } else {
        ret := ErasePart(time);
        if ret != 0 {
          return ret;
        }
      }
      view := Deleted(view, time, capacity);
      var saved := UpdateInfoFile();
      ret := 0;
    }
  }
}
