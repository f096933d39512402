/** The RAM storage over a static heap, moving byte addresses (relative to the heap's start) in place. */
module RamStorage {
  import opened Wrappers
  import opened Cyclic
  import opened TimeLog
  import opened RamStorageModel

  class Storage {
    const heap: array<Record>

    var head: int
    var tail: int
    var writeTo: int
    var readFrom: int
    var numberOfElements: nat
    var maxNumberOfElements: u32

    ghost var view: View

    ghost predicate Valid()
      reads this, heap
    {
      && WellFormed(view, maxNumberOfElements)
      && head == 0 && tail == TailOf(maxNumberOfElements)
      && writeTo == view.write * ELEMENT_SIZE && readFrom == head
      && numberOfElements == |view.log|
      && maxNumberOfElements <= heap.Length
      && forall k: nat :: k < |view.log| ==> heap[SlotOf(view, k, maxNumberOfElements)] == view.log[k]
    }

    /** Static storage before any initialisation. */
    constructor (maxElements: nat)
      ensures fresh(heap) && heap.Length == maxElements && maxNumberOfElements == 0 && numberOfElements == 0
    {
      heap := new Record[maxElements](_ => NULL_ELEMENT);
      head, tail, writeTo, readFrom, numberOfElements, maxNumberOfElements := 0, 0, 0, 0, 0, 0;
    }

    /** Wipes the whole heap, then sets the handler up; too long a length is refused after the wipe. */
    method Init(length: u32) returns (ret: int)
      modifies this, heap
      ensures ret == if length <= heap.Length then 0 else 1
      ensures ret == 0 ==> Valid() && maxNumberOfElements == length && view == View(0, [])
      ensures forall s :: 0 <= s < heap.Length ==> heap[s] == NULL_ELEMENT
      ensures ret == 1 ==> maxNumberOfElements == old(maxNumberOfElements) && numberOfElements == old(numberOfElements)
      ensures ret == 1 ==> head == old(head) && tail == old(tail) && writeTo == old(writeTo) && readFrom == old(readFrom)
      ensures ret == 1 && old(Valid()) ==>
                Valid() && view == View(old(view).write, seq(|old(view).log|, _ => NULL_ELEMENT))
    {
      for i := 0 to heap.Length
        modifies heap
        invariant forall s :: 0 <= s < i ==> heap[s] == NULL_ELEMENT
      {
        heap[i] := NULL_ELEMENT;
      }
      if length <= heap.Length {
        head := 0;
        tail := (length - 1) % 0x1_0000_0000 * ELEMENT_SIZE;
        writeTo := head;
        readFrom := head;
        numberOfElements := 0;
        maxNumberOfElements := length;
        view := View(0, []);
        ret := 0;
      } else {
        view := View(view.write, seq(|view.log|, _ => NULL_ELEMENT));
        ret := 1;
      }
    }

    /** One element back, from the head to the tail. */
    function Descend(browser: int): int
      reads this
    {
      if browser - ELEMENT_SIZE < head then tail else browser - ELEMENT_SIZE
    }

    /** One element on, from the tail to the head. */
    function Ascend(browser: int): int
      reads this
    {
      if browser + ELEMENT_SIZE > tail then head else browser + ELEMENT_SIZE
    }

    function TimeAt(address: int): (time: int)
      requires 0 <= address && address / ELEMENT_SIZE < heap.Length
      reads heap
    {
      heap[address / ELEMENT_SIZE].time
    }

    /** The byte address of the k-th oldest record. */
    ghost function AddressOf(k: nat): (a: int)
      requires WellFormed(view, maxNumberOfElements) && k < |view.log|
      reads this
      ensures 0 <= a <= (maxNumberOfElements - 1) * ELEMENT_SIZE && a % ELEMENT_SIZE == 0
    {
      SlotOf(view, k, maxNumberOfElements) * ELEMENT_SIZE
    }

    lemma AtRecord(k: nat)
      requires Valid() && k < |view.log|
      ensures AddressOf(k) / ELEMENT_SIZE < heap.Length && heap[AddressOf(k) / ELEMENT_SIZE] == view.log[k]
      ensures TimeAt(AddressOf(k)) == view.log[k].time
    {
      SlotOfOffset(SlotOf(view, k, maxNumberOfElements), ELEMENT_SIZE);
    }

    /** Between calls the handler and the heap say what they should of the log. */
    lemma CellsAgree()
      requires Valid()
      ensures head == readFrom == 0 && numberOfElements == |view.log| <= maxNumberOfElements <= heap.Length
      ensures maxNumberOfElements > 0 ==> tail == (maxNumberOfElements - 1) * ELEMENT_SIZE
      ensures writeTo == view.write * ELEMENT_SIZE && (maxNumberOfElements > 0 ==> view.write < maxNumberOfElements)
      ensures forall k: nat :: k < numberOfElements ==>
                heap[Round(view.write, maxNumberOfElements - numberOfElements + k, maxNumberOfElements)] == view.log[k]
    {
      forall k: nat | k < numberOfElements
        ensures heap[Round(view.write, maxNumberOfElements - numberOfElements + k, maxNumberOfElements)] == view.log[k]
      {
        SlotIs(view, k, maxNumberOfElements);
      }
    }

    lemma StepDown(k: nat)
      requires Valid() && 0 < k < |view.log|
      ensures Descend(AddressOf(k)) == AddressOf(k - 1)
    {
    }

    lemma StepUp(k: nat)
      requires WellFormed(view, maxNumberOfElements) && k + 1 < |view.log|
      requires head == 0 && tail == TailOf(maxNumberOfElements)
      ensures Ascend(AddressOf(k)) == AddressOf(k + 1)
    {
    }

    /** One back from the write address is the newest record. */
    lemma AtNewest()
      requires Valid()
      ensures view.log != [] ==>
                Descend(writeTo) == AddressOf(|view.log| - 1)
    {
      SlotOfOffset(view.write, ELEMENT_SIZE);
    }

    /** Even of an empty store the slot behind the write address can be read. */
    lemma BehindWrite()
      requires Valid() && maxNumberOfElements > 0
      ensures 0 <= Descend(writeTo) <= tail
      ensures Descend(writeTo) / ELEMENT_SIZE == Back(view.write, 1, maxNumberOfElements)
    {
      SlotOfOffset(Back(view.write, 1, maxNumberOfElements), ELEMENT_SIZE);
    }

    method WriteElement(element: Record) returns (ret: int)
      requires Valid()
      modifies this, heap
      ensures Valid() && maxNumberOfElements == old(maxNumberOfElements)
      ensures ret == if |old(view).log| < maxNumberOfElements then 0 else 1
      ensures view == Stored(old(view), element, maxNumberOfElements)
      ensures heap[..] == if ret == 0 then old(heap[..])[old(view).write := element] else old(heap[..])
    {
      if numberOfElements >= maxNumberOfElements {
        return 1;
      }
      ghost var before := heap[..];
      SlotOfOffset(view.write, ELEMENT_SIZE);
      heap[writeTo / ELEMENT_SIZE] := element;
      writeTo := Ascend(writeTo);
      numberOfElements := numberOfElements + 1;
      StoredHeld(before, heap[..], view, element, maxNumberOfElements);
      view := Stored(view, element, maxNumberOfElements);
      ret := 0;
    }

    method SearchElementStartTime(time: u32) returns (r: Option<int>)
      requires Valid()
      ensures var i := LatestStart(view.log, |view.log|, time);
              if i < 0 then r == None else r == Some(AddressOf(i))
    {
      hide SlotOf, AddressOf, Descend, TimeAt, LatestStart;
      AtNewest();
      var browser := Descend(writeTo);
      var counter := 0;
      LatestStartOne(view.log, 0, time);
      while counter < numberOfElements
        invariant counter <= numberOfElements
        invariant counter < numberOfElements ==> browser == AddressOf(numberOfElements - counter - 1)
        invariant LatestStart(view.log, |view.log|, time) == LatestStart(view.log, numberOfElements - counter, time)
      {
        LatestStartOne(view.log, numberOfElements - counter, time);
        var found := IsStart(time, browser, counter);
        if found {
          return Some(browser);
        }
        if counter + 1 < numberOfElements {
          StepDown(numberOfElements - counter - 1);
        }
        browser := Descend(browser);
        counter := counter + 1;
      }
      r := None;
    }

    /** One turn of that scan: the element is recent enough and the one before it, if there is one, is not. */
    method IsStart(time: u32, browser: int, counter: nat) returns (found: bool)
      requires Valid() && counter < numberOfElements && browser == AddressOf(numberOfElements - counter - 1)
      ensures var k := numberOfElements - counter - 1;
              found == (view.log[k].time >= time && (k == 0 || view.log[k - 1].time < time))
    {
      hide SlotOf, AddressOf, Descend, TimeAt;
      ghost var k := numberOfElements - counter - 1;
      AtRecord(k);
      if k > 0 {
        StepDown(k);
        AtRecord(k - 1);
      }
      found := false;
      if TimeAt(browser) >= time {
        if counter + 1 == numberOfElements {
          found := true;
        } else if TimeAt(Descend(browser)) < time {
          found := true;
        }
      }
    }

    /** The byte distance, narrowed to an unsigned int. */
    function AbsDistanceBetweenAddress(start: int, end: int): int
      reads this
    {
      (if end >= start then end - start + ELEMENT_SIZE
       else
         (if start == head || start == tail then ELEMENT_SIZE else 0)
         + (if end == head || end == tail then ELEMENT_SIZE else 0)
         + (tail - start) + (end - head))
      % 0x1_0000_0000
    }

    function NumberOfElementsBetween(start: int, end: int): int
      reads this
    {
      if start > end then
        (if start == head || start == tail then 1
         else if end == head || end == tail then 1
         else 0)
        + ((tail - start) + (end - head)) / ELEMENT_SIZE + 1
      else (end - start) / ELEMENT_SIZE + 1
    }

    /** On element addresses both byte formulas are the slot formulas. */
    lemma CountsOfSlots(start: nat, end: nat)
      requires head == 0 && tail == TailOf(maxNumberOfElements)
      requires start < maxNumberOfElements && end < maxNumberOfElements
      ensures NumberOfElementsBetween(start * ELEMENT_SIZE, end * ELEMENT_SIZE)
           == NumberBetween(start, end, maxNumberOfElements)
      ensures AbsDistanceBetweenAddress(start * ELEMENT_SIZE, end * ELEMENT_SIZE) / ELEMENT_SIZE
           == ReadableBetween(start, end, maxNumberOfElements)
    {
    }

    /** The loop of the end search: looks at `maxReadable` elements from the i-th record. */
    method ScanForEnd(time: u32, startElem: int, maxReadable: nat, ghost i: nat) returns (r: Option<int>)
      requires Valid() && i < |view.log| && i + maxReadable <= |view.log|
      requires startElem == AddressOf(i)
      ensures var j := FirstEnd(view.log, i, i + maxReadable, view.log[i].time, time);
              if j < 0 then r == None else r == Some(AddressOf(j))
    {
      hide SlotOf, AddressOf, Ascend, TimeAt;
      AtRecord(i);
      var startTime := TimeAt(startElem);
      var browser := startElem;
      var counter := 0;
      ghost var k, stop := i, i + maxReadable;
      while counter < maxReadable
        invariant counter <= maxReadable && k == i + counter
        invariant k < stop ==> browser == AddressOf(k)
        invariant FirstEnd(view.log, i, stop, startTime, time) == FirstEnd(view.log, k, stop, startTime, time)
      {
        AtRecord(k);
        if k + 1 < stop {
          StepUp(k);
          AtRecord(k + 1);
        }
        if TimeAt(browser) <= time && TimeAt(browser) >= startTime {
          if counter + 1 == maxReadable {
            return Some(browser);
          }
          if TimeAt(Ascend(browser)) > time {
            return Some(browser);
          }
        }
        browser := Ascend(browser);
        counter := counter + 1;
        k := k + 1;
      }
      r := None;
    }

    method SearchElementEndTime(time: u32, startElem: Option<int>, ghost i: nat) returns (r: Option<int>)
      requires Valid()
      requires startElem.Some? ==>
                 i < |view.log| && startElem.value == AddressOf(i)
      ensures startElem.None? ==> r == None
      ensures startElem.Some? ==>
                var j := EndSearch(view, maxNumberOfElements, i, time);
                if j < 0 then r == None else r == Some(AddressOf(j))
    {
      hide SlotOf, FirstEnd, ReadableBetween;
      if startElem.None? {
        return None;
      }
      AtNewest();
      var lastWritten := Descend(writeTo);
      CountsOfSlots(SlotOf(view, i, maxNumberOfElements), SlotOf(view, |view.log| - 1, maxNumberOfElements));
      CountsInRange(view, i, |view.log| - 1, maxNumberOfElements);
      var maxReadable := AbsDistanceBetweenAddress(startElem.value, lastWritten) / ELEMENT_SIZE;
      r := ScanForEnd(time, startElem.value, maxReadable, i);
    }

    method ReadElementsBetweenTwoDates(elements: array<Record>, max: nat, number: int, startTime: u32, endTime: u32)
      returns (ret: int, readNumber: int)
      requires Valid() && max <= elements.Length && elements != heap
      modifies elements
      ensures Valid()
      ensures Outcome(ret, readNumber, elements[..])
           == ReadBetween(view, maxNumberOfElements, startTime, endTime, max, number, old(elements[..]))
    {
      hide SlotOf, LatestStart, EndSearch, NumberBetween;
      readNumber := number;
      ghost var i := LatestStart(view.log, |view.log|, startTime);
      var first := SearchElementStartTime(startTime);
      if first.None? {
        return -1, readNumber;
      }
      var last := SearchElementEndTime(endTime, first, i);
      if last.None? {
        return -2, readNumber;
      }
      ghost var j := EndSearch(view, maxNumberOfElements, i, endTime);
      CountsOfSlots(SlotOf(view, i, maxNumberOfElements), SlotOf(view, j, maxNumberOfElements));
      CountsInRange(view, i, j, maxNumberOfElements);
      readNumber := NumberOfElementsBetween(first.value, last.value);
      assert readNumber > 0;  // so the code 1 for an empty read is never returned
      if readNumber > max {
        return -3, readNumber;
      }
      CopyElements(elements, first.value, readNumber, i);
      ret := 0;
    }

    /** Copies `number` elements from the i-th record on into the caller's buffer. */
    method CopyElements(elements: array<Record>, first: int, number: nat, ghost i: nat)
      requires Valid() && elements != heap && number <= elements.Length
      requires 1 <= number && i + number <= |view.log|
      requires first == AddressOf(i)
      modifies elements
      ensures elements[..] == view.log[i..i + number] + old(elements[..])[number..]
    {
      hide SlotOf;
      ghost var buffer, slice := elements[..], view.log[i..i + number];
      var browser := first;
      for c := 0 to number
        invariant c < number ==> browser == AddressOf(i + c)
        invariant forall p :: 0 <= p < c ==> elements[p] == slice[p]
        invariant forall p :: c <= p < elements.Length ==> elements[p] == buffer[p]
      {
        AtRecord(i + c);
        assert slice[c] == view.log[i + c];
        elements[c] := heap[browser / ELEMENT_SIZE];
        if c + 1 < number {
          StepUp(i + c);
        }
        browser := Ascend(browser);
      }
    }

    /**
     The oldest time, found by comparing every live record. An empty store
     still reads the slot behind the write address.
    */
    method GetOldestTime() returns (time: int)
      requires Valid() && maxNumberOfElements > 0
      ensures view.log != [] ==> IsMinimum(view.log, time)
      ensures view.log == [] ==> time == heap[Back(view.write, 1, maxNumberOfElements)].time
    {
      hide SlotOf, IsMinimum;
      AtNewest();
      BehindWrite();
      var browser := Descend(writeTo);
      if numberOfElements > 0 {
        AtRecord(|view.log| - 1);
      }
      time := TimeAt(browser);
      var counter := 1;
      ghost var k := |view.log| - 1;
      MinimumOfNewest(view.log);
      while counter < numberOfElements
        invariant numberOfElements > 0 ==> 0 <= k && k == numberOfElements - counter && browser == AddressOf(k)
        invariant numberOfElements > 0 ==> IsMinimum(view.log[k..], time)
        invariant numberOfElements == 0 ==> time == heap[Back(view.write, 1, maxNumberOfElements)].time
      {
        StepDown(k);
        k := k - 1;
        AtRecord(k);
        MinimumOneMore(view.log, k, time);
        browser := Descend(browser);
        if TimeAt(browser) <= time {
          time := TimeAt(browser);
        }
        counter := counter + 1;
      }
      assert numberOfElements > 0 ==> k == 0 && view.log[0..] == view.log;
    }

    /** The newest time is the time of the last record written. */
    method GetNewestTime() returns (time: int)
      requires Valid() && maxNumberOfElements > 0
      ensures view.log != [] ==> time == view.log[|view.log| - 1].time
      ensures view.log == [] ==> time == heap[Back(view.write, 1, maxNumberOfElements)].time
    {
      AtNewest();
      BehindWrite();
      if numberOfElements > 0 {
        AtRecord(|view.log| - 1);
      }
      time := TimeAt(Descend(writeTo));
    }

    method DeleteUpToTime(time: u32) returns (ret: int)
      requires Valid()
      modifies this, heap
      ensures Valid() && maxNumberOfElements == old(maxNumberOfElements)
      ensures ret == if LastUpTo(old(view).log, time) == 0 then -1 else 0
      ensures ret == -1 <==> forall k :: 0 <= k < |old(view).log| ==> old(view).log[k].time > time
      ensures view == Deleted(old(view), time, maxNumberOfElements)
      ensures heap[..] == HeapDeleted(old(heap[..]), old(view), time, maxNumberOfElements)
    {
      hide SlotOf, NumberBetween, RunStart, Zeroed, Overwritten;
      ghost var m := LastUpTo(view.log, time);
      var found, browser, endDelete := FindRun(time, m);
      if !found {
        return -1;
      }
      ghost var k := RunStart(view.log, m - 1, time);
      CountsOfSlots(SlotOf(view, k, maxNumberOfElements), SlotOf(view, m - 1, maxNumberOfElements));
      CountsInRange(view, k, m - 1, maxNumberOfElements);
      var number := NumberOfElementsBetween(browser, endDelete.value);
      EraseRun(browser, number, k);
      ret := 0;
    }

    /** The delete's search has looked at the `counter` newest records and stands at the next one. */
    ghost predicate Searching(time: u32, browser: int, counter: nat, end: Option<int>, m: nat)
      requires WellFormed(view, maxNumberOfElements) && IsLastUpTo(view.log, time, m)
      reads this
    {
      var k := |view.log| - 1 - counter;
      && k >= -1
      && (k >= 0 ==> browser == AddressOf(k))
      && (end.None? ==> m <= k + 1)
      && (end.Some? ==>
            && 0 <= k < m && end.value == AddressOf(m - 1)
            && view.log[k].time <= time
            && RunStart(view.log, m - 1, time) == RunStart(view.log, k, time))
    }

    /** The search is over: `end` is the newest record at or below `time`, `browser` the start of its run. */
    ghost predicate Located(time: u32, browser: int, end: Option<int>, m: nat)
      requires WellFormed(view, maxNumberOfElements) && IsLastUpTo(view.log, time, m)
      reads this
    {
      && m > 0
      && end == Some(AddressOf(m - 1))
      && browser == AddressOf(RunStart(view.log, m - 1, time))
    }

    /** One turn of the search loop: stops at the start of the run, or moves one element back. */
    method SearchStep(time: u32, browser: int, counter: nat, end: Option<int>, ghost m: nat)
      returns (found: bool, browser': int, end': Option<int>)
      requires Valid() && IsLastUpTo(view.log, time, m)
      requires counter < numberOfElements && Searching(time, browser, counter, end, m)
      ensures found ==> Located(time, browser', end', m)
      ensures !found ==> Searching(time, browser', counter + 1, end', m)
    {
      hide SlotOf, AddressOf, Descend, TimeAt, RunStart, IsLastUpTo;
      ghost var k := |view.log| - 1 - counter;
      AtRecord(k);
      BoundaryAt(view.log, time, m, k);
      if view.log[k].time <= time {
        RunStartOne(view.log, k, time);
      }
      if k > 0 {
        StepDown(k);
        AtRecord(k - 1);
      }
      found, browser', end' := false, browser, end;
      if TimeAt(browser) <= time {
        if end.None? {
          end' := Some(browser);
        }
        if counter + 1 == numberOfElements {
          found := true;
        } else if TimeAt(Descend(browser)) > time {
          found := true;
        }
      }
      if !found {
        browser' := Descend(browser);
      }
    }

    /** The backward search of a delete: the newest record at or below `time`, and the start of its run. */
    method FindRun(time: u32, ghost m: nat) returns (found: bool, browser: int, end: Option<int>)
      requires Valid() && IsLastUpTo(view.log, time, m)
      ensures found == (m > 0)
      ensures found ==> Located(time, browser, end, m)
    {
      hide SlotOf, RunStart;
      AtNewest();
      var counter := 0;
      found, browser, end := false, Descend(writeTo), None;
      while !found && counter < numberOfElements
        invariant counter <= numberOfElements
        invariant found ==> Located(time, browser, end, m)
        invariant !found ==> Searching(time, browser, counter, end, m)
        decreases numberOfElements - counter, !found
      {
        found, browser, end := SearchStep(time, browser, counter, end, m);
        if !found {
          counter := counter + 1;
        }
      }
    }

    /** Zeroes `number` elements from the k-th record on and forgets that many of the oldest. */
    method EraseRun(first: int, number: nat, ghost k: nat)
      requires Valid() && 1 <= number && k + number <= |view.log|
      requires first == AddressOf(k)
      modifies this, heap
      ensures Valid() && maxNumberOfElements == old(maxNumberOfElements)
      ensures view == View(old(view).write, Dropped(old(view).log, k, number))
      ensures heap[..] == Overwritten(old(heap[..]), SlotOf(old(view), k, maxNumberOfElements), number,
                                      maxNumberOfElements, NULL_ELEMENT)
    {
      hide Overwritten, Zeroed;
      ghost var before, start := heap[..], SlotOf(view, k, maxNumberOfElements);
      var browser := first;
      OverwrittenNone(before, start, maxNumberOfElements, NULL_ELEMENT);
      for counter := 0 to number
        modifies heap, `numberOfElements
        invariant numberOfElements == |view.log| - counter
        invariant browser == At(start, counter, maxNumberOfElements) * ELEMENT_SIZE
        invariant heap[..] == Overwritten(before, start, counter, maxNumberOfElements, NULL_ELEMENT)
      {
        OverwrittenOneMore(before, start, counter, maxNumberOfElements, NULL_ELEMENT);
        browser := EraseAt(browser, At(start, counter, maxNumberOfElements));
        numberOfElements := numberOfElements - 1;
      }
      ErasedHeld(before, view, k, number, maxNumberOfElements);
      view := View(view.write, Dropped(view.log, k, number));
    }

    /** Zeroes the element in one slot and moves on. */
    method EraseAt(browser: int, ghost slot: nat) returns (browser': int)
      requires head == 0 && tail == TailOf(maxNumberOfElements) && maxNumberOfElements <= heap.Length
      requires slot < maxNumberOfElements && browser == slot * ELEMENT_SIZE
      modifies heap
      ensures heap[..] == old(heap[..])[slot := NULL_ELEMENT]
      ensures browser' == At(slot, 1, maxNumberOfElements) * ELEMENT_SIZE
    {
      SlotOfOffset(slot, ELEMENT_SIZE);
      heap[browser / ELEMENT_SIZE] := NULL_ELEMENT;
      browser' := Ascend(browser);
    }
  }

  lemma BoundaryAt(log: seq<Record>, time: int, m: nat, k: nat)
    requires IsLastUpTo(log, time, m) && k < |log|
    ensures m <= |log|
    ensures log[k].time <= time ==> k < m
    ensures m == k + 1 ==> log[k].time <= time
  {
  }

  lemma {:induction false} MinimumOfNewest(log: seq<Record>)
    ensures log != [] ==> IsMinimum(log[|log| - 1..], log[|log| - 1].time)
  {
    if log != [] {
      assert log[|log| - 1..][0].time == log[|log| - 1].time;
    }
  }

  lemma {:induction false} MinimumOneMore(log: seq<Record>, k: nat, time: int)
    requires k < |log| && IsMinimum(log[k + 1..], time)
    ensures IsMinimum(log[k..], if log[k].time <= time then log[k].time else time)
  {
    var min := if log[k].time <= time then log[k].time else time;
    var j :| 0 <= j < |log[k + 1..]| && log[k + 1..][j].time == time;
    assert log[k..][0] == log[k] && log[k..][j + 1] == log[k + 1..][j];
    forall i | 0 <= i < |log[k..]|
      ensures min <= log[k..][i].time
    {
      assert i > 0 ==> log[k..][i] == log[k + 1..][i - 1];
    }
  }

  /**
   Zeroing n elements from the k-th record's slot and lowering the count by n
   leaves a heap that holds the log so zeroed, less its n oldest records.
  */
  lemma {:induction false} ErasedHeld(heap: seq<Record>, v: View, k: nat, n: nat, capacity: nat)
    requires WellFormed(v, capacity) && Holds(heap, v, capacity) && k + n <= |v.log| && k < |v.log|
    ensures Holds(Overwritten(heap, SlotOf(v, k, capacity), n, capacity, NULL_ELEMENT),
                  View(v.write, Dropped(v.log, k, n)), capacity)
  {
    hide InRun, Zeroed, At;
    var start := SlotOf(v, k, capacity);
    var heap', v' := Overwritten(heap, start, n, capacity, NULL_ELEMENT), View(v.write, Dropped(v.log, k, n));
    forall j: nat | j < |v'.log|
      ensures heap'[SlotOf(v', j, capacity)] == v'.log[j]
    {
      SlotAfterDrop(v, v', n, j, capacity);
      assert v'.log[j] == Zeroed(v.log, k, n)[n + j];
      ZeroedWhere(v.log, k, n, n + j);
      SlotInRun(v, k, n + j, n, capacity);
    }
  }

  lemma {:induction false} SlotAfterDrop(v: View, v': View, n: nat, j: nat, capacity: nat)
    requires WellFormed(v, capacity) && WellFormed(v', capacity) && v'.write == v.write
    requires |v'.log| == |v.log| - n && j < |v'.log|
    ensures SlotOf(v', j, capacity) == SlotOf(v, n + j, capacity)
  {
  }

  lemma ZeroedWhere(log: seq<Record>, k: nat, n: nat, j: nat)
    requires k + n <= |log| && j < |log|
    ensures Zeroed(log, k, n)[j] == if k <= j < k + n then NULL_ELEMENT else log[j]
  {
  }

  /** The slot of the j-th record is among the n from the k-th one's exactly when j is among k..k+n. */
  lemma {:induction false} SlotInRun(v: View, k: nat, j: nat, n: nat, capacity: nat)
    requires WellFormed(v, capacity) && k + n <= |v.log| && k < |v.log| && j < |v.log|
    ensures InRun(SlotOf(v, j, capacity), SlotOf(v, k, capacity), n, capacity) <==> k <= j < k + n
  {
  }

  /** Writing the free slot extends the held log by the element. */
  lemma {:induction false} StoredHeld(heap: seq<Record>, heap': seq<Record>, v: View, e: Record, capacity: nat)
    requires WellFormed(v, capacity) && Holds(heap, v, capacity) && |v.log| < capacity
    requires heap' == heap[v.write := e]
    ensures WellFormed(Stored(v, e, capacity), capacity) && Holds(heap', Stored(v, e, capacity), capacity)
  {
    var v' := Stored(v, e, capacity);
    forall k: nat | k < |v'.log|
      ensures heap'[SlotOf(v', k, capacity)] == v'.log[k]
    {
      if k < |v.log| {
        assert SlotOf(v', k, capacity) == SlotOf(v, k, capacity);
      }
    }
  }
}
