/**
 The RAM storage as an abstract machine.

 The store keeps no pointer to its oldest element: a View has the slot the next
 write goes to and the log, and the oldest slot lies |log| places behind. The
 log need not be sorted for any of the operations to be defined.
*/
module RamStorageModel {
  import opened Wrappers
  import opened Cyclic
  import opened TimeLog

  /** sizeof(RAM_STORAGE__T_ELEMENT): two 4-byte words and a 5-byte buffer, packed. */
  const ELEMENT_SIZE: int := 13
  const NULL_ELEMENT: Record := Record(0, 0, [0, 0, 0, 0, 0])

  datatype View = View(write: nat, log: seq<Record>)

  /** A storage of length 0 is a ring with no slots: nothing can be written to it. */
  predicate WellFormed(v: View, capacity: nat) {
    |v.log| <= capacity && (v.write < capacity || capacity == v.write == 0)
  }

  /** The slot of the oldest record. */
  function Oldest(v: View, capacity: nat): (slot: nat)
    requires WellFormed(v, capacity) && capacity > 0
    ensures slot < capacity && At(slot, |v.log|, capacity) == v.write
  {
    Back(v.write, |v.log|, capacity)
  }

  /** The slot of the k-th oldest record. */
  function SlotOf(v: View, k: nat, capacity: nat): (slot: nat)
    requires WellFormed(v, capacity) && k < |v.log|
    ensures slot < capacity
  {
    At(Oldest(v, capacity), k, capacity)
  }

  /** The live slots end behind the write slot: counted from there they come round to it again. */
  lemma SlotIs(v: View, k: nat, capacity: nat)
    requires WellFormed(v, capacity) && k < |v.log|
    ensures SlotOf(v, k, capacity) == Round(v.write, capacity - |v.log| + k, capacity)
  {
    var n := v.write + (capacity - |v.log| + k);
    DivisionIs(n, if n < capacity then 0 else 1, SlotOf(v, k, capacity), capacity);
  }

  /** The offset of the tail: &heap[length - 1], whose index wraps round for length 0. */
  function TailOf(capacity: nat): int {
    (if capacity == 0 then 0xFFFF_FFFF else capacity - 1) * ELEMENT_SIZE
  }

  ghost predicate Holds(heap: seq<Record>, v: View, capacity: nat)
    requires WellFormed(v, capacity)
  {
    && capacity <= |heap|
    && forall k: nat :: k < |v.log| ==> heap[SlotOf(v, k, capacity)] == v.log[k]
  }

  function Stored(v: View, e: Record, capacity: nat): View
    requires WellFormed(v, capacity)
  {
    if |v.log| < capacity then View(At(v.write, 1, capacity), v.log + [e]) else v
  }

  // ------------------------------------------------------ hand-written counts

  /** get_number_of_elements_between_positions, over slots. */
  function NumberBetween(start: nat, end: nat, capacity: nat): int {
    if start > end then
      (if start == 0 || start == capacity - 1 then 1
       else if end == 0 || end == capacity - 1 then 1
       else 0)
      + (capacity - 1 - start) + end + 1
    else end - start + 1
  }

  /** The elements in the bytes of n elements, once those are held in an unsigned int. */
  function Narrowed(n: nat): (r: nat)
    ensures r <= n
    ensures n * ELEMENT_SIZE < 0x1_0000_0000 ==> r == n
  {
    n * ELEMENT_SIZE % 0x1_0000_0000 / ELEMENT_SIZE
  }

  /** get_abs_distance_between_address, over slots: how many elements a forward search looks at. */
  function ReadableBetween(start: nat, end: nat, capacity: nat): nat
    requires start < capacity && end < capacity
  {
    Narrowed(if end >= start then end - start + 1
             else
               (if start == 0 || start == capacity - 1 then 1 else 0)
               + (if end == 0 || end == capacity - 1 then 1 else 0)
               + (capacity - 1 - start) + end)
  }

  /** From the i-th to the j-th record the two counts are at most the true number, and the first at least one. */
  lemma {:induction false} CountsInRange(v: View, i: nat, j: nat, capacity: nat)
    requires WellFormed(v, capacity) && i <= j < |v.log|
    ensures 1 <= NumberBetween(SlotOf(v, i, capacity), SlotOf(v, j, capacity), capacity) <= j - i + 1
    ensures ReadableBetween(SlotOf(v, i, capacity), SlotOf(v, j, capacity), capacity) <= j - i + 1
  {
    hide Narrowed;
  }

  // ----------------------------------------------------------------- searches

  /** Scanning down from `below`: the first record with time >= `time` whose predecessor is older, or -1. */
  ghost function LatestStart(log: seq<Record>, below: nat, time: int): (k: int)
    requires below <= |log|
    ensures -1 <= k < below
    ensures k >= 0 ==> log[k].time >= time && (k == 0 || log[k - 1].time < time)
  {
    if below == 0 then -1
    else if log[below - 1].time >= time && (below == 1 || log[below - 2].time < time) then below - 1
    else LatestStart(log, below - 1, time)
  }

  lemma {:induction false} LatestStartOne(log: seq<Record>, below: nat, time: int)
    requires below <= |log|
    ensures LatestStart(log, below, time)
         == if below == 0 then -1
            else if log[below - 1].time >= time && (below == 1 || log[below - 2].time < time) then below - 1
            else LatestStart(log, below - 1, time)
  {
  }

  /** It is the newest such record. */
  lemma {:induction false} LatestStartIs(log: seq<Record>, below: nat, time: int, i: nat)
    requires below <= |log| && LatestStart(log, below, time) < i < below
    ensures log[i].time < time || (i > 0 && log[i - 1].time >= time)
  {
    if i < below - 1 {
      LatestStartIs(log, below - 1, time, i);
    }
  }

  /** Scanning up from k to `stop`: the first record in [floor, end] that is the last looked at or precedes a later one. */
  ghost function FirstEnd(log: seq<Record>, k: nat, stop: nat, floor: int, end: int): (j: int)
    requires k <= stop <= |log|
    ensures j == -1 || (k <= j < stop && floor <= log[j].time <= end)
    decreases stop - k
  {
    if k == stop then -1
    else if floor <= log[k].time <= end && (k + 1 == stop || log[k + 1].time > end) then k
    else FirstEnd(log, k + 1, stop, floor, end)
  }

  /** It is the first such record. */
  lemma {:induction false} FirstEndIs(log: seq<Record>, k: nat, stop: nat, floor: int, end: int, i: nat)
    requires k <= i < stop <= |log|
    requires var j := FirstEnd(log, k, stop, floor, end); j == -1 || i <= j
    ensures i == FirstEnd(log, k, stop, floor, end)
            <==> floor <= log[i].time <= end && (i + 1 == stop || log[i + 1].time > end)
    decreases stop - k
  {
    if k < i {
      FirstEndIs(log, k + 1, stop, floor, end, i);
    }
  }

  /** Scanning down from j while the records stay at or below `time`. */
  ghost function RunStart(log: seq<Record>, j: nat, time: int): (k: nat)
    requires j < |log| && log[j].time <= time
    ensures k <= j && log[k].time <= time && (k == 0 || log[k - 1].time > time)
  {
    if j == 0 || log[j - 1].time > time then j else RunStart(log, j - 1, time)
  }

  lemma {:induction false} RunStartOne(log: seq<Record>, j: nat, time: int)
    requires j < |log| && log[j].time <= time
    ensures RunStart(log, j, time) == if j == 0 || log[j - 1].time > time then j else RunStart(log, j - 1, time)
  {
  }

  /** The run is all the records there are up to `time` without a gap. */
  lemma {:induction false} RunStartIs(log: seq<Record>, j: nat, time: int, k: nat)
    requires k <= j < |log| && (k == 0 || log[k - 1].time > time)
    requires forall i :: k <= i <= j ==> log[i].time <= time
    ensures RunStart(log, j, time) == k
  {
    if k < j {
      RunStartIs(log, j - 1, time, k);
    }
  }

  ghost predicate IsMinimum(log: seq<Record>, time: int) {
    && (exists k :: 0 <= k < |log| && log[k].time == time)
    && (forall k :: 0 <= k < |log| ==> time <= log[k].time)
  }

  // ----------------------------------------------------------------- reading

  /** The record where a read that starts at the i-th one stops, or -1. */
  ghost function EndSearch(v: View, capacity: nat, i: nat, end: int): (j: int)
    requires WellFormed(v, capacity) && i < |v.log|
    ensures j == -1 || i <= j < |v.log|
  {
    CountsInRange(v, i, |v.log| - 1, capacity);
    var readable := ReadableBetween(SlotOf(v, i, capacity), SlotOf(v, |v.log| - 1, capacity), capacity);
    FirstEnd(v.log, i, i + readable, v.log[i].time, end)
  }

  ghost function ReadBetween(v: View, capacity: nat, start: int, end: int,
                             max: nat, number: int, buffer: seq<Record>): Outcome
    requires WellFormed(v, capacity) && max <= |buffer|
  {
    var i := LatestStart(v.log, |v.log|, start);
    if i < 0 then Outcome(-1, number, buffer)
    else
      var j := EndSearch(v, capacity, i, end);
      if j < 0 then Outcome(-2, number, buffer)
      else
        CountsInRange(v, i, j, capacity);
        var n := NumberBetween(SlotOf(v, i, capacity), SlotOf(v, j, capacity), capacity);
        if n > max then Outcome(-3, n, buffer)
        else Outcome(0, n, v.log[i..i + n] + buffer[n..])
  }

  // ---------------------------------------------------------------- deleting

  /** The log with n records from the k-th zeroed. */
  function Zeroed(log: seq<Record>, k: nat, n: nat): (r: seq<Record>)
    requires k + n <= |log|
    ensures |r| == |log|
  {
    log[..k] + seq(n, _ => NULL_ELEMENT) + log[k + n..]
  }

  /** The log after zeroing n records from the k-th and forgetting the n oldest. */
  function Dropped(log: seq<Record>, k: nat, n: nat): seq<Record>
    requires k + n <= |log|
  {
    Zeroed(log, k, n)[n..]
  }

  /** How many elements a delete takes, from the k-th record to the m-th. */
  ghost function RunLength(v: View, k: nat, m: nat, capacity: nat): (n: nat)
    requires WellFormed(v, capacity) && k < m <= |v.log|
    ensures 1 <= n <= m - k
  {
    CountsInRange(v, k, m - 1, capacity);
    NumberBetween(SlotOf(v, k, capacity), SlotOf(v, m - 1, capacity), capacity)
  }

  ghost function Deleted(v: View, time: int, capacity: nat): View
    requires WellFormed(v, capacity)
  {
    var m := LastUpTo(v.log, time);
    if m == 0 then v
    else
      var k := RunStart(v.log, m - 1, time);
      View(v.write, Dropped(v.log, k, RunLength(v, k, m, capacity)))
  }

  /** The heap after a delete: the counted elements are nulls, every other cell is as it was. */
  ghost function HeapDeleted(heap: seq<Record>, v: View, time: int, capacity: nat): seq<Record>
    requires WellFormed(v, capacity)
  {
    var m := LastUpTo(v.log, time);
    if m == 0 then heap
    else
      var k := RunStart(v.log, m - 1, time);
      Overwritten(heap, SlotOf(v, k, capacity), RunLength(v, k, m, capacity), capacity, NULL_ELEMENT)
  }
}
