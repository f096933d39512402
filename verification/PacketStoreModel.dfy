/**
 The SD-card packet store as an abstract machine.

 A View is what a user of the store can tell of its state: the chronological
 log, the ring slot where the log starts, and whether the data file exists.
 The operations below say what each call does to a View; the class in
 PacketStore.dfy works on byte positions, cached times and a file, and is
 proved to do the same.
*/
module PacketStoreModel {
  import opened Wrappers
  import opened Cyclic
  import opened TimeLog

  /** sizeof(PACKET_STORE_SDCARD__T_ELEMENT): two 4-byte words and 10 bytes of telemetry, packed. */
  const ELEMENT_SIZE: int := 18
  const TM_LENGTH: nat := 10
  const NULL_ELEMENT: Record := Record(0, 0, [0, 0, 0, 0, 0, 0, 0, 0, 0, 0])

  /** The file handler, as it is kept in memory and in the info file. */
  datatype Handler = Handler(head: int, tail: int, writeTo: int, tmNumber: int,
                             oldestPosition: int, oldestTime: int, newestTime: int)

  datatype View = View(oldest: nat, log: seq<Record>, onDisk: bool)

  const EMPTY: View := View(0, [], false)

  ghost predicate WellFormed(v: View, capacity: nat) {
    && 1 <= capacity < 0x1_0000_0000
    && v.oldest < capacity
    && |v.log| <= capacity
    && Sorted(v.log)
    && (v.log == [] ==> v.oldest == 0)
    && (v.log != [] ==> v.onDisk)
  }

  function OldestTime(log: seq<Record>): int {
    if log == [] then 0 else log[0].time
  }

  function NewestTime(log: seq<Record>): int {
    if log == [] then 0 else log[|log| - 1].time
  }

  /** The only handler that agrees with the view: every cached field is determined by the log. */
  function HandlerOf(v: View, capacity: nat): Handler
    requires v.oldest < capacity && |v.log| <= capacity
  {
    Handler(0, (capacity - 1) * ELEMENT_SIZE,
            At(v.oldest, |v.log|, capacity) * ELEMENT_SIZE, |v.log|,
            v.oldest * ELEMENT_SIZE, OldestTime(v.log), NewestTime(v.log))
  }

  /** The slots of the data file hold the log, in ring order from the oldest slot. */
  ghost predicate Holds(file: Option<seq<Record>>, v: View, capacity: nat)
    requires v.oldest < capacity && |v.log| <= capacity
  {
    && file.Some? == v.onDisk
    && (v.onDisk ==>
          forall k: nat :: k < |v.log| ==>
            var s := At(v.oldest, k, capacity);
            s < |file.value| && file.value[s] == v.log[k])
  }

  ghost predicate Represents(h: Handler, file: Option<seq<Record>>, v: View, capacity: nat) {
    WellFormed(v, capacity) && h == HandlerOf(v, capacity) && Holds(file, v, capacity)
  }

  // ---------------------------------------------------------------- storing

  /** Storing appends, or refuses: -1 when full, -2 when older than the newest record. */
  function StoreCode(v: View, e: Record, capacity: nat): int {
    if |v.log| >= capacity then -1
    else if v.log != [] && e.time < NewestTime(v.log) then -2
    else 0
  }

  function Stored(v: View, e: Record, capacity: nat): View {
    if StoreCode(v, e, capacity) == 0 then View(v.oldest, v.log + [e], true) else v
  }

  /** fwrite of one element at a slot: gaps before it read back as zero bytes. */
  function WriteSlot(file: seq<Record>, slot: nat, e: Record): (file': seq<Record>)
    ensures |file| <= |file'| && slot < |file'| && file'[slot] == e
    ensures forall s :: 0 <= s < |file| && s != slot ==> file'[s] == file[s]
  {
    if slot < |file| then file[slot := e]
    else file + seq(slot - |file|, _ => NULL_ELEMENT) + [e]
  }

  /** The data file after a store: created by the first one, and written at the slot behind the newest record. */
  function FileStored(file: Option<seq<Record>>, v: View, e: Record, capacity: nat): Option<seq<Record>>
    requires v.oldest < capacity && |v.log| <= capacity
  {
    if StoreCode(v, e, capacity) != 0 then file
    else Some(WriteSlot(if file.Some? then file.value else [], At(v.oldest, |v.log|, capacity), e))
  }

  // --------------------------------------------------------------- deleting

  /** How many of the m oldest records one delete takes off: one too few when they cross the tail. */
  function Taken(v: View, m: nat, capacity: nat): nat
    requires 1 <= m
  {
    if v.oldest + m - 1 < capacity then m else m - 1
  }

  ghost function DeleteCode(v: View, time: int): int {
    if time >= NewestTime(v.log) then (if v.onDisk then 0 else 1)
    else if LastUpTo(v.log, time) == 0 then 2
    else 0
  }

  ghost function Deleted(v: View, time: int, capacity: nat): View
    requires v.oldest < capacity && |v.log| <= capacity
  {
    if DeleteCode(v, time) != 0 then v
    else if time >= NewestTime(v.log) then View(0, [], true)
    else
      var c := Taken(v, LastUpTo(v.log, time), capacity);
      View(At(v.oldest, c, capacity), v.log[c..], true)
  }

  /** n nulls written one after the other from a slot on, not going round at the tail. */
  function NullsFrom(file: seq<Record>, start: nat, n: nat): (file': seq<Record>)
    ensures |file'| == if n > 0 && start + n > |file| then start + n else |file|
  {
    seq(if n > 0 && start + n > |file| then start + n else |file|,
        s => if 0 <= s < |file| && !(start <= s < start + n) then file[s] else NULL_ELEMENT)
  }

  /** The data file after a delete. Emptying the store nulls as many slots as there are records, straight on. */
  ghost function FileDeleted(file: Option<seq<Record>>, v: View, time: int, capacity: nat): Option<seq<Record>>
    requires v.oldest < capacity && |v.log| <= capacity
  {
    if DeleteCode(v, time) != 0 || file.None? then file
    else if time >= NewestTime(v.log) then Some(NullsFrom(file.value, v.oldest, |v.log|))
    else Some(Overwritten(file.value, v.oldest, Taken(v, LastUpTo(v.log, time), capacity), capacity, NULL_ELEMENT))
  }

  // ---------------------------------------------------------------- reading

  /** The slot one ascending step further; anything past the tail goes to the head. */
  function Next(slot: nat, capacity: nat): nat {
    if slot + 1 >= capacity then 0 else slot + 1
  }

  function Steps(slot: nat, i: nat, capacity: nat): nat {
    if i == 0 then slot else Next(Steps(slot, i - 1, capacity), capacity)
  }

  /**
   The element count for two slot positions. When the end lies below the start
   the byte difference is divided by an unsigned 64-bit sizeof and the quotient
   narrowed to 32 bits.
  */
  function CountBetween(start: nat, end: nat, capacity: nat): nat {
    if end >= start then end - start + 1
    else
      var bytes := (capacity - 1 - start) * ELEMENT_SIZE + end * ELEMENT_SIZE;
      (bytes % 0x1_0000_0000_0000_0000 / ELEMENT_SIZE + 1) % 0x1_0000_0000
  }

  /** The count without the C arithmetic: exact going up, one too few going round the ring. */
  lemma CountIs(start: nat, end: nat, capacity: nat)
    requires capacity < 0x1_0000_0000 && end < capacity && start < capacity + end
    ensures CountBetween(start, end, capacity) == if end >= start then end - start + 1 else capacity - start + end
  {
    var slots := capacity - 1 - start + end;
    if end < start {
      assert (capacity - 1 - start) * ELEMENT_SIZE + end * ELEMENT_SIZE == slots * ELEMENT_SIZE;
      SmallProduct(slots);
    }
  }

  /** A slot count that fits 32 bits survives the 64-bit reduction, the division and the narrowing. */
  lemma SmallProduct(slots: nat)
    requires slots + 1 < 0x1_0000_0000
    ensures (slots * ELEMENT_SIZE % 0x1_0000_0000_0000_0000 / ELEMENT_SIZE + 1) % 0x1_0000_0000 == slots + 1
  {
    DivisionIs(slots * ELEMENT_SIZE, 0, slots * ELEMENT_SIZE, 0x1_0000_0000_0000_0000);
    DivisionIs(slots * ELEMENT_SIZE, slots, 0, ELEMENT_SIZE);
    DivisionIs(slots + 1, 0, slots + 1, 0x1_0000_0000);
  }

  /** Past the tail by `past` slots and more the byte difference is negative, and wraps. */
  lemma CountWraps(start: nat, end: nat, capacity: nat, past: int)
    requires start == capacity - 1 + end + past && 1 <= past < 0x1_0000_0000
    ensures CountBetween(start, end, capacity) == if end >= start then end - start + 1 else (954437177 - past) % 0x1_0000_0000
  {
    var bytes := (capacity - 1 - start) * ELEMENT_SIZE + end * ELEMENT_SIZE;
    assert bytes == -past * ELEMENT_SIZE;
    NegativeProduct(past);
  }

  lemma NegativeProduct(past: int)
    requires 1 <= past < 0x1_0000_0000
    ensures (-past * ELEMENT_SIZE % 0x1_0000_0000_0000_0000 / ELEMENT_SIZE + 1) % 0x1_0000_0000
         == (954437177 - past) % 0x1_0000_0000
  {
    var bytes, count := 0x1_0000_0000_0000_0000 - past * ELEMENT_SIZE, 1024819115206086201 - past;
    DivisionIs(-past * ELEMENT_SIZE, -1, bytes, 0x1_0000_0000_0000_0000);
    DivisionIs(bytes, count - 1, 16, ELEMENT_SIZE);
    if past <= 954437177 {
      DivisionIs(count, 238609294, 954437177 - past, 0x1_0000_0000);
      DivisionIs(954437177 - past, 0, 954437177 - past, 0x1_0000_0000);
    } else {
      DivisionIs(count, 238609293, 954437177 - past + 0x1_0000_0000, 0x1_0000_0000);
      DivisionIs(954437177 - past, -1, 954437177 - past + 0x1_0000_0000, 0x1_0000_0000);
    }
  }

  /** Reading n slots from `slot` into a buffer: a slot past the end of the file leaves its entry alone. */
  function Copied(file: seq<Record>, slot: nat, n: nat, capacity: nat, buffer: seq<Record>): (r: seq<Record>)
    requires n <= |buffer|
    ensures |r| == |buffer|
  {
    seq(|buffer|, i requires 0 <= i < |buffer| =>
      if i < n && Steps(slot, i, capacity) < |file| then file[Steps(slot, i, capacity)] else buffer[i])
  }

  /** Where the k-th step from a slot leads: round the ring, and from past the tail to the head first. */
  function Source(slot: nat, k: nat, capacity: nat): (source: nat)
    requires capacity > 0
    ensures slot < capacity || k > 0 ==> source < capacity
  {
    if slot < capacity then (slot + k) % capacity
    else if k == 0 then slot
    else (k - 1) % capacity
  }

  lemma {:induction false} StepsAre(slot: nat, k: nat, capacity: nat)
    requires capacity > 0
    ensures Steps(slot, k, capacity) == Source(slot, k, capacity)
  {
    if k == 0 {
      if slot < capacity {
        DivisionIs(slot, 0, slot, capacity);
      }
    } else {
      StepsAre(slot, k - 1, capacity);
      if slot < capacity {
        NextResidue(slot + k - 1, capacity);
      } else if k == 1 {
        DivisionIs(0, 0, 0, capacity);
      } else {
        NextResidue(k - 2, capacity);
      }
    }
  }

  function CopyOut(file: seq<Record>, start: nat, number: nat, capacity: nat, max: nat, buffer: seq<Record>): Outcome
    requires max <= |buffer|
  {
    if number > max then Outcome(-1, number, buffer)
    else Outcome(0, number, Copied(file, start, number, capacity, buffer))
  }

  ghost function ReadBetween(v: View, file: Option<seq<Record>>, capacity: nat,
                             start: int, end: int, max: nat, number: int, buffer: seq<Record>): Outcome
    requires v.oldest < capacity && |v.log| <= capacity && max <= |buffer|
  {
    var i, m := FirstAtLeast(v.log, start), LastUpTo(v.log, end);
    if start <= OldestTime(v.log) && end >= NewestTime(v.log) then
      if |v.log| > max then Outcome(-1, number, buffer)
      else if file.None? then Outcome(1, number, buffer)
      else Outcome(0, |v.log|, Copied(file.value, v.oldest, |v.log|, capacity, buffer))
    else if file.None? then Outcome(2, number, buffer)
    else if start <= OldestTime(v.log) then
      if m == 0 then Outcome(2, number, buffer)
      else
        var n := CountBetween(v.oldest, At(v.oldest, m - 1, capacity), capacity);
        CopyOut(file.value, v.oldest, n, capacity, max, buffer)
    else if i == |v.log| then Outcome(2, number, buffer)
    else if end < NewestTime(v.log) && m == 0 then Outcome(2, number, buffer)
    else
      var last := if end >= NewestTime(v.log) then |v.log| - 1 else m - 1;
      var n := CountBetween(v.oldest + i, At(v.oldest, last, capacity), capacity);
      CopyOut(file.value, v.oldest + i, n, capacity, max, buffer)
  }
}
