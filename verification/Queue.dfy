/** The static queue: a ring of fixed-size items over one byte area. */
module Queue {
  import opened Wrappers
  import opened Cyclic

  const MAX_QUEUE_LENGTH: nat := 100

  /** The byte offset of a slot. */
  function Offset(slot: nat, itemSize: nat): nat {
    slot * itemSize
  }

  /** Offsets grow with the slot, so distinct slots do not overlap. */
  lemma SlotsApart(a: nat, b: nat, itemSize: nat)
    requires a < b
    ensures Offset(a, itemSize) + itemSize <= Offset(b, itemSize)
  {
    var n := b - a - 1;
    assert b * itemSize == (a + 1) * itemSize + n * itemSize;
    assert (a + 1) * itemSize == a * itemSize + itemSize;
  }

  /** The bytes of the ring: the product of length and item size, reduced to 32 bits. */
  function RingBytes(length: nat, itemSize: nat): nat {
    length * itemSize % 0x1_0000_0000
  }

  /** How many pieces of `size` bytes it takes to cover `bytes`. */
  function Pieces(bytes: nat, size: nat): nat {
    if bytes == 0 || size == 0 then 0 else if bytes <= size then 1 else 1 + Pieces(bytes - size, size)
  }

  /** The number of slots of the ring: those that begin before its tail. */
  function Slots(length: nat, itemSize: nat): nat {
    Pieces(RingBytes(length, itemSize), itemSize)
  }

  lemma {:induction false} PiecesSpan(bytes: nat, size: nat)
    requires bytes > 0 && size > 0
    ensures var n := Pieces(bytes, size); n > 0 && Offset(n - 1, size) < bytes <= Offset(n, size)
  {
    hide Offset;
    if bytes > size {
      PiecesSpan(bytes - size, size);
      var n := Pieces(bytes - size, size);
      NextOffset(n - 1, size);
      NextOffset(n, size);
    } else {
      NextOffset(0, size);
    }
  }

  lemma NextOffset(slot: nat, itemSize: nat)
    ensures Offset(0, itemSize) == 0
    ensures Offset(slot + 1, itemSize) == Offset(slot, itemSize) + itemSize
  {
    assert (slot + 1) * itemSize == slot * itemSize + itemSize;
  }

  /** The tail lies in the last slot or at its end. */
  lemma SlotsSpan(length: nat, itemSize: nat)
    requires itemSize > 0 && RingBytes(length, itemSize) > 0
    ensures Slots(length, itemSize) > 0
    ensures var slots := Slots(length, itemSize);
            Offset(slots - 1, itemSize) < RingBytes(length, itemSize) <= Offset(slots, itemSize)
  {
    PiecesSpan(RingBytes(length, itemSize), itemSize);
  }

  /** The ring has a slot for each of `length` items if and only if the product needs no reduction. */
  lemma SlotsExact(length: nat, itemSize: u32)
    requires itemSize > 0
    ensures length * itemSize < 0x1_0000_0000 ==> Slots(length, itemSize) == length
    ensures length * itemSize >= 0x1_0000_0000 ==> Slots(length, itemSize) < length
  {
    hide Slots;
    if length * itemSize >= 0x1_0000_0000 {
      ReducedIsSmaller(length, itemSize);
    } else if length == 0 {
      NoBytesNoSlots(length, itemSize);
    } else {
      ReducedSum(0, length * itemSize);
      assert RingBytes(length, itemSize) == Offset(length, itemSize);
      assert Offset(length, itemSize) == Offset(length - 1, itemSize) + itemSize;
      SlotsSpan(length, itemSize);
      var slots := Slots(length, itemSize);
      OffsetsGrow(length, slots - 1, itemSize);
      OffsetsGrow(slots, length - 1, itemSize);
    }
  }

  /** What is left of a large product is shorter by 2^32 bytes, which is more than one item. */
  lemma ReducedIsSmaller(length: nat, itemSize: u32)
    requires itemSize > 0 && length * itemSize >= 0x1_0000_0000
    ensures Slots(length, itemSize) < length
  {
    hide Slots;
    var q := length * itemSize / 0x1_0000_0000;
    assert q >= 1 && RingBytes(length, itemSize) == length * itemSize - q * 0x1_0000_0000;
    assert RingBytes(length, itemSize) < Offset(length, itemSize) - itemSize;
    if RingBytes(length, itemSize) == 0 {
      NoBytesNoSlots(length, itemSize);
    } else {
      SlotsSpan(length, itemSize);
      assert Offset(length - 1, itemSize) == Offset(length, itemSize) - itemSize;
      OffsetsGrow(length - 1, Slots(length, itemSize) - 1, itemSize);
    }
  }

  lemma NoBytesNoSlots(length: nat, itemSize: nat)
    requires RingBytes(length, itemSize) == 0
    ensures Slots(length, itemSize) == 0
  {
  }

  lemma OffsetsGrow(a: nat, b: nat, itemSize: nat)
    ensures Offset(a, itemSize) > Offset(b, itemSize) ==> a > b
  {
    if a < b {
      SlotsApart(a, b, itemSize);
    }
  }

  /** A slot of the ring ends where the next one begins; past the tail the next one is the head's. */
  lemma SlotFits(slot: nat, slots: nat, tail: nat, itemSize: nat)
    requires slot < slots && 0 < itemSize && Offset(slots - 1, itemSize) < tail <= Offset(slots, itemSize)
    ensures Offset(slot, itemSize) + itemSize <= Offset(slots, itemSize)
    ensures Offset(At(slot, 1, slots), itemSize)
         == if Offset(slot, itemSize) + itemSize >= tail then 0 else Offset(slot, itemSize) + itemSize
  {
    SlotsApart(slot, slots, itemSize);
    if slot < slots - 1 {
      SlotsApart(slot, slots - 1, itemSize);
    }
    NextOffset(slot, itemSize);
  }

  /** The bytes of one slot. */
  function ItemAt(memory: seq<byte>, slot: nat, itemSize: nat): seq<byte>
    requires Offset(slot, itemSize) + itemSize <= |memory|
  {
    memory[Offset(slot, itemSize)..Offset(slot, itemSize) + itemSize]
  }

  /**
   The ring holds `items`, in order, from the slot `front`, going round. Items
   that are as many slots apart share a slot, and so are one and the same.
  */
  ghost predicate Holds(memory: seq<byte>, items: seq<seq<byte>>, front: nat, slots: nat, itemSize: nat)
    requires front < slots && Offset(slots, itemSize) <= |memory|
  {
    forall k: nat :: k < |items| ==>
      var slot := Round(front, k, slots);
      && Offset(slot, itemSize) + itemSize <= |memory|
      && items[k] == ItemAt(memory, slot, itemSize)
  }

  /** The items waiting after one more is sent: it replaces those that share its slot. */
  function Sent(items: seq<seq<byte>>, item: seq<byte>, slots: nat): (r: seq<seq<byte>>)
    ensures |r| == |items| + 1
  {
    seq(|items| + 1, k requires 0 <= k <= |items| =>
      if k == |items| || (slots > 0 && k % slots == |items| % slots) then item else items[k])
  }

  /** While there is a free slot no waiting item is replaced. */
  lemma SentAppends(items: seq<seq<byte>>, item: seq<byte>, slots: nat)
    requires |items| < slots
    ensures Sent(items, item, slots) == items + [item]
  {
    forall k: nat | k <= |items|
      ensures k % slots == k
    {
      DivisionIs(k, 0, k, slots);
    }
  }

  /** Filling the slot behind the last item. */
  lemma SentHolds(memory: seq<byte>, memory': seq<byte>, items: seq<seq<byte>>, item: seq<byte>,
                  front: nat, slots: nat, itemSize: nat)
    requires front < slots && Offset(slots, itemSize) <= |memory| && |item| == itemSize
    requires Holds(memory, items, front, slots, itemSize)
    requires var w := Offset(Round(front, |items|, slots), itemSize);
             w + itemSize <= |memory| && memory' == memory[..w] + item + memory[w + itemSize..]
    ensures Holds(memory', Sent(items, item, slots), front, slots, itemSize)
  {
    hide Offset, Round;
    var free := Round(front, |items|, slots);
    forall k: nat | k < |items| + 1
      ensures var slot := Round(front, k, slots);
              && Offset(slot, itemSize) + itemSize <= |memory'|
              && Sent(items, item, slots)[k] == ItemAt(memory', slot, itemSize)
    {
      var slot := Round(front, k, slots);
      RoundSame(front, k, |items|, slots);
      SlotsApart(slot, slots, itemSize);
      if slot < free {
        SlotsApart(slot, free, itemSize);
      } else if free < slot {
        SlotsApart(free, slot, itemSize);
      }
      SliceOutside(memory, memory', item, Offset(free, itemSize), Offset(slot, itemSize), itemSize);
    }
  }

  /** A slice beside a replaced range keeps its bytes; the range itself has the new ones. */
  lemma SliceOutside(memory: seq<byte>, memory': seq<byte>, item: seq<byte>, w: nat, s: nat, n: nat)
    requires w + n <= |memory| && s + n <= |memory| && |item| == n
    requires memory' == memory[..w] + item + memory[w + n..]
    ensures |memory'| == |memory|
    ensures s + n <= w || w + n <= s ==> memory'[s..s + n] == memory[s..s + n]
    ensures memory'[w..w + n] == item
  {
  }

  /** Moving the front on by one slot forgets the first item. */
  lemma ReceivedHolds(memory: seq<byte>, items: seq<seq<byte>>, front: nat, slots: nat, itemSize: nat)
    requires front < slots && items != [] && Offset(slots, itemSize) <= |memory|
    requires Holds(memory, items, front, slots, itemSize)
    ensures Holds(memory, items[1..], At(front, 1, slots), slots, itemSize)
    ensures Round(At(front, 1, slots), |items| - 1, slots) == Round(front, |items|, slots)
  {
    hide Offset, Round, ItemAt;
    RoundFrom(front, |items| - 1, slots);
    forall k: nat | k < |items| - 1
      ensures var slot := Round(At(front, 1, slots), k, slots);
              && Offset(slot, itemSize) + itemSize <= |memory|
              && items[1..][k] == ItemAt(memory, slot, itemSize)
    {
      RoundFrom(front, k, slots);
    }
  }

  /** Where the k-th waiting item's bytes are. */
  lemma ItemBytes(memory: seq<byte>, items: seq<seq<byte>>, front: nat, slots: nat, itemSize: nat, k: nat)
    requires front < slots && k < |items| && Offset(slots, itemSize) <= |memory|
    requires Holds(memory, items, front, slots, itemSize)
    ensures var o := Offset(Round(front, k, slots), itemSize);
            o + itemSize <= |memory| && items[k] == memory[o..o + itemSize]
  {
  }

  /** An unsigned product. */
  function Product(a: u32, b: u32): u32 {
    a * b % 0x1_0000_0000
  }

  /** The slot after the last is the head's. */
  lemma LastWraps(slots: nat, itemSize: nat)
    requires slots > 0
    ensures Offset(At(slots - 1, 1, slots), itemSize) == 0
  {
    assert At(slots - 1, 1, slots) == 0;
  }

  /** The first receive goes to the head, whatever the first read position was reduced to. */
  lemma Created(length: u32, itemSize: u32)
    requires 0 < length && 0 < RingBytes(length, itemSize)
    ensures 0 < itemSize && 0 < Slots(length, itemSize)
    ensures Product(length, itemSize) == RingBytes(length, itemSize)
    ensures Product(length - 1, itemSize) + itemSize >= RingBytes(length, itemSize)
    ensures var slots := Slots(length, itemSize); Offset(Round(At(slots - 1, 1, slots), 0, slots), itemSize) == 0
    ensures length * itemSize < 0x1_0000_0000 ==> Offset(Slots(length, itemSize), itemSize) == RingBytes(length, itemSize)
  {
    hide Slots;
    var slots := Slots(length, itemSize);
    assert length * itemSize == (length - 1) * itemSize + itemSize;
    assert itemSize == 0 ==> length * itemSize == 0;
    SlotsSpan(length, itemSize);
    SlotsExact(length, itemSize);
    RoundZero(0, slots);
    ReducedSum((length - 1) * itemSize, itemSize);
  }

  lemma ReducedSum(a: nat, b: nat)
    ensures (a + b) % 0x1_0000_0000 <= a % 0x1_0000_0000 + b
    ensures a + b < 0x1_0000_0000 ==> (a + b) % 0x1_0000_0000 == a + b
  {
  }

  class Queue {
    const memory: array<byte>

    var head: int
    var tail: int
    var writeTo: int
    var readFrom: int
    var length: u32
    var itemSize: u32
    var waitingMessages: nat

    /** The waiting items, oldest first, and the slot last received from. */
    ghost var items: seq<seq<byte>>
    ghost var last: nat

    ghost predicate Valid()
      reads this, memory
    {
      && |items| == waitingMessages
      && memory.Length == MAX_QUEUE_LENGTH
      && if length == 0 then items == []
         else
           var slots := Slots(length, itemSize);
           && 0 < itemSize && 0 < RingBytes(length, itemSize) && Offset(slots, itemSize) <= MAX_QUEUE_LENGTH
           && head == 0 && tail == RingBytes(length, itemSize)
           && last < slots && waitingMessages <= length
           && (readFrom == Offset(last, itemSize) || (last == slots - 1 && readFrom + itemSize >= tail))
           && writeTo == Offset(Round(At(last, 1, slots), |items|, slots), itemSize)
           && Holds(memory[..], items, At(last, 1, slots), slots, itemSize)
    }

    /** The ring has a slot for every item the queue accepts. */
    predicate Fits()
      reads this
    {
      length * itemSize < 0x1_0000_0000
    }

    /** A queue in static storage, not created yet. */
    constructor ()
      ensures Valid() && length == 0 && items == [] && fresh(memory)
    {
      memory := new byte[MAX_QUEUE_LENGTH](_ => 0);
      head, tail, writeTo, readFrom, length, itemSize, waitingMessages := 0, 0, 0, 0, 0, 0, 0;
      items, last := [], 0;
    }

    /**
     Creates the ring once. The C code checks the byte size only after it has been
     reduced to 32 bits; a product too large for that passes the check when its
     residue is small. The slots of the ring may still end behind the memory area.
    */
    method Create(length: u32, itemSize: u32) returns (ret: int)
      requires Valid()
      modifies this
      ensures items == old(items)
      ensures ret == if old(this.length) != 0 then 1
                     else if length == 0 then -1
                     else if RingBytes(length, itemSize) >= MAX_QUEUE_LENGTH then -2
                     else if RingBytes(length, itemSize) == 0 then -3
                     else 0
      ensures if ret == 0 then this.length == length && this.itemSize == itemSize
              else this.length == old(this.length) && this.itemSize == old(this.itemSize)
      ensures Valid() <==> (ret == 0 ==> Offset(Slots(length, itemSize), itemSize) <= MAX_QUEUE_LENGTH)
      ensures ret == 0 && Fits() ==> Valid()
    {
      hide Slots, Round, Offset;
      if this.length != 0 {
        return 1;
      }
      if length > 0 {
        var sizeInBytes := Product(length, itemSize);
        if sizeInBytes < MAX_QUEUE_LENGTH {
          if sizeInBytes != 0 {
            head := 0;
            this.length := length;
            this.itemSize := itemSize;
            tail := head + sizeInBytes;
            writeTo := head;
            readFrom := head + Product(length - 1, itemSize);
            waitingMessages := 0;
            Created(length, itemSize);
            last := Slots(length, itemSize) - 1;
            ret := 0;
          } else {
            ret := -3;
          }
        } else {
          ret := -2;
        }
      } else {
        ret := -1;
      }
    }

    method Send(item: seq<byte>) returns (ret: int)
      requires Valid() && |item| >= itemSize
      modifies this, memory
      ensures Valid() && length == old(length) && itemSize == old(itemSize)
      ensures ret == if |old(items)| < length then 0 else -1
      ensures items == if ret == 0 then Sent(old(items), item[..itemSize], Slots(length, itemSize)) else old(items)
    {
      hide Offset, Holds, ItemAt, Slots, RingBytes, Round, Sent;
      if waitingMessages >= length {
        return -1;
      }
      ghost var slots, before := Slots(length, itemSize), memory[..];
      ghost var front := At(last, 1, slots);
      ghost var slot := Round(front, |items|, slots);
      SlotsSpan(length, itemSize);
      SlotFits(slot, slots, tail, itemSize);
      RoundNext(front, |items|, slots);
      CopyIn(item);
      SentHolds(before, memory[..], items, item[..itemSize], front, slots, itemSize);
      writeTo := writeTo + itemSize;
      if writeTo >= tail {
        writeTo := head;
      }
      waitingMessages := waitingMessages + 1;
      items := Sent(items, item[..itemSize], slots);
      ret := 0;
    }

    /** memcpy of one item to the write position. */
    method CopyIn(item: seq<byte>)
      requires |item| >= itemSize && 0 <= writeTo && writeTo + itemSize <= memory.Length
      modifies memory
      ensures memory[..] == old(memory[..writeTo]) + item[..itemSize] + old(memory[writeTo + itemSize..])
    {
      forall i | 0 <= i < itemSize {
        memory[writeTo + i] := item[i];
      }
    }

    method Receive(buffer: array<byte>) returns (ret: int)
      requires Valid() && buffer != memory && buffer.Length >= itemSize
      modifies this, buffer
      ensures Valid() && length == old(length) && itemSize == old(itemSize)
      ensures ret == if old(items) != [] then 0 else -1
      ensures if ret == 0 then
                && items == old(items)[1..]
                && buffer[..] == old(items)[0] + old(buffer[itemSize..])
              else
                items == old(items) && buffer[..] == old(buffer[..])
    {
      hide Offset, Holds, ItemAt, Slots, RingBytes, Round;
      if waitingMessages == 0 {
        return -1;
      }
      ghost var slots, bytes := Slots(length, itemSize), memory[..];
      ghost var front := At(last, 1, slots);
      SlotsSpan(length, itemSize);
      SlotFits(last, slots, tail, itemSize);
      LastWraps(slots, itemSize);
      RoundZero(front, slots);
      ReceivedHolds(bytes, items, front, slots, itemSize);
      readFrom := readFrom + itemSize;
      if readFrom >= tail {
        readFrom := head;
      }
      ItemBytes(bytes, items, front, slots, itemSize, 0);
      CopyOut(buffer);
      assert memory[..] == bytes;
      waitingMessages := waitingMessages - 1;
      last := front;
      items := items[1..];
      ret := 0;
    }

    /** memcpy of one item from the read position. */
    method CopyOut(buffer: array<byte>)
      requires buffer != memory && buffer.Length >= itemSize && 0 <= readFrom && readFrom + itemSize <= memory.Length
      modifies buffer
      ensures buffer[..] == memory[..][readFrom..readFrom + itemSize] + old(buffer[itemSize..])
    {
      forall i | 0 <= i < itemSize {
        buffer[i] := memory[readFrom + i];
      }
    }

    /** The walk over the waiting items that print_queue makes. */
    method Traverse() returns (visited: seq<seq<byte>>)
      requires Valid()
      ensures visited == items
    {
      hide Offset, Holds, ItemAt, Slots, RingBytes, Round;
      visited := [];
      if waitingMessages != 0 {
        ghost var slots := Slots(length, itemSize);
        ghost var front := At(last, 1, slots);
        SlotsSpan(length, itemSize);
        SlotFits(last, slots, tail, itemSize);
        LastWraps(slots, itemSize);
        RoundZero(front, slots);
        var address := readFrom + itemSize;
        assert Offset(front, itemSize) == if address >= tail then head else address;
        for i := 0 to waitingMessages
          invariant visited == items[..i]
          invariant i < waitingMessages ==>
            (if address >= tail then head else address) == Offset(Round(front, i, slots), itemSize)
        {
          if address >= tail {
            address := head;
          }
          ghost var slot := Round(front, i, slots);
          SlotFits(slot, slots, tail, itemSize);
          RoundNext(front, i, slots);
          ItemBytes(memory[..], items, front, slots, itemSize, i);
          visited := visited + [memory[..][address..address + itemSize]];
          address := address + itemSize;
        }
      }
    }
  }

  // ------------------------------------------------------------- whole runs

  datatype Op = SendOp(item: seq<byte>) | ReceiveOp

  /** The waiting items, everything accepted and received so far, and the code of each call. */
  datatype History = History(items: seq<seq<byte>>, accepted: seq<seq<byte>>, received: seq<seq<byte>>,
                             codes: seq<int>)

  const START: History := History([], [], [], [])

  function Step(h: History, op: Op, length: nat, itemSize: nat): History {
    match op
    case SendOp(item) =>
      if |h.items| < length then
        var bytes := Truncated(item, itemSize);
        History(Sent(h.items, bytes, Slots(length, itemSize)), h.accepted + [bytes], h.received, h.codes + [0])
      else
        h.(codes := h.codes + [-1])
    case ReceiveOp =>
      if h.items != [] then History(h.items[1..], h.accepted, h.received + [h.items[0]], h.codes + [0])
      else h.(codes := h.codes + [-1])
  }

  function Run(h: History, ops: seq<Op>, length: nat, itemSize: nat): History
    decreases |ops|
  {
    if ops == [] then h
    else Step(Run(h, ops[..|ops| - 1], length, itemSize), ops[|ops| - 1], length, itemSize)
  }

  function Flatten(items: seq<seq<byte>>): seq<byte> {
    if items == [] then [] else items[0] + Flatten(items[1..])
  }

  lemma {:induction false} FlattenConcat(a: seq<seq<byte>>, b: seq<seq<byte>>)
    ensures Flatten(a + b) == Flatten(a) + Flatten(b)
  {
    if a == [] {
      assert a + b == b;
    } else {
      assert (a + b)[1..] == a[1..] + b;
      FlattenConcat(a[1..], b);
    }
  }

  /** The waiting items are as many as were accepted and not received, and no more than `length`. */
  ghost predicate Counted(h: History, length: nat) {
    |h.accepted| == |h.received| + |h.items| && |h.items| <= length
  }

  lemma {:induction false} RunIsCounted(ops: seq<Op>, length: nat, itemSize: nat)
    ensures var r := Run(START, ops, length, itemSize); Counted(r, length) && |r.codes| == |ops|
    decreases |ops|
  {
    if ops != [] {
      RunIsCounted(ops[..|ops| - 1], length, itemSize);
    }
  }

  /**
   The i-th call of a run fails exactly when it is a send and `length` accepted
   items are still to be received, or a receive and none is.
  */
  lemma {:induction false} CodeIs(ops: seq<Op>, i: nat, length: nat, itemSize: nat)
    requires i < |ops|
    ensures var before := Run(START, ops[..i], length, itemSize);
            var waiting := |before.accepted| - |before.received|;
            var codes := Run(START, ops, length, itemSize).codes;
            && 0 <= waiting <= length && |codes| == |ops|
            && codes[i] == if waiting == (if ops[i].SendOp? then length else 0) then -1 else 0
    decreases |ops|
  {
    hide Sent, Slots;
    RunIsCounted(ops, length, itemSize);
    RunIsCounted(ops[..i], length, itemSize);
    var shorter := ops[..|ops| - 1];
    RunIsCounted(shorter, length, itemSize);
    if i < |shorter| {
      assert shorter[..i] == ops[..i];
      CodeIs(shorter, i, length, itemSize);
    }
  }

  /** First in, first out: what was accepted is what was received followed by what waits. */
  ghost predicate Fifo(h: History, length: nat) {
    h.accepted == h.received + h.items && |h.items| <= length
  }

  lemma {:induction false} StepIsFifo(h: History, op: Op, length: nat, itemSize: nat)
    requires Fifo(h, length) && length <= Slots(length, itemSize)
    ensures Fifo(Step(h, op, length, itemSize), length)
  {
    hide Sent, Slots;
    match op
    case SendOp(item) =>
      if |h.items| < length {
        var bytes := Truncated(item, itemSize);
        SentAppends(h.items, bytes, Slots(length, itemSize));
        assert h.accepted + [bytes] == h.received + (h.items + [bytes]);
      }
    case ReceiveOp =>
      if h.items != [] {
        assert h.items == [h.items[0]] + h.items[1..];
        assert h.accepted == (h.received + [h.items[0]]) + h.items[1..];
      }
  }

  lemma {:induction false} RunIsFifo(h: History, ops: seq<Op>, length: nat, itemSize: nat)
    requires Fifo(h, length) && length <= Slots(length, itemSize)
    ensures Fifo(Run(h, ops, length, itemSize), length)
    decreases |ops|
  {
    if ops != [] {
      RunIsFifo(h, ops[..|ops| - 1], length, itemSize);
      StepIsFifo(Run(h, ops[..|ops| - 1], length, itemSize), ops[|ops| - 1], length, itemSize);
    }
  }

  /**
   In every run of a ring with a slot for every item the bytes received are a
   prefix of the bytes accepted, short of them by what still waits.
  */
  lemma {:induction false} EveryRunIsFifo(ops: seq<Op>, length: nat, itemSize: nat)
    requires length <= Slots(length, itemSize)
    ensures var r := Run(START, ops, length, itemSize);
            && r.received <= r.accepted && |r.accepted| - |r.received| <= length
            && Flatten(r.received) + Flatten(r.items) == Flatten(r.accepted)
  {
    RunIsFifo(START, ops, length, itemSize);
    var r := Run(START, ops, length, itemSize);
    FlattenConcat(r.received, r.items);
  }

  /** As many sends of zeros as there are slots, a send of ones, and a receive. */
  function Overrun(slots: nat, itemSize: nat): seq<Op> {
    seq(slots, _ => SendOp(Copies<byte>(0, itemSize))) + [SendOp(Copies<byte>(1, itemSize))] + [ReceiveOp]
  }

  /** Filling the slots with one item. */
  lemma {:induction false} RunFills(n: nat, length: nat, itemSize: nat)
    requires n <= length && n <= Slots(length, itemSize)
    ensures var r := Run(START, seq(n, _ => SendOp(Copies<byte>(0, itemSize))), length, itemSize);
            && r.accepted == r.items && |r.items| == n && r.received == []
            && (forall k :: 0 <= k < n ==> r.items[k] == Copies<byte>(0, itemSize))
            && |r.codes| == n && forall k :: 0 <= k < n ==> r.codes[k] == 0
  {
    hide Sent, Slots, Copies;
    if n > 0 {
      var item := Copies<byte>(0, itemSize);
      var ops := seq(n, _ => SendOp(item));
      assert ops[..n - 1] == seq(n - 1, _ => SendOp(item)) && ops[n - 1] == SendOp(item);
      RunFills(n - 1, length, itemSize);
      SentAppends(Run(START, ops[..n - 1], length, itemSize).items, item, Slots(length, itemSize));
    }
  }

  /**
   In a ring with fewer slots than items every call of that run succeeds, and it
   hands over ones where zeros were sent first.
  */
  lemma {:induction false} OverrunIsNoFifo(length: nat, itemSize: nat)
    requires 0 < Slots(length, itemSize) < length && itemSize > 0
    ensures var r := Run(START, Overrun(Slots(length, itemSize), itemSize), length, itemSize);
            && r.received == [Copies<byte>(1, itemSize)] && r.accepted != [] && r.accepted[0] == Copies<byte>(0, itemSize)
            && forall code :: code in r.codes ==> code == 0
  {
    var slots, one := Slots(length, itemSize), Copies<byte>(1, itemSize);
    var ops := Overrun(slots, itemSize);
    var fill := seq(slots, _ => SendOp(Copies<byte>(0, itemSize)));
    RunFills(slots, length, itemSize);
    assert ops[..|ops| - 1] == fill + [SendOp(one)] && (fill + [SendOp(one)])[..slots] == fill;
    var filled := Run(START, fill, length, itemSize);
    var overrun := Run(START, fill + [SendOp(one)], length, itemSize);
    assert overrun == Step(filled, SendOp(one), length, itemSize);
    FirstIsReplaced(filled.items, one, slots);
  }

  lemma FirstIsReplaced(items: seq<seq<byte>>, item: seq<byte>, slots: nat)
    requires slots > 0 && |items| == slots
    ensures Sent(items, item, slots)[0] == item
  {
    DivisionIs(0, 0, 0, slots);
    DivisionIs(slots, 1, 0, slots);
  }

  /** A ring that was created is a queue in every run if and only if the product needed no reduction. */
  lemma {:induction false} FifoExactly(length: u32, itemSize: u32)
    requires length > 0 && RingBytes(length, itemSize) > 0
    ensures length * itemSize < 0x1_0000_0000
            <==> forall ops :: Run(START, ops, length, itemSize).received <= Run(START, ops, length, itemSize).accepted
  {
    hide Run, Slots, RingBytes, Copies;
    Created(length, itemSize);
    SlotsExact(length, itemSize);
    if length * itemSize < 0x1_0000_0000 {
      forall ops
        ensures Run(START, ops, length, itemSize).received <= Run(START, ops, length, itemSize).accepted
      {
        EveryRunIsFifo(ops, length, itemSize);
      }
    } else {
      OverrunIsNoFifo(length, itemSize);
      assert Copies<byte>(0, itemSize)[0] == 0 && Copies<byte>(1, itemSize)[0] == 1 by {
        ItemsDiffer(itemSize);
      }
      var r := Run(START, Overrun(Slots(length, itemSize), itemSize), length, itemSize);
      assert r.received[0] != r.accepted[0];
    }
  }

  lemma ItemsDiffer(itemSize: nat)
    requires itemSize > 0
    ensures Copies<byte>(0, itemSize)[0] == 0 && Copies<byte>(1, itemSize)[0] == 1
  {
  }

  lemma FitsIsRoom(q: Queue)
    requires q.Valid() && q.Fits()
    ensures q.length <= Slots(q.length, q.itemSize)
  {
    if q.length > 0 {
      SlotsExact(q.length, q.itemSize);
    }
  }

  /** One call on the byte ring: what it hands over, its code and what waits afterwards are the machine's. */
  method ExecuteOne(q: Queue, op: Op, buffer: array<byte>, ghost h: History) returns (received: seq<seq<byte>>, code: int)
    requires q.Valid() && q.items == h.items && buffer != q.memory && buffer.Length == q.itemSize
    requires op.SendOp? ==> |op.item| >= q.itemSize
    modifies q, q.memory, buffer
    ensures q.Valid() && q.length == old(q.length) && q.itemSize == old(q.itemSize)
    ensures var h' := Step(h, op, q.length, q.itemSize);
            q.items == h'.items && h'.received == h.received + received && h'.codes == h.codes + [code]
  {
    hide Offset, Holds, ItemAt, Slots, RingBytes, Sent, Round;
    received := [];
    if op.SendOp? {
      code := q.Send(op.item);
      assert op.item[..q.itemSize] == Truncated(op.item, q.itemSize);
    } else {
      code := q.Receive(buffer);
      if code == 0 {
        assert old(buffer[q.itemSize..]) == [];
        assert buffer[..] == h.items[0];
        received := [buffer[..]];
      }
    }
  }

  /**
   A run carried out on an empty byte ring hands over the items, and returns the
   codes, of the machine's run. So in every run of the ring itself, if it has a
   slot for every item, the bytes received are a prefix of the bytes accepted.
  */
  method Execute(q: Queue, ops: seq<Op>)
    returns (received: seq<seq<byte>>, codes: seq<int>, ghost accepted: seq<seq<byte>>)
    requires q.Valid() && q.items == []
    requires forall i :: 0 <= i < |ops| && ops[i].SendOp? ==> |ops[i].item| >= q.itemSize
    modifies q, q.memory
    ensures q.Valid() && q.length == old(q.length) && q.itemSize == old(q.itemSize)
    ensures var r := Run(START, ops, q.length, q.itemSize);
            q.items == r.items && received == r.received && codes == r.codes && accepted == r.accepted
    ensures q.Fits() ==> Flatten(received) + Flatten(q.items) == Flatten(accepted)
  {
    hide Step, Flatten, Holds, Offset, Slots, RingBytes;
    received, codes := [], [];
    ghost var r := START;
    var buffer := new byte[q.itemSize](_ => 0);
    for i := 0 to |ops|
      invariant q.Valid() && q.length == old(q.length) && q.itemSize == old(q.itemSize) == buffer.Length
      invariant r == Run(START, ops[..i], q.length, q.itemSize)
      invariant q.items == r.items && received == r.received && codes == r.codes
    {
      assert ops[..i + 1][..i] == ops[..i];
      var more, code := ExecuteOne(q, ops[i], buffer, r);
      r := Step(r, ops[i], q.length, q.itemSize);
      received, codes := received + more, codes + [code];
    }
    assert ops[..|ops|] == ops;
    accepted := r.accepted;
    if q.Fits() {
      FitsIsRoom(q);
      EveryRunIsFifo(ops, q.length, q.itemSize);
    }
  }

  /** 0x8000_0001 items of 2 bytes: the product is 2 in 32 bits, so every item goes to the one slot of the ring. */
  method TwoSentOneSlot() returns (received: seq<seq<byte>>, codes: seq<int>, ghost accepted: seq<seq<byte>>)
    ensures received == [[1, 1]] && accepted != [] && accepted[0] == [0, 0]
    ensures forall code :: code in codes ==> code == 0
  {
    hide Run, Overrun, Slots, Holds;
    OneSlot();
    var q := new Queue();
    var ret := q.Create(0x8000_0001, 2);
    received, codes, accepted := Execute(q, Overrun(1, 2));
  }

  lemma OneSlot()
    ensures RingBytes(0x8000_0001, 2) == 2 && Slots(0x8000_0001, 2) == 1
    ensures forall op :: op in Overrun(1, 2) && op.SendOp? ==> |op.item| == 2
    ensures var r := Run(START, Overrun(1, 2), 0x8000_0001, 2);
            && r.received == [[1, 1]] && r.accepted != [] && r.accepted[0] == [0, 0]
            && forall code :: code in r.codes ==> code == 0
  {
    hide Run;
    assert Slots(0x8000_0001, 2) == 1;
    assert Copies<byte>(0, 2) == [0, 0] && Copies<byte>(1, 2) == [1, 1];
    OverrunIsNoFifo(0x8000_0001, 2);
  }
}
