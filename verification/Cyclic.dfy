/** Slots of a ring of `size` cells. */
module Cyclic {

  /** The slot `k` places after `start`. */
  function At(start: nat, k: nat, size: nat): (slot: nat)
    requires start < size && k <= size
    ensures slot < size
  {
    if start + k < size then start + k else start + k - size
  }

  /** The slot `k` places before `slot`. */
  function Back(slot: nat, k: nat, size: nat): (start: nat)
    requires slot < size && k <= size
    ensures start < size && At(start, k, size) == slot
  {
    if k <= slot then slot - k else slot + size - k
  }

  /** A quotient and a remainder are known by their sum. */
  lemma DivisionIs(n: int, q: int, r: int, size: int)
    requires size > 0 && n == q * size + r && 0 <= r < size
    ensures n / size == q && n % size == r
  {
    var d := n / size - q;
    assert d * size == r - n % size by {
      assert d * size == n / size * size - q * size;
    }
    OnlyZeroFits(d, size);
  }

  /** The one multiple of `size` below `size` in absolute value is zero. */
  lemma OnlyZeroFits(d: int, size: int)
    requires -size < d * size < size
    ensures d == 0
  {
    assert d >= 1 ==> (d - 1) * size >= 0;
    assert d <= -1 ==> (-d - 1) * size >= 0;
  }

  /** A slot is recovered from its offset. */
  lemma SlotOfOffset(slot: int, size: int)
    requires size > 0
    ensures slot * size / size == slot && slot * size % size == 0
  {
    DivisionIs(slot * size, slot, 0, size);
  }

  /** Counting on by one goes round at the end. */
  lemma NextResidue(n: nat, size: nat)
    requires size > 0
    ensures (n + 1) % size == if n % size + 1 == size then 0 else n % size + 1
  {
    var q, r := n / size, n % size;
    assert n == q * size + r;
    if r + 1 == size {
      assert n + 1 == (q + 1) * size;
      DivisionIs(n + 1, q + 1, 0, size);
    } else {
      DivisionIs(n + 1, q, r + 1, size);
    }
  }

  /** The slot `k` places after `start`, any number of times round. */
  function Round(start: nat, k: nat, size: nat): (slot: nat)
    requires size > 0
    ensures slot < size
  {
    (start + k) % size
  }

  lemma RoundZero(start: nat, size: nat)
    requires start < size
    ensures Round(start, 0, size) == start
  {
    DivisionIs(start, 0, start, size);
  }

  lemma RoundNext(start: nat, k: nat, size: nat)
    requires size > 0
    ensures Round(start, k + 1, size) == At(Round(start, k, size), 1, size)
  {
    NextResidue(start + k, size);
  }

  lemma RoundFrom(start: nat, k: nat, size: nat)
    requires start < size
    ensures Round(At(start, 1, size), k, size) == Round(start, k + 1, size)
  {
    if start + 1 == size {
      var q, r := k / size, k % size;
      assert k == q * size + r && size + k == (q + 1) * size + r;
      DivisionIs(size + k, q + 1, r, size);
    }
  }

  /** Two places share a slot when they are a whole number of rounds apart, wherever counting starts. */
  lemma {:induction false} RoundSame(start: nat, k: nat, j: nat, size: nat)
    requires size > 0
    ensures Round(start, k, size) == Round(start, j, size) <==> k % size == j % size
  {
    if start > 0 {
      RoundSame(start - 1, k, j, size);
      NextResidue(start - 1 + k, size);
      NextResidue(start - 1 + j, size);
    }
  }

  lemma AtIs(start: nat, k: nat, size: nat)
    requires start < size && k <= size
    ensures At(start, k, size) == (start + k) % size
  {
    DivisionIs(start + k, if start + k < size then 0 else 1, At(start, k, size), size);
  }

  /** Stepping back from the k-th slot gives the one before it. */
  lemma StepBack(start: nat, k: nat, size: nat)
    requires start < size && 1 <= k <= size
    ensures Back(At(start, k, size), 1, size) == At(start, k - 1, size)
  {
  }

  /** Whether `slot` is one of the n slots from `start`. */
  predicate InRun(slot: nat, start: nat, n: nat, size: nat) {
    slot < size && (if slot >= start then slot - start else slot + size - start) < n
  }

  /** The memory after writing x to the n slots from `start`, going round at the end of the ring. */
  function Overwritten<T>(mem: seq<T>, start: nat, n: nat, size: nat, x: T): (r: seq<T>)
    ensures |r| == |mem|
  {
    seq(|mem|, s requires 0 <= s < |mem| => if InRun(s, start, n, size) then x else mem[s])
  }

  lemma OverwrittenNone<T>(mem: seq<T>, start: nat, size: nat, x: T)
    requires start < size
    ensures Overwritten(mem, start, 0, size, x) == mem
  {
  }

  /** Writing one more slot. */
  lemma OverwrittenOneMore<T>(mem: seq<T>, start: nat, n: nat, size: nat, x: T)
    requires start < size && n < size && At(start, n, size) < |mem|
    ensures Overwritten(mem, start, n + 1, size, x) == Overwritten(mem, start, n, size, x)[At(start, n, size) := x]
  {
    var slot := At(start, n, size);
    forall s: nat | s < |mem|
      ensures InRun(s, start, n + 1, size) <==> InRun(s, start, n, size) || s == slot
    {
    }
  }

  /** The k-th slot of the ring was written exactly when k is among the first n from `start`. */
  lemma OverwrittenAt<T>(mem: seq<T>, start: nat, n: nat, size: nat, x: T, k: nat)
    requires start < size && k < size && At(start, k, size) < |mem|
    ensures Overwritten(mem, start, n, size, x)[At(start, k, size)] == if k < n then x else mem[At(start, k, size)]
  {
  }

  /** The n slots from `start` are written, and no other cell is. */
  lemma OverwrittenSlots<T>(mem: seq<T>, start: nat, n: nat, size: nat, x: T)
    requires start < size && n <= size
    ensures forall k: nat :: k < n && At(start, k, size) < |mem| ==>
              Overwritten(mem, start, n, size, x)[At(start, k, size)] == x
    ensures forall s: nat :: s < |mem| && (forall k: nat :: k < n ==> At(start, k, size) != s) ==>
              Overwritten(mem, start, n, size, x)[s] == mem[s]
  {
    forall s: nat | s < |mem| && InRun(s, start, n, size)
      ensures exists k: nat :: k < n && At(start, k, size) == s
    {
      var k := if s >= start then s - start else s + size - start;
      assert At(start, k, size) == s;
    }
  }
}
