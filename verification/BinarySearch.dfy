/** Binary search over a byte array of fixed-size elements, through a comparator. */
module BinarySearch {
  import opened Wrappers

  /** A comparator sees the bytes of two items and answers by sign. */
  type Comparator = (seq<byte>, seq<byte>) -> int

  /** The bytes of the k-th element. */
  function Element(memory: seq<byte>, k: nat, size: nat): (e: seq<byte>)
    requires k * size + size <= |memory|
    ensures |e| == size
  {
    memory[k * size..k * size + size]
  }

  /** The byte index of the k-th probe: an unsigned product. */
  function Offset(k: nat, size: nat): (o: nat)
    ensures o <= k * size && o < 0x1_0000_0000
    ensures k * size < 0x1_0000_0000 ==> o == k * size
  {
    k * size % 0x1_0000_0000
  }

  /** What a probe of the k-th element sees. */
  function Seen(memory: seq<byte>, k: nat, size: nat): (e: seq<byte>)
    requires k * size + size <= |memory|
    ensures |e| == size
  {
    memory[Offset(k, size)..Offset(k, size) + size]
  }

  /** Every element begins where an unsigned index can reach it. */
  predicate Addressable(n: nat, size: nat) {
    n > 0 ==> (n - 1) * size < 0x1_0000_0000
  }

  lemma AddressableOffset(n: nat, size: nat, k: nat)
    requires Addressable(n, size) && k < n
    ensures Offset(k, size) == k * size
  {
    if k < n - 1 {
      Apart(k, n - 1, size);
    }
  }

  /** `memory` holds n elements. */
  ghost predicate Holds(memory: seq<byte>, n: nat, size: nat) {
    forall k: nat :: k < n ==> k * size + size <= |memory|
  }

  /** The comparator is a total order on items of this size, up to items it calls equal. */
  ghost predicate Consistent(compare: Comparator, size: nat) {
    && (forall a: seq<byte>, b: seq<byte> :: |a| == size && |b| == size ==>
          (compare(a, b) < 0 <==> compare(b, a) > 0))
    && (forall a: seq<byte>, b: seq<byte>, c: seq<byte> :: |a| == size && |b| == size && |c| == size ==>
          compare(a, b) <= 0 && compare(b, c) <= 0 ==> compare(a, c) <= 0)
  }

  ghost predicate SortedBy(compare: Comparator, memory: seq<byte>, n: nat, size: nat)
    requires Holds(memory, n, size)
  {
    forall i: nat, j: nat :: i < j < n ==> compare(Element(memory, i, size), Element(memory, j, size)) <= 0
  }

  /** In a sorted array an item above one element is above all before it, and one below is below all after it. */
  lemma Monotone(compare: Comparator, item: seq<byte>, memory: seq<byte>, n: nat, size: nat, i: nat, j: nat)
    requires Holds(memory, n, size) && Consistent(compare, size) && SortedBy(compare, memory, n, size)
    requires |item| == size && i <= j < n
    ensures compare(item, Element(memory, i, size)) < 0 ==> compare(item, Element(memory, j, size)) < 0
    ensures compare(item, Element(memory, j, size)) > 0 ==> compare(item, Element(memory, i, size)) > 0
  {
    var a, b := Element(memory, i, size), Element(memory, j, size);
    if i < j {
      assert compare(a, b) <= 0;
      assert compare(b, item) <= 0 ==> compare(a, item) <= 0;
      assert compare(item, a) <= 0 ==> compare(item, b) <= 0;
    }
  }

  function Log2(n: nat): nat {
    if n <= 1 then 0 else 1 + Log2(n / 2)
  }

  lemma {:induction false} Log2Monotone(a: nat, b: nat)
    requires a <= b
    ensures Log2(a) <= Log2(b)
  {
    if a > 1 {
      Log2Monotone(a / 2, b / 2);
    }
  }

  /** The comparator calls still allowed for a range of `width` elements. */
  function Budget(width: nat): nat {
    if width == 0 then 0 else Log2(width) + 1
  }

  function Pow2(k: nat): nat {
    if k == 0 then 1 else 2 * Pow2(k - 1)
  }

  /** The budget of n > 0 elements is the number of binary digits of n. */
  lemma {:induction false} BudgetIs(n: nat)
    requires n > 0
    ensures Budget(0) == 0 && Budget(n) > 0 && Pow2(Budget(n) - 1) <= n < Pow2(Budget(n))
  {
    if n > 1 {
      BudgetIs(n / 2);
    }
  }

  /** Half a range, without its middle element, has one call less. */
  lemma {:induction false} HalfBudget(width: nat, rest: nat)
    requires width > 0 && rest <= width / 2
    ensures 1 + Budget(rest) <= Budget(width)
  {
    if rest > 0 {
      Log2Monotone(rest, width / 2);
    }
  }

  /**
   The address (relative to the array) of an element equal to the item, or None.
   `probes` lists the addresses handed to the comparator, in order. Whatever the
   array and the comparator, an address returned was probed and compared equal;
   in a sorted array that indices reach, one is returned exactly when it can be.
  */
  method Search(item: seq<byte>, memory: seq<byte>, n: u32, size: u32, compare: Comparator)
    returns (address: Option<int>, ghost probes: seq<int>)
    requires Holds(memory, n, size) && |item| == size
    ensures address.Some? ==>
              exists k: nat :: k < n && address.value == Offset(k, size) && compare(item, Seen(memory, k, size)) == 0
    ensures Consistent(compare, size) && SortedBy(compare, memory, n, size) && Addressable(n, size) ==>
              (address.Some? <==> exists k: nat :: k < n && compare(item, Element(memory, k, size)) == 0)
    ensures Addressable(n, size) && address.Some? ==>
              exists k: nat :: k < n && address.value == k * size && compare(item, Element(memory, k, size)) == 0
    ensures |probes| <= Budget(n)
    ensures forall p :: p in probes ==> exists k: nat :: k < n && p == Offset(k, size)
  {
    hide Consistent, SortedBy, Element, Seen, Budget, Offset, Addressable;
    ghost var ordered := Consistent(compare, size) && SortedBy(compare, memory, n, size) && Addressable(n, size);
    var low: nat, high: nat := 0, n;
    ghost var found: nat := 0;
    address := None;
    probes := [];
    while high > low && address == None
      invariant low <= high <= n
      invariant ordered ==> forall k: nat :: k < low ==> compare(item, Element(memory, k, size)) > 0
      invariant ordered ==> forall k: nat :: high <= k < n ==> compare(item, Element(memory, k, size)) < 0
      invariant address.Some? ==>
        found < n && address.value == Offset(found, size) && compare(item, Seen(memory, found, size)) == 0
      invariant |probes| + (if address == None then Budget(high - low) else 0) <= Budget(n)
      invariant forall p :: p in probes ==> exists k: nat :: k < n && p == Offset(k, size)
      decreases high - low, address == None
    {
      var mid := low + (high - low) / 2;
      var result := compare(item, Seen(memory, mid, size));
      probes := probes + [Offset(mid, size)];
      HalfBudget(high - low, mid - low);
      HalfBudget(high - low, high - (mid + 1));
      if ordered {
        SeenIsElement(memory, n, size, mid);
      }
      if result < 0 {
        forall k: nat | ordered && mid <= k < n ensures compare(item, Element(memory, k, size)) < 0 {
          Monotone(compare, item, memory, n, size, mid, k);
        }
        high := mid;
      } else if result > 0 {
        forall k: nat | ordered && k <= mid ensures compare(item, Element(memory, k, size)) > 0 {
          Monotone(compare, item, memory, n, size, k, mid);
        }
        low := mid + 1;
      } else {
        address, found := Some(Offset(mid, size)), mid;
      }
    }
    if address.Some? && Addressable(n, size) {
      AddressableOffset(n, size, found);
      SeenIsElement(memory, n, size, found);
    }
  }

  lemma SeenIsElement(memory: seq<byte>, n: nat, size: nat, k: nat)
    requires Holds(memory, n, size) && Addressable(n, size) && k < n
    ensures Seen(memory, k, size) == Element(memory, k, size)
  {
    AddressableOffset(n, size, k);
  }

  // --------------------------------------------------- beyond unsigned indices

  function FirstByte(a: seq<byte>, b: seq<byte>): int {
    if a == [] || b == [] then 0 else a[0] as int - b[0] as int
  }

  /** n elements of zeros, but for the first byte of the last. */
  function LastMarked(n: nat, size: nat): (memory: seq<byte>)
    requires n > 0 && size > 0
    ensures |memory| == n * size
    ensures forall p :: 0 <= p < |memory| ==> memory[p] == if p == (n - 1) * size then 1 else 0
  {
    seq(n * size, p => if p == (n - 1) * size then 1 else 0)
  }

  lemma Apart(a: nat, b: nat, size: nat)
    requires a < b
    ensures a * size + size <= b * size
  {
    var rest := b - a - 1;
    assert b * size == a * size + size + rest * size;
  }

  /** An item read from an offset begins with the byte there. */
  lemma FirstByteOf(memory: seq<byte>, k: nat, size: nat)
    requires size > 0 && k * size + size <= |memory|
    ensures Element(memory, k, size)[0] == memory[k * size]
    ensures Seen(memory, k, size)[0] == memory[Offset(k, size)]
  {
  }

  lemma MarkedAt(n: nat, size: nat, k: nat)
    requires n > 0 && size > 0 && k < n
    ensures k * size + size <= |LastMarked(n, size)|
    ensures Element(LastMarked(n, size), k, size)[0] == if k == n - 1 then 1 else 0
    ensures !Addressable(n, size) ==> Seen(LastMarked(n, size), k, size)[0] == 0
  {
    hide LastMarked, Element, Seen, Offset;
    Apart(k, n, size);
    if k < n - 1 {
      Apart(k, n - 1, size);
    }
    FirstByteOf(LastMarked(n, size), k, size);
  }

  lemma LastMarkedIsSorted(n: nat, size: nat)
    requires n > 0 && size > 0
    ensures var memory := LastMarked(n, size);
            Holds(memory, n, size) && Consistent(FirstByte, size) && SortedBy(FirstByte, memory, n, size)
  {
    hide Element, LastMarked;
    forall k: nat | k < n
      ensures k * size + size <= |LastMarked(n, size)|
      ensures Element(LastMarked(n, size), k, size)[0] == if k == n - 1 then 1 else 0
    {
      MarkedAt(n, size, k);
    }
  }

  /**
   Where the last element is out of reach, a sorted array of that shape has an
   item that is not found.
  */
  method SearchMisses(n: u32, size: u32) returns (address: Option<int>)
    requires n > 0 && size > 0 && !Addressable(n, size)
    ensures var memory := LastMarked(n, size);
            && Holds(memory, n, size) && Consistent(FirstByte, size) && SortedBy(FirstByte, memory, n, size)
            && FirstByte(Element(memory, n - 1, size), Element(memory, n - 1, size)) == 0
    ensures address == None
  {
    hide Consistent, SortedBy, Element, Seen, LastMarked, Addressable;
    ghost var probes;
    var memory := LastMarked(n, size);
    LastMarkedIsSorted(n, size);
    var item := Element(memory, n - 1, size);
    forall k: nat | k < n
      ensures FirstByte(item, Seen(memory, k, size)) == 1
    {
      MarkedAt(n, size, k);
      MarkedAt(n, size, n - 1);
    }
    address, probes := Search(item, memory, n, size, FirstByte);
  }

  // ------------------------------------------------------ the 32-bit comparator

  /** The value of an item; an item of another size has none to compare. */
  function DecodeU32(b: seq<byte>): u32 {
    if |b| < 4 then 0 else LittleEndian(b)
  }

  function CompareU32(a: seq<byte>, b: seq<byte>): int {
    if DecodeU32(a) > DecodeU32(b) then 1
    else if DecodeU32(a) < DecodeU32(b) then -1
    else 0
  }

  /** compare_UINT32 is a consistent comparator, and calls two 4-byte items equal only when they are. */
  lemma CompareU32Consistent()
    ensures Consistent(CompareU32, 4)
    ensures forall a: seq<byte>, b: seq<byte> :: |a| == 4 && |b| == 4 ==> (CompareU32(a, b) == 0 <==> a == b)
  {
    forall a: seq<byte>, b: seq<byte> | |a| == 4 && |b| == 4 && CompareU32(a, b) == 0
      ensures a == b
    {
      LittleEndianInjective(a, b);
    }
  }

  /** It compares 32-bit numbers as numbers. */
  lemma CompareU32Is(x: u32, y: u32)
    ensures CompareU32(ToLittleEndian(x), ToLittleEndian(y)) == if x < y then -1 else if x == y then 0 else 1
  {
    LittleEndianRoundTrip(x);
    LittleEndianRoundTrip(y);
  }

  /** `memory` is an array of the numbers `values`. */
  ghost predicate IsArrayOf(memory: seq<byte>, values: seq<u32>) {
    && |memory| == |values| * 4
    && forall k: nat :: k < |values| ==> Element(memory, k, 4) == ToLittleEndian(values[k])
  }

  /** Searching an array of numbers in ascending order finds the address of an equal one exactly when there is one. */
  method SearchU32(item: u32, memory: seq<byte>, n: nat, ghost values: seq<u32>) returns (address: Option<int>)
    requires n == |values| && n * 4 <= 0x1_0000_0000 && IsArrayOf(memory, values)
    requires forall i, j :: 0 <= i < j < |values| ==> values[i] <= values[j]
    ensures address.Some? <==> item in values
    ensures address.Some? ==> exists k: nat :: k < |values| && address.value == k * 4 && values[k] == item
  {
    hide CompareU32, Element, ToLittleEndian;
    CompareU32Consistent();
    forall i: nat | i < n
      ensures CompareU32(ToLittleEndian(item), Element(memory, i, 4)) == 0 <==> values[i] == item
    {
      CompareU32Is(item, values[i]);
    }
    forall i: nat, j: nat | i < j < n
      ensures CompareU32(Element(memory, i, 4), Element(memory, j, 4)) <= 0
    {
      CompareU32Is(values[i], values[j]);
    }
    ghost var probes;
    address, probes := Search(ToLittleEndian(item), memory, n, 4, CompareU32);
  }
}
