/** Small datatypes and byte decodings shared by every component. */
module Wrappers {

  /** A value that may be absent: a NULL pointer, or a file that does not exist. */
  datatype Option<+T> = None | Some(value: T)

  type byte = x: int | 0 <= x < 0x100

  /** The C `unsigned int` of the target. */
  type u32 = x: int | 0 <= x < 0x1_0000_0000

  /** The unsigned value of the first four bytes, least significant first. */
  function LittleEndian(b: seq<byte>): (n: u32)
    requires |b| >= 4
  {
    b[0] as int + b[1] as int * 0x100 + b[2] as int * 0x1_0000 + b[3] as int * 0x100_0000
  }

  function ToLittleEndian(n: u32): (b: seq<byte>)
    ensures |b| == 4
  {
    [n % 0x100, n / 0x100 % 0x100, n / 0x1_0000 % 0x100, n / 0x100_0000]
  }

  /** Byte i is the digit of weight 0x100^i. */
  lemma LittleEndianDigits(b: seq<byte>)
    requires |b| >= 4
    ensures var n := LittleEndian(b);
            && n % 0x100 == b[0] && n / 0x100 % 0x100 == b[1]
            && n / 0x1_0000 % 0x100 == b[2] && n / 0x100_0000 == b[3]
  {
    var high := b[2] as int + 0x100 * b[3] as int;
    DigitsAt(LittleEndian(b), b[0], b[1] as int + 0x100 * high);
    DigitsAt(b[1] as int + 0x100 * high, b[1], high);
    DigitsAt(high, b[2], b[3]);
  }

  lemma DigitsAt(n: int, low: byte, high: int)
    requires n == low as int + 0x100 * high && high >= 0
    ensures n % 0x100 == low && n / 0x100 == high
    ensures n / 0x1_0000 == high / 0x100 && n / 0x100_0000 == high / 0x1_0000
  {
  }

  lemma LittleEndianRoundTrip(n: u32)
    ensures LittleEndian(ToLittleEndian(n)) == n
  {
    var a, b, c := n / 0x100, n / 0x1_0000, n / 0x100_0000;
    assert n == a * 0x100 + n % 0x100;
    assert a == b * 0x100 + a % 0x100;
    assert b == c * 0x100 + b % 0x100;
  }

  /** Four bytes are determined by their value. */
  lemma LittleEndianInjective(a: seq<byte>, b: seq<byte>)
    requires |a| == 4 && |b| == 4 && LittleEndian(a) == LittleEndian(b)
    ensures a == b
  {
    LowByte(a[0], a[1] as int + 0x100 * (a[2] as int + 0x100 * a[3] as int),
            b[0], b[1] as int + 0x100 * (b[2] as int + 0x100 * b[3] as int));
    LowByte(a[1], a[2] as int + 0x100 * a[3] as int, b[1], b[2] as int + 0x100 * b[3] as int);
    LowByte(a[2], a[3], b[2], b[3]);
  }

  lemma LowByte(a: byte, high: int, b: byte, high': int)
    requires a as int + 0x100 * high == b as int + 0x100 * high'
    ensures a == b && high == high'
  {
  }

  /** What a copy of `size` bytes takes of a longer item. */
  function Truncated(item: seq<byte>, size: nat): (r: seq<byte>)
    ensures |r| <= size
  {
    if |item| <= size then item else item[..size]
  }

  function Copies<T>(x: T, n: nat): (r: seq<T>)
    ensures |r| == n
  {
    seq(n, _ => x)
  }
}
