/**
 Cutting a telemetry file into headed parts inside a static buffer, and
 rebuilding the file from what was saved of that buffer.
*/
module CutTm {
  import opened Wrappers

  const TOTAL_LENGTH: nat := 240
  const HEADER_LENGTH: nat := 8
  const PART_LENGTH: nat := 232
  const MAX_PARTS: nat := 255

  function PartCount(n: nat): nat {
    n / PART_LENGTH + if n % PART_LENGTH != 0 then 1 else 0
  }

  /** The bytes given to part i: the last part gets the remainder, even when that is zero. */
  function PartSize(n: nat, i: nat): nat {
    if i + 1 != PartCount(n) then PART_LENGTH else n % PART_LENGTH
  }

  /** What cutting n bytes adds to output_size. */
  function Written(n: nat): nat {
    if n == 0 then 0 else (PartCount(n) - 1) * TOTAL_LENGTH + HEADER_LENGTH + n % PART_LENGTH
  }

  /**
   What fread leaves for byte p of a file that is read `stride` bytes at a time
   into one zeroed buffer: past the end of the file, the byte read one stride before.
  */
  function Held(file: seq<byte>, stride: nat, p: nat): byte
    requires stride > 0
  {
    if p < |file| then file[p] else if p < stride then 0 else Held(file, stride, p - stride)
  }

  /** The n bytes such reading takes a file to have. */
  function Seen(file: seq<byte>, stride: nat, n: nat): (read: seq<byte>)
    requires stride > 0
    ensures |read| == n
    ensures n <= |file| ==> read == file[..n]
  {
    seq(n, p requires 0 <= p => Held(file, stride, p))
  }

  /** The buffer byte at p after cutting `file`, where `before` was the byte there. */
  function ImageByte(before: byte, file: seq<byte>, p: nat): byte
    requires PartCount(|file|) <= MAX_PARTS
  {
    var i, r := p / TOTAL_LENGTH, p % TOTAL_LENGTH;
    if i >= PartCount(|file|) then before
    else if r == 0 then PartCount(|file|)
    else if r == 4 then i
    else if r < HEADER_LENGTH || r - HEADER_LENGTH >= PartSize(|file|, i) then before
    else file[i * PART_LENGTH + (r - HEADER_LENGTH)]
  }

  /** `image` is what cutting makes of a buffer that held `before`. */
  ghost predicate IsImage(before: seq<byte>, image: seq<byte>, file: seq<byte>)
    requires PartCount(|file|) <= MAX_PARTS
  {
    && |image| == |before| == MAX_PARTS * TOTAL_LENGTH
    && forall p :: 0 <= p < |image| ==> image[p] == ImageByte(before[p], file, p)
  }

  /** The header bytes that no cut ever writes. */
  predicate UpperHeader(p: nat) {
    var r := p % TOTAL_LENGTH;
    r < HEADER_LENGTH && r != 0 && r != 4
  }

  /** The number of parts a saved file announces; a file shorter than the field leaves zeros behind it. */
  function Announced(saved: seq<byte>): nat {
    LittleEndian(saved + [0, 0, 0, 0])
  }

  /** Whether every read of a saved file of `size` bytes fits the part buffer. */
  predicate Rebuildable(saved: seq<byte>, size: nat) {
    var total := Announced(saved);
    total > 0 ==> (total - 1) * TOTAL_LENGTH + HEADER_LENGTH <= size <= total * TOTAL_LENGTH
  }

  /** The payloads of the first k parts, all of them full. */
  ghost function FullParts(read: seq<byte>, k: nat): (r: seq<byte>)
    requires k * TOTAL_LENGTH <= |read|
    ensures |r| == k * PART_LENGTH
  {
    if k == 0 then []
    else
      FullParts(read, k - 1) + read[(k - 1) * TOTAL_LENGTH + HEADER_LENGTH..k * TOTAL_LENGTH]
  }

  ghost function Rebuilt(saved: seq<byte>, size: nat): seq<byte>
    requires Rebuildable(saved, size)
  {
    var total, read := Announced(saved), Seen(saved, TOTAL_LENGTH, size);
    if total == 0 then [] else Parts(read, total, total)
  }

  /** The payloads of the first k of `total` parts; the last one goes on to the end. */
  ghost function Parts(read: seq<byte>, total: nat, k: nat): seq<byte>
    requires k <= total && 0 < total && (total - 1) * TOTAL_LENGTH + HEADER_LENGTH <= |read|
  {
    if k < total then FullParts(read, k)
    else FullParts(read, total - 1) + read[(total - 1) * TOTAL_LENGTH + HEADER_LENGTH..]
  }

  lemma PartsOneMore(read: seq<byte>, total: nat, k: nat)
    requires k < total && (total - 1) * TOTAL_LENGTH + HEADER_LENGTH <= |read| <= total * TOTAL_LENGTH
    ensures var end := if k < total - 1 then (k + 1) * TOTAL_LENGTH else |read|;
            && k * TOTAL_LENGTH + HEADER_LENGTH <= end <= (k + 1) * TOTAL_LENGTH && end <= |read|
            && Parts(read, total, k + 1) == Parts(read, total, k) + read[k * TOTAL_LENGTH + HEADER_LENGTH..end]
  {
    hide FullParts;
    if k < total - 1 {
      FullPartsOneMore(read, k);
    }
  }

  lemma {:induction false} FullPartsOneMore(read: seq<byte>, k: nat)
    requires (k + 1) * TOTAL_LENGTH <= |read|
    ensures FullParts(read, k + 1) == FullParts(read, k) + read[k * TOTAL_LENGTH + HEADER_LENGTH..(k + 1) * TOTAL_LENGTH]
  {
  }

  /** fread of n bytes at an offset: a short read leaves the rest of the buffer alone. */
  method Fread(file: seq<byte>, offset: nat, n: nat, buffer: array<byte>)
    requires n <= buffer.Length
    modifies buffer
    ensures forall j :: 0 <= j < buffer.Length ==>
              buffer[j] == if j < n && offset + j < |file| then file[offset + j] else old(buffer[j])
  {
    forall j | 0 <= j < n && offset + j < |file| {
      buffer[j] := file[offset + j];
    }
  }

  /** The buffer holds what reading part by part, up to the part at `offset`, leaves in it. */
  ghost predicate Buffered(buffer: array<byte>, n: nat, file: seq<byte>, stride: nat, offset: int)
    requires stride > 0 && n <= buffer.Length && offset + stride >= 0
    reads buffer
  {
    forall j :: 0 <= j < n ==> buffer[j] == if offset + j < 0 then 0 else Held(file, stride, offset + j)
  }

  /** Past the end of a file reading goes on with the byte as many whole strides before as it takes, or with zeros. */
  lemma {:induction false} HeldIs(file: seq<byte>, stride: nat, p: nat, j: nat)
    requires stride > 0 && j * stride <= p
    requires j > 0 ==> p - (j - 1) * stride >= |file|
    ensures p - j * stride < |file| ==> Held(file, stride, p) == file[p - j * stride]
    ensures |file| <= p - j * stride < stride ==> Held(file, stride, p) == 0
    decreases j
  {
    if j > 0 {
      NextStride(j - 1, stride);
      if j > 1 {
        NextStride(j - 2, stride);
      }
      HeldIs(file, stride, p - stride, j - 1);
    }
  }

  lemma NextStride(j: nat, stride: nat)
    ensures (j + 1) * stride == j * stride + stride && j * stride >= 0
  {
  }

  /** Byte k of what is rebuilt is the payload byte of part k / 232, whatever the saved file. */
  lemma RebuiltAt(saved: seq<byte>, size: nat, k: nat)
    requires Rebuildable(saved, size) && k < |Rebuilt(saved, size)|
    ensures var total, p := Announced(saved), k / 232 * 240 + 8 + k % 232;
            && total > 0 && |Rebuilt(saved, size)| == size - 8 * total
            && p < size && Rebuilt(saved, size)[k] == Held(saved, 240, p)
  {
    hide Held, Announced, FullParts, Parts;
    var total, read := Announced(saved), Seen(saved, TOTAL_LENGTH, size);
    PartsAt(read, total, k / PART_LENGTH, k % PART_LENGTH);
  }

  lemma PartsAt(read: seq<byte>, total: nat, i: nat, r: nat)
    requires 0 < total && (total - 1) * TOTAL_LENGTH + HEADER_LENGTH <= |read| <= total * TOTAL_LENGTH
    requires r < PART_LENGTH
    ensures |Parts(read, total, total)| == |read| - HEADER_LENGTH * total
    ensures i * PART_LENGTH + r < |read| - HEADER_LENGTH * total ==>
              var p := i * TOTAL_LENGTH + HEADER_LENGTH + r;
              p < |read| && Parts(read, total, total)[i * PART_LENGTH + r] == read[p]
  {
    hide FullParts;
    if i < total - 1 {
      FullPartsAt(read, total - 1, i, r);
    }
  }

  /** Byte r of the i-th payload. */
  lemma {:induction false} FullPartsAt(read: seq<byte>, n: nat, i: nat, r: nat)
    requires n * TOTAL_LENGTH <= |read| && i < n && r < PART_LENGTH
    ensures FullParts(read, n)[i * PART_LENGTH + r] == read[i * TOTAL_LENGTH + HEADER_LENGTH + r]
  {
    if i < n - 1 {
      FullPartsAt(read, n - 1, i, r);
    }
  }

  class Cutter {
    const output: array<byte>
    var outputSize: nat

    ghost predicate Valid()
      reads this, output
    {
      && output.Length == MAX_PARTS * TOTAL_LENGTH
      && ClearHeaders(output[..])
    }

    constructor ()
      ensures Valid() && outputSize == 0
    {
      output := new byte[MAX_PARTS * TOTAL_LENGTH](_ => 0);
      outputSize := 0;
    }

    /** Cuts a file that is taken to have `baseSize` bytes, whatever its length. */
    method CutTheTm(file: seq<byte>, baseSize: nat) returns (parts: nat)
      requires Valid() && PartCount(baseSize) <= MAX_PARTS
      modifies this, output
      ensures Valid()
      ensures parts == PartCount(baseSize)
      ensures IsImage(old(output[..]), output[..], Seen(file, PART_LENGTH, baseSize))
      ensures outputSize == old(outputSize) + Written(baseSize)
    {
      hide Held;
      parts := baseSize / PART_LENGTH;
      var remainder := baseSize % PART_LENGTH;
      if remainder != 0 {
        parts := parts + 1;
      }
      ghost var before, read := output[..], Seen(file, PART_LENGTH, baseSize);
      var buffer := new byte[PART_LENGTH](_ => 0);
      for i := 0 to parts
        invariant forall p: nat :: p < i * TOTAL_LENGTH ==> output[p] == ImageByte(before[p], read, p)
        invariant forall p: nat :: i * TOTAL_LENGTH <= p < output.Length ==> output[p] == before[p]
        invariant i < parts ==> Buffered(buffer, PART_LENGTH, file, PART_LENGTH, (i - 1) * PART_LENGTH)
        invariant outputSize == old(outputSize) + if i < parts || parts == 0 then i * TOTAL_LENGTH else Written(baseSize)
      {
        var partSize := if i != parts - 1 then PART_LENGTH else remainder;
        ReadPart(file, PART_LENGTH, i * PART_LENGTH, partSize, buffer);
        WritePart(read, i, parts, partSize, buffer);
        outputSize := outputSize + HEADER_LENGTH + partSize;
      }
    }

    /** The two header bytes and the payload of part i. */
    method WritePart(ghost read: seq<byte>, i: nat, parts: nat, partSize: nat, buffer: array<byte>)
      requires output.Length == MAX_PARTS * TOTAL_LENGTH && buffer != output && buffer.Length == PART_LENGTH
      requires i < parts == PartCount(|read|) <= MAX_PARTS && partSize == PartSize(|read|, i)
      requires forall j :: 0 <= j < partSize ==> buffer[j] == read[i * PART_LENGTH + j]
      modifies output
      ensures forall p: nat :: p < output.Length ==>
                output[p] == if p / TOTAL_LENGTH == i then ImageByte(old(output[p]), read, p) else old(output[p])
    {
      var offset := i * TOTAL_LENGTH;
      output[offset] := parts % 0x100;
      output[offset + 4] := i % 0x100;
      for j := 0 to partSize
        invariant forall p: nat :: p < output.Length ==>
          output[p] == if p / TOTAL_LENGTH == i && p % TOTAL_LENGTH < HEADER_LENGTH + j
                       then ImageByte(old(output[p]), read, p) else old(output[p])
      {
        output[offset + HEADER_LENGTH + j] := buffer[j];
      }
    }

    /** save_to_new_file: the first output_size bytes of the buffer. */
    method Save() returns (saved: seq<byte>)
      requires outputSize <= output.Length
      ensures saved == output[..outputSize]
    {
      saved := output[..outputSize];
    }

    method Reconstruct(saved: seq<byte>) returns (rebuilt: seq<byte>)
      requires Rebuildable(saved, outputSize)
      ensures rebuilt == Rebuilt(saved, outputSize)
    {
      hide Held, Parts, Announced, Buffered, Seen;
      var total := Announced(saved);
      ghost var read := Seen(saved, TOTAL_LENGTH, outputSize);
      var buffer := new byte[TOTAL_LENGTH](_ => 0);
      rebuilt := [];
      var offset := 0;
      if total > 0 {
        NothingRead(buffer, saved, read, total);
      }
      for i := 0 to total
        invariant offset == i * TOTAL_LENGTH
        invariant rebuilt == if total > 0 then Parts(read, total, i) else []
        invariant i < total ==> Buffered(buffer, TOTAL_LENGTH, saved, TOTAL_LENGTH, offset - TOTAL_LENGTH)
      {
        PartsOneMore(read, total, i);
        var length := if i < total - 1 then TOTAL_LENGTH else outputSize - offset;
        var payload := ReadPayload(saved, outputSize, offset, length, buffer);
        rebuilt := rebuilt + payload;
        offset := offset + TOTAL_LENGTH;
      }
    }
  }

  lemma NothingRead(buffer: array<byte>, file: seq<byte>, read: seq<byte>, total: nat)
    requires buffer.Length == TOTAL_LENGTH && forall j :: 0 <= j < buffer.Length ==> buffer[j] == 0
    requires 0 < total && (total - 1) * TOTAL_LENGTH + HEADER_LENGTH <= |read|
    ensures Buffered(buffer, TOTAL_LENGTH, file, TOTAL_LENGTH, 0 - TOTAL_LENGTH)
    ensures Parts(read, total, 0) == []
  {
  }

  /** One turn's fread leaves in the buffer what the file is taken to hold there. */
  method ReadPart(file: seq<byte>, stride: nat, offset: nat, n: nat, buffer: array<byte>)
    requires 0 < stride == buffer.Length && n <= stride
    requires Buffered(buffer, stride, file, stride, offset - stride)
    modifies buffer
    ensures Buffered(buffer, n, file, stride, offset)
  {
    Fread(file, offset, n, buffer);
  }

  /** One turn of the rebuilding loop: the part at `offset`, less its header. */
  method ReadPayload(saved: seq<byte>, ghost size: nat, offset: nat, n: nat, buffer: array<byte>)
    returns (payload: seq<byte>)
    requires buffer.Length == TOTAL_LENGTH && HEADER_LENGTH <= n <= TOTAL_LENGTH && offset + n <= size
    requires Buffered(buffer, TOTAL_LENGTH, saved, TOTAL_LENGTH, offset - TOTAL_LENGTH)
    modifies buffer
    ensures Buffered(buffer, n, saved, TOTAL_LENGTH, offset)
    ensures payload == Seen(saved, TOTAL_LENGTH, size)[offset + HEADER_LENGTH..offset + n]
  {
    hide Held;
    ReadPart(saved, TOTAL_LENGTH, offset, n, buffer);
    payload := buffer[HEADER_LENGTH..n];
  }

  // ------------------------------------------------------ what a cut preserves

  /** How many bytes of a file survive: a last part that would be full is given no payload. */
  function Surviving(n: nat): nat {
    if n > 0 && n % PART_LENGTH == 0 then n - PART_LENGTH else n
  }

  ghost predicate ClearHeaders(b: seq<byte>) {
    forall p: nat :: p < |b| && UpperHeader(p) ==> b[p] == 0
  }

  /** Where byte r of part i is written. */
  function Position(i: nat, r: nat): nat {
    i * TOTAL_LENGTH + r
  }

  /** Every byte a cut writes lies inside the static buffer if and only if there are at most 255 parts. */
  lemma CutStaysInside(n: nat)
    ensures PartCount(n) <= MAX_PARTS <==>
            forall i: nat, r: nat ::
              i < PartCount(n) && (r == 0 || r == 4 || HEADER_LENGTH <= r < HEADER_LENGTH + PartSize(n, i)) ==>
                Position(i, r) < MAX_PARTS * TOTAL_LENGTH
  {
    if PartCount(n) > MAX_PARTS {
      assert Position(MAX_PARTS, 0) == MAX_PARTS * TOTAL_LENGTH;
    }
  }

  /** The parts are as few as can hold the bytes, and only the last one is not full. */
  lemma PartCountIs(n: nat)
    ensures n == 0 ==> PartCount(n) == 0
    ensures n > 0 ==> (PartCount(n) - 1) * 232 < n <= PartCount(n) * 232
    ensures forall i: nat :: i < PartCount(n) ==> PartSize(n, i) == if i < PartCount(n) - 1 then 232 else n % 232
  {
  }

  /** A byte of the buffer that is no count, no part number and no payload byte keeps its value. */
  lemma UntouchedAt(before: seq<byte>, image: seq<byte>, file: seq<byte>, p: nat)
    requires PartCount(|file|) <= MAX_PARTS && IsImage(before, image, file) && p < |image|
    requires p / 240 < PartCount(|file|) ==>
               && p % 240 != 0 && p % 240 != 4
               && (p % 240 < 8 || p / 240 * 232 + (p % 240 - 8) >= Surviving(|file|))
    ensures image[p] == before[p]
  {
  }

  /** What a cut wrote ends at the last payload byte; behind it the buffer is as it was. */
  lemma UntouchedBehind(before: seq<byte>, image: seq<byte>, file: seq<byte>, size: nat)
    requires PartCount(|file|) <= MAX_PARTS && IsImage(before, image, file) && Written(|file|) <= size <= |image|
    ensures |before| == |image| && image[Written(|file|)..size] == before[Written(|file|)..size]
  {
    hide IsImage;
    assert |before| == |image| by { ImageLength(before, image, file); }
    forall p: nat | Written(|file|) <= p < size
      ensures image[p] == before[p]
    {
      BehindIsUnwritten(|file|, p);
      UntouchedAt(before, image, file, p);
    }
  }

  lemma ImageLength(before: seq<byte>, image: seq<byte>, file: seq<byte>)
    requires PartCount(|file|) <= MAX_PARTS && IsImage(before, image, file)
    ensures |image| == |before| == MAX_PARTS * TOTAL_LENGTH
  {
  }

  lemma BehindIsUnwritten(n: nat, p: nat)
    requires Written(n) <= p
    ensures p / 240 < PartCount(n) ==>
              p % 240 != 0 && p % 240 != 4 && (p % 240 < 8 || p / 240 * 232 + (p % 240 - 8) >= Surviving(n))
  {
  }

  /** Byte k of the file lands in part k / 232, behind that part's header. */
  lemma PayloadAt(before: seq<byte>, image: seq<byte>, file: seq<byte>, k: nat)
    requires PartCount(|file|) <= MAX_PARTS && IsImage(before, image, file)
    requires k < Surviving(|file|)
    ensures var p := k / PART_LENGTH * TOTAL_LENGTH + HEADER_LENGTH + k % PART_LENGTH;
            p < Written(|file|) <= |image| && image[p] == file[k]
  {
    var i, r := k / PART_LENGTH, HEADER_LENGTH + k % PART_LENGTH;
    var p := i * TOTAL_LENGTH + r;
    assert p / TOTAL_LENGTH == i && p % TOTAL_LENGTH == r;
  }

  /** Byte r of header i: the count, the part number, or a byte no cut writes. */
  lemma HeaderByte(before: seq<byte>, image: seq<byte>, file: seq<byte>, i: nat, r: nat)
    requires PartCount(|file|) <= MAX_PARTS && IsImage(before, image, file) && ClearHeaders(before)
    requires i < PartCount(|file|) && r < HEADER_LENGTH
    ensures i * TOTAL_LENGTH + HEADER_LENGTH <= Written(|file|) <= |image|
    ensures image[i * TOTAL_LENGTH + r] == if r == 0 then PartCount(|file|) else if r == 4 then i else 0
  {
    var p := i * TOTAL_LENGTH + r;
    assert p / TOTAL_LENGTH == i && p % TOTAL_LENGTH == r;
    assert r != 0 && r != 4 ==> UpperHeader(p);
  }

  /** Header i decodes to the number of parts and to i, because the upper bytes stay zero. */
  lemma HeaderAt(before: seq<byte>, image: seq<byte>, file: seq<byte>, i: nat)
    requires PartCount(|file|) <= MAX_PARTS && IsImage(before, image, file) && ClearHeaders(before)
    requires i < PartCount(|file|)
    ensures i * TOTAL_LENGTH + HEADER_LENGTH <= Written(|file|) <= |image|
    ensures LittleEndian(image[i * TOTAL_LENGTH..]) == PartCount(|file|)
    ensures LittleEndian(image[i * TOTAL_LENGTH + 4..]) == i
  {
    hide IsImage, ClearHeaders, PartCount, Written;
    HeaderByte(before, image, file, i, 0);
    HeaderByte(before, image, file, i, 1);
    HeaderByte(before, image, file, i, 2);
    HeaderByte(before, image, file, i, 3);
    HeaderByte(before, image, file, i, 4);
    HeaderByte(before, image, file, i, 5);
    HeaderByte(before, image, file, i, 6);
    HeaderByte(before, image, file, i, 7);
  }

  /** Unless a last full part was dropped, the parts lie without a gap: 8 header bytes each and all of the file. */
  lemma WrittenIsTight(n: nat)
    ensures Written(n) == Surviving(n) + HEADER_LENGTH * PartCount(n)
    ensures Surviving(n) == n <==> n == 0 || n % PART_LENGTH != 0
  {
  }

  /** Below the last part, both the payloads and the parts are full. */
  lemma FullPartEnds(n: nat, k: nat)
    requires k < PartCount(n)
    ensures k * TOTAL_LENGTH <= Written(n) && k * PART_LENGTH <= Surviving(n) <= n
  {
  }

  lemma {:induction false} FullPartsAre(before: seq<byte>, image: seq<byte>, file: seq<byte>, size: nat, k: nat)
    requires PartCount(|file|) <= MAX_PARTS && IsImage(before, image, file)
    requires k < PartCount(|file|) && Written(|file|) <= size <= |image|
    ensures k * TOTAL_LENGTH <= size && k * PART_LENGTH <= Surviving(|file|)
    ensures FullParts(image[..size], k) == file[..k * PART_LENGTH]
  {
    hide IsImage, PartCount, Written, Surviving;
    FullPartEnds(|file|, k);
    if k > 0 {
      FullPartsAre(before, image, file, size, k - 1);
      PartIs(before, image, file, k - 1, k * TOTAL_LENGTH);
      var from, saved := (k - 1) * TOTAL_LENGTH + HEADER_LENGTH, image[..size];
      assert saved[from..k * TOTAL_LENGTH] == image[from..k * TOTAL_LENGTH];
      assert FullParts(saved, k) == FullParts(saved, k - 1) + saved[from..k * TOTAL_LENGTH];
      assert file[..k * PART_LENGTH] == file[..(k - 1) * PART_LENGTH] + file[(k - 1) * PART_LENGTH..k * PART_LENGTH];
    }
  }

  /** The payload of part i, up to byte `end` of what the cut wrote. */
  lemma PartIs(before: seq<byte>, image: seq<byte>, file: seq<byte>, i: nat, end: nat)
    requires PartCount(|file|) <= MAX_PARTS && IsImage(before, image, file)
    requires i < PartCount(|file|)
    requires i * TOTAL_LENGTH + HEADER_LENGTH <= end <= (i + 1) * TOTAL_LENGTH && end <= Written(|file|)
    ensures var size := end - i * TOTAL_LENGTH - HEADER_LENGTH;
            && Written(|file|) <= |image| && i * PART_LENGTH + size <= Surviving(|file|)
            && image[i * TOTAL_LENGTH + HEADER_LENGTH..end] == file[i * PART_LENGTH..i * PART_LENGTH + size]
  {
    assert |image| == MAX_PARTS * TOTAL_LENGTH;
    hide IsImage;
    var from, start := i * TOTAL_LENGTH + HEADER_LENGTH, i * PART_LENGTH;
    PartEnds(|file|, i, end);
    var got, want := image[from..end], file[start..start + (end - from)];
    forall r | 0 <= r < |got|
      ensures got[r] == want[r]
    {
      QuotientOf(i, r);
      PayloadAt(before, image, file, start + r);
    }
  }

  lemma QuotientOf(i: nat, r: nat)
    requires r < PART_LENGTH
    ensures (i * PART_LENGTH + r) / PART_LENGTH == i && (i * PART_LENGTH + r) % PART_LENGTH == r
  {
  }

  /** A part's payload is within the surviving bytes of the file and the written bytes of the buffer. */
  lemma PartEnds(n: nat, i: nat, end: nat)
    requires PartCount(n) <= MAX_PARTS && i < PartCount(n)
    requires i * TOTAL_LENGTH + HEADER_LENGTH <= end <= (i + 1) * TOTAL_LENGTH && end <= Written(n)
    ensures i * PART_LENGTH + (end - i * TOTAL_LENGTH - HEADER_LENGTH) <= Surviving(n)
    ensures Written(n) <= MAX_PARTS * TOTAL_LENGTH
  {
  }

  /** Where the last part begins and ends, in the file and in the buffer. */
  lemma LastPart(n: nat)
    ensures n == 0 ==> PartCount(n) == 0 && Surviving(n) == 0 && Written(n) == 0
    ensures n > 0 ==> PartCount(n) > 0
    ensures n > 0 ==> var written := Written(n) - (PartCount(n) - 1) * TOTAL_LENGTH - HEADER_LENGTH;
                      && 0 <= written <= PART_LENGTH
                      && Surviving(n) == (PartCount(n) - 1) * PART_LENGTH + written <= n
    ensures Written(n) <= PartCount(n) * TOTAL_LENGTH
  {
  }

  /** What a cut saves announces its own number of parts, so it can be rebuilt unless it is longer than they are. */
  lemma AnnouncedIs(before: seq<byte>, image: seq<byte>, file: seq<byte>, size: nat)
    requires PartCount(|file|) <= MAX_PARTS && IsImage(before, image, file) && ClearHeaders(before)
    requires |file| > 0 && Written(|file|) <= size <= |image|
    ensures Announced(image[..size]) == PartCount(|file|)
    ensures Rebuildable(image[..size], size) <==> size <= PartCount(|file|) * TOTAL_LENGTH
  {
    hide IsImage, ClearHeaders, PartCount, Written;
    LastPart(|file|);
    HeaderAt(before, image, file, 0);
    assert (image[..size] + [0, 0, 0, 0])[..4] == image[..4];
    assert image[0..] == image;
  }

  /**
   What a cut saves, after cuts that had left `rest` bytes in the output size,
   rebuilds to the file less a last full part, followed by the `rest` bytes that
   the buffer held there before the cut.
  */
  lemma RoundTripAfter(before: seq<byte>, image: seq<byte>, file: seq<byte>, rest: nat)
    requires PartCount(|file|) <= MAX_PARTS && IsImage(before, image, file) && ClearHeaders(before)
    requires |file| > 0 && Written(|file|) + rest <= |image|
    ensures var n, size := |file|, Written(|file|) + rest;
            && |before| == |image|
            && (Rebuildable(image[..size], size) <==> size <= PartCount(n) * TOTAL_LENGTH)
            && (Rebuildable(image[..size], size) ==>
                  Rebuilt(image[..size], size) == file[..Surviving(n)] + before[Written(n)..size])
  {
    hide IsImage, ClearHeaders, PartCount, Written, Surviving, FullParts, Announced, Held;
    var n, parts, size := |file|, PartCount(|file|), Written(|file|) + rest;
    AnnouncedIs(before, image, file, size);
    UntouchedBehind(before, image, file, size);
    LastPart(n);
    if size <= parts * TOTAL_LENGTH {
      var start, from := (parts - 1) * PART_LENGTH, (parts - 1) * TOTAL_LENGTH + HEADER_LENGTH;
      FullPartsAre(before, image, file, size, parts - 1);
      PartIs(before, image, file, parts - 1, Written(n));
      assert file[..Surviving(n)] == file[..start] + file[start..Surviving(n)];
      assert Seen(image[..size], TOTAL_LENGTH, size) == image[..size];
      assert image[..size][from..] == image[from..Written(n)] + image[Written(n)..size];
    }
  }

  /**
   Rebuilding what a program's first cut saved gives the file back, less a last
   full part; so it is exact if and only if the length is 0 or no multiple of 232.
  */
  lemma RoundTrip(before: seq<byte>, image: seq<byte>, file: seq<byte>)
    requires PartCount(|file|) <= MAX_PARTS && IsImage(before, image, file) && ClearHeaders(before)
    ensures var n := |file|;
            && Written(n) <= |image| && Rebuildable(image[..Written(n)], Written(n))
            && var rebuilt := Rebuilt(image[..Written(n)], Written(n));
               && rebuilt == file[..Surviving(n)]
               && (rebuilt == file <==> n == 0 || n % PART_LENGTH != 0)
  {
    hide PartCount, Written, Surviving, FullParts;
    LastPart(|file|);
    WrittenIsTight(|file|);
    if |file| > 0 {
      RoundTripAfter(before, image, file, 0);
    }
  }

  /** Cutting nothing writes nothing. */
  lemma EmptyCut(before: seq<byte>, image: seq<byte>)
    requires IsImage(before, image, [])
    ensures image == before
  {
  }

  /**
   The whole of test_cut_tm: cut, save, reconstruct. The output size is never
   reset, so a later cut also rebuilds as many stale bytes as it had reached.
  */
  method CutAndReconstruct(c: Cutter, file: seq<byte>) returns (rebuilt: seq<byte>)
    requires c.Valid() && PartCount(|file|) <= MAX_PARTS
    requires c.outputSize <= if file == [] then c.output.Length else PartCount(|file|) * TOTAL_LENGTH - Written(|file|)
    requires file == [] ==> Rebuildable(c.output[..c.outputSize], c.outputSize)
    modifies c, c.output
    ensures c.Valid() && c.outputSize == old(c.outputSize) + Written(|file|) <= c.output.Length
    ensures if file == [] then rebuilt == Rebuilt(old(c.output[..c.outputSize]), c.outputSize)
            else rebuilt == file[..Surviving(|file|)] + old(c.output[..])[Written(|file|)..c.outputSize]
    ensures old(c.outputSize) == 0 ==>
              rebuilt == file[..Surviving(|file|)] && (rebuilt == file <==> |file| == 0 || |file| % PART_LENGTH != 0)
  {
    hide IsImage, ClearHeaders, PartCount, Written, Surviving, Rebuilt, Announced;
    ghost var before, rest := c.output[..], c.outputSize;
    var parts := c.CutTheTm(file, |file|);
    ghost var image := c.output[..];
    assert Seen(file, PART_LENGTH, |file|) == file;
    LastPart(|file|);
    if file == [] {
      EmptyCut(before, image);
    } else {
      RoundTripAfter(before, image, file, rest);
    }
    if rest == 0 {
      RoundTrip(before, image, file);
    }
    var saved := c.Save();
    assert saved == image[..c.outputSize];
    rebuilt := c.Reconstruct(saved);
  }
}
