/** FileWithSizeReader and BinaryFileIterator: a raw binary image file,
 *  optionally preceded by a two-int header (cols, rows), read element by
 *  element with an optional byte-order reversal. The file is its byte
 *  sequence; opening it is a flag saying whether the stream starts good.
 *  Ints are read in the host's byte order, taken to be little-endian. */
module BinaryIO {
  import opened Wrappers
  import opened CheckingPolicy
  import opened Arith

  newtype Byte = b: int | 0 <= b < 256

  /** sizeof(int), the header's field type. */
  const IntBytes: nat := 4

  /** The number of size_t values; size_t arithmetic wraps modulo this. */
  const SizeRange: nat := 0x1_0000_0000_0000_0000

  /** The bytes in reverse order. */
  function Reversed(s: seq<Byte>): (r: seq<Byte>)
    ensures |r| == |s|
  {
    seq(|s|, i requires 0 <= i < |s| => s[|s| - 1 - i])
  }

  /** swap_endian: swaps bytes i and size−1−i of a copy for i below half
   *  the size, which reverses the value's bytes. */
  method SwapEndian(value: seq<Byte>) returns (r: seq<Byte>)
    ensures r == Reversed(value)
  {
    var n := |value|;
    var data := new Byte[n](i requires 0 <= i < n => value[i]);
    var i := 0;
    while i < n / 2
      invariant 0 <= i <= n / 2
      invariant forall k :: 0 <= k < i ==> data[k] == value[n - 1 - k]
      invariant forall k :: n - i <= k < n ==> data[k] == value[n - 1 - k]
      invariant forall k :: i <= k < n - i ==> data[k] == value[k]
    {
      var tmp := data[i];
      data[i] := data[n - 1 - i];
      data[n - 1 - i] := tmp;
      i := i + 1;
    }
    r := data[..];
  }

  /** Swapping twice gives the value back, so a byte-swapped file can be
   *  swapped back to the host's order. */
  lemma {:induction false} SwapEndianInvolution(s: seq<Byte>)
    ensures Reversed(Reversed(s)) == s
  {
    forall i | 0 <= i < |s|
      ensures Reversed(Reversed(s))[i] == s[i]
    {
      assert Reversed(Reversed(s))[i] == Reversed(s)[|s| - 1 - i];
    }
  }

  // ----- Header fields -----

  /** An int read from four bytes, least significant first, two's
   *  complement. */
  function IntOf(b: seq<Byte>): (r: int)
    requires |b| == IntBytes
    ensures -0x8000_0000 <= r < 0x8000_0000
  {
    var u := b[0] as int + 0x100 * b[1] as int + 0x1_0000 * b[2] as int + 0x100_0000 * b[3] as int;
    if u >= 0x8000_0000 then u - 0x1_0000_0000 else u
  }

  /** The four bytes an int is stored as. */
  function BytesOf(n: int): (r: seq<Byte>)
    requires -0x8000_0000 <= n < 0x8000_0000
    ensures |r| == IntBytes
  {
    var u := if n < 0 then n + 0x1_0000_0000 else n;
    [(u % 0x100) as Byte, (u / 0x100 % 0x100) as Byte, (u / 0x1_0000 % 0x100) as Byte, (u / 0x100_0000) as Byte]
  }

  lemma IntRoundTrip(n: int)
    requires -0x8000_0000 <= n < 0x8000_0000
    ensures IntOf(BytesOf(n)) == n
  {
    var u := if n < 0 then n + 0x1_0000_0000 else n;
    var b := BytesOf(n);
    assert u == b[0] as int + 0x100 * (u / 0x100);
    assert u / 0x100 == b[1] as int + 0x100 * (u / 0x1_0000);
    assert u / 0x1_0000 == b[2] as int + 0x100 * (u / 0x100_0000);
  }

  /** An int assigned to a size_t: negative values wrap around. */
  function ToSize(n: int): (r: nat)
    requires -0x8000_0000 <= n < 0x8000_0000
    ensures n >= 0 ==> r == n
  {
    if n < 0 then n + SizeRange else n
  }

  /** One header field as read: four bytes, reversed when swapping. */
  function FieldAt(file: seq<Byte>, at: nat, swap: bool): int
    requires at + IntBytes <= |file|
  {
    var raw := file[at..at + IntBytes];
    IntOf(if swap then Reversed(raw) else raw)
  }

  /** The header check as written: rows·cols·sizeof(T) in size_t, where it
   *  wraps, against the file size less two ints. */
  predicate HeaderCheckAsWritten(file: seq<Byte>, swap: bool, elemSize: nat)
    requires |file| >= 2 * IntBytes
  {
    var cols, rows := ToSize(FieldAt(file, 0, swap)), ToSize(FieldAt(file, IntBytes, swap));
    (rows * cols * elemSize) % SizeRange == |file| - 2 * IntBytes
  }

  /** The header is accepted: both fields are present and not negative,
   *  and exactly rows·cols elements follow them. */
  predicate HeaderAccepted(file: seq<Byte>, swap: bool, elemSize: nat)
  {
    |file| >= 2 * IntBytes &&
    FieldAt(file, 0, swap) >= 0 && FieldAt(file, IntBytes, swap) >= 0 &&
    FieldAt(file, IntBytes, swap) * FieldAt(file, 0, swap) * elemSize == |file| - 2 * IntBytes
  }

  /** A file as the header reader expects it: cols, then rows, then the
   *  elements. */
  function EncodeHeader(rows: nat, cols: nat, swap: bool): (r: seq<Byte>)
    requires rows < 0x8000_0000 && cols < 0x8000_0000
    ensures |r| == 2 * IntBytes
  {
    var c, w := BytesOf(cols), BytesOf(rows);
    (if swap then Reversed(c) else c) + (if swap then Reversed(w) else w)
  }

  /** A header written for rows × cols elements of elemSize bytes, in
   *  either byte order, is read back and accepted. */
  lemma HeaderRoundTrip(rows: nat, cols: nat, swap: bool, elemSize: nat, data: seq<Byte>)
    requires rows < 0x8000_0000 && cols < 0x8000_0000 && |data| == rows * cols * elemSize
    ensures var file := EncodeHeader(rows, cols, swap) + data;
      FieldAt(file, 0, swap) == cols && FieldAt(file, IntBytes, swap) == rows &&
      HeaderAccepted(file, swap, elemSize)
  {
    var file := EncodeHeader(rows, cols, swap) + data;
    IntRoundTrip(cols);
    IntRoundTrip(rows);
    SwapEndianInvolution(BytesOf(cols));
    SwapEndianInvolution(BytesOf(rows));
    assert file[0..IntBytes] == if swap then Reversed(BytesOf(cols)) else BytesOf(cols);
    assert file[IntBytes..2 * IntBytes] == if swap then Reversed(BytesOf(rows)) else BytesOf(rows);
    assert rows * cols * elemSize == |file| - 2 * IntBytes;
  }

  /** The as-written check accepts a header of two −1 fields before one
   *  byte of char data: each field becomes 2⁶⁴−1 as a size_t, and their
   *  product wraps to 1, the number of bytes after the header. */
  lemma HeaderCheckAsWrittenAcceptsNegative()
    ensures var file := [255 as Byte, 255, 255, 255, 255, 255, 255, 255, 0];
      FieldAt(file, 0, false) == -1 && FieldAt(file, IntBytes, false) == -1 &&
      ToSize(FieldAt(file, 0, false)) == SizeRange - 1 &&
      HeaderCheckAsWritten(file, false, 1) && !HeaderAccepted(file, false, 1)
  {
    var file := [255 as Byte, 255, 255, 255, 255, 255, 255, 255, 0];
    assert file[0..4] == [255, 255, 255, 255] && file[4..8] == [255, 255, 255, 255];
    assert (SizeRange - 1) * (SizeRange - 1) == (SizeRange - 2) * SizeRange + 1;
  }

  // ----- BinaryFileIterator -----

  /** The k-th element of the data that starts at byte start, as the
   *  iterator delivers it. */
  function Element(stream: seq<Byte>, start: nat, size: nat, swap: bool, k: nat): seq<Byte>
    requires start + (k + 1) * size <= |stream|
  {
    var raw := stream[start + k * size..start + (k + 1) * size];
    if swap then Reversed(raw) else raw
  }

  /** What istream::read leaves in the value's bytes: the next size bytes
   *  when they are there; on a short read the bytes that were left
   *  followed by the old ones; nothing new from a stream that has
   *  already failed. */
  function ReadBuffer(stream: seq<Byte>, pos: nat, good: bool, current: seq<Byte>, size: nat): (r: seq<Byte>)
    requires |current| == size
    ensures |r| == size
  {
    if !good then current
    else if pos + size <= |stream| then stream[pos..pos + size]
    else
      var left := if pos < |stream| then stream[pos..] else [];
      left + current[|left|..]
  }

  class BinaryFileIterator {
    /** The default iterator has no stream: it is the end iterator. */
    const isNull: bool
    const stream: seq<Byte>
    const size: nat
    const swap: bool
    var pos: nat
    var good: bool
    var current: seq<Byte>
    ghost const start: nat
    ghost const streamOpen: bool
    ghost var readCount: nat

    /** The values read so far are the elements from start on, and the
     *  stream stays good exactly while whole elements were there to read. */
    ghost predicate Valid()
      reads this
    {
      size > 0 && |current| == size &&
      (isNull ==> !good) &&
      (!isNull ==>
        readCount >= 1 &&
        (good <==> streamOpen && start + readCount * size <= |stream|) &&
        (good ==> pos == start + readCount * size && current == Element(stream, start, size, swap, readCount - 1)))
    }

    /** BinaryFileIterator(stream[, swap]): reads the first value at once.
     *  Whatever the value held before that read is taken to be zeros. */
    constructor Reading(s: seq<Byte>, at: nat, isOpen: bool, swapBytes: bool, elemSize: nat)
      requires elemSize > 0
      ensures Valid() && !isNull && stream == s && size == elemSize && swap == swapBytes
      ensures start == at && streamOpen == isOpen && readCount == 1
    {
      isNull, stream, size, swap := false, s, elemSize, swapBytes;
      pos, good := at, isOpen;
      current := seq(elemSize, _ => 0 as Byte);
      start, streamOpen, readCount := at, isOpen, 0;
      new;
      Read();
    }

    /** BinaryFileIterator(): the end iterator. */
    constructor EndIterator(elemSize: nat)
      requires elemSize > 0
      ensures Valid() && isNull && !good && size == elemSize
    {
      isNull, stream, size, swap := true, [], elemSize, false;
      pos, good := 0, false;
      current := seq(elemSize, _ => 0 as Byte);
      start, streamOpen, readCount := 0, false, 0;
    }

    /** One read of sizeof(T) bytes into the current value, then the swap
     *  when flagged; a read that runs out of bytes or meets a failed
     *  stream leaves the stream not good. */
    method Read()
      requires !isNull && size > 0 && |current| == size
      requires readCount == 0 ==> pos == start && (good <==> streamOpen)
      requires readCount >= 1 ==> Valid()
      modifies this
      ensures Valid() && readCount == old(readCount) + 1
      ensures good == (old(good) && old(pos) + size <= |stream|)
      ensures good ==> pos == old(pos) + size
      ensures old(good) && !good ==> pos == |stream|
      ensures !old(good) ==> pos == old(pos)
      ensures var b := ReadBuffer(stream, old(pos), old(good), old(current), size);
        current == if swap then Reversed(b) else b
    {
      var b := ReadBuffer(stream, pos, good, current, size);
      if good && pos + size <= |stream| {
        pos := pos + size;
      } else if good {
        pos := |stream|;
        good := false;
      }
      if swap {
        current := SwapEndian(b);
      } else {
        current := b;
      }
      readCount := readCount + 1;
      if good {
        assert pos == start + readCount * size;
        assert b == stream[start + (readCount - 1) * size..start + readCount * size];
      }
    }

    /** Prefix `++`: the next read. */
    method Increment()
      requires Valid() && !isNull
      modifies this
      ensures Valid() && readCount == old(readCount) + 1
      ensures good == (old(good) && old(pos) + size <= |stream|)
      ensures good ==> current == Element(stream, start, size, swap, readCount - 1)
    {
      Read();
    }

    /** `*it`: ios_failure on the end iterator, else the current value. */
    function Deref(): (r: Result<seq<Byte>, Failure>)
      reads this
      ensures r.Err? <==> isNull
      ensures r.Err? ==> r.error == IosFailure
      ensures r.Ok? ==> r.value == current
    {
      if isNull then Err(IosFailure) else Ok(current)
    }

    /** Past the end: no stream, or a stream that is no longer good. */
    predicate PastEnd()
      reads this
    {
      isNull || !good
    }

    /** `!=`: false only when both iterators are past the end. */
    predicate NotEqual(b: BinaryFileIterator)
      reads this, b
    {
      !(PastEnd() && b.PastEnd())
    }

    /** `==`: the negation of `!=`. */
    predicate Equal(b: BinaryFileIterator)
      reads this, b
    {
      !NotEqual(b)
    }
  }

  /** A reading iterator compares equal to the end iterator exactly when
   *  it has tried to read a whole element past the data. */
  lemma EqualToEnd(it: BinaryFileIterator, e: BinaryFileIterator)
    requires it.Valid() && !it.isNull && e.Valid() && e.isNull
    ensures it.Equal(e) <==> !(it.streamOpen && it.start + it.readCount * it.size <= |it.stream|)
    ensures it.Equal(e) == e.Equal(it)
  {
  }

  // ----- FileWithSizeReader -----

  class FileWithSizeReader {
    var filename: string
    var rows: nat
    var cols: nat
    var offset: nat
    var swap: bool
    /** sizeof(DataValue). */
    const elemSize: nat

    /** FileWithSizeReader(): no file, 0 × 0, offset 0, no swap. */
    constructor Empty(size: nat)
      ensures filename == "" && rows == 0 && cols == 0 && offset == 0 && !swap && elemSize == size
    {
      filename, rows, cols, offset, swap := "", 0, 0, 0, false;
      elemSize := size;
    }

    /** The fields a constructor sets before it validates. */
    constructor Named(name: string, swapBytes: bool, size: nat)
      ensures filename == name && swap == swapBytes && elemSize == size
      ensures rows == 0 && cols == 0 && offset == 0
    {
      filename, rows, cols, offset, swap := name, 0, 0, 0, swapBytes;
      elemSize := size;
    }

    /** The copy constructor copies all five fields. */
    constructor Copy(b: FileWithSizeReader)
      ensures filename == b.filename && rows == b.rows && cols == b.cols
      ensures offset == b.offset && swap == b.swap && elemSize == b.elemSize
    {
      filename, rows, cols, offset, swap := b.filename, b.rows, b.cols, b.offset, b.swap;
      elemSize := b.elemSize;
    }

    /** operator=: the same five fields. */
    method Assign(b: FileWithSizeReader)
      requires b.elemSize == elemSize
      modifies this
      ensures filename == old(b.filename) && rows == old(b.rows) && cols == old(b.cols)
      ensures offset == old(b.offset) && swap == old(b.swap)
    {
      filename, rows, cols, offset, swap := b.filename, b.rows, b.cols, b.offset, b.swap;
    }

    /** readsize: cols then rows from the header, each swapped when
     *  flagged, data offset two ints; invalid_argument unless the header
     *  is accepted. A file too short for the header fails the check. */
    method ReadSize(file: seq<Byte>) returns (r: Result<(), Failure>)
      modifies this
      ensures offset == 2 && filename == old(filename) && swap == old(swap)
      ensures |file| >= 2 * IntBytes ==>
        cols == ToSize(FieldAt(file, 0, swap)) && rows == ToSize(FieldAt(file, IntBytes, swap))
      ensures |file| < 2 * IntBytes ==> cols == old(cols) && rows == old(rows)
      ensures r.Ok? <==> HeaderAccepted(file, swap, elemSize)
      ensures r.Err? ==> r.error == InvalidArgument
      ensures r.Ok? ==> rows * cols * elemSize == |file| - 2 * IntBytes
    {
      offset := 2;
      if |file| < 2 * IntBytes {
        return Err(InvalidArgument);
      }
      var c := file[0..IntBytes];
      var w := file[IntBytes..2 * IntBytes];
      if swap {
        c := SwapEndian(c);
        w := SwapEndian(w);
      }
      var n := IntOf(c);
      var m := IntOf(w);
      cols := ToSize(n);
      rows := ToSize(m);
      if n < 0 || m < 0 || rows * cols * elemSize != |file| - 2 * IntBytes {
        return Err(InvalidArgument);
      }
      r := Ok(());
    }

    /** begin(): reopens the file and starts reading offset ints in. */
    method Begin(file: seq<Byte>, isOpen: bool) returns (it: BinaryFileIterator)
      requires elemSize > 0
      ensures fresh(it) && it.Valid() && !it.isNull && it.stream == file
      ensures it.start == offset * IntBytes && it.swap == swap && it.size == elemSize
      ensures it.streamOpen == isOpen && it.readCount == 1
    {
      it := new BinaryFileIterator.Reading(file, offset * IntBytes, isOpen, swap, elemSize);
    }

    /** end(): the default iterator. */
    method End() returns (it: BinaryFileIterator)
      requires elemSize > 0
      ensures fresh(it) && it.Valid() && it.isNull
    {
      it := new BinaryFileIterator.EndIterator(elemSize);
    }
  }

  /** FileWithSizeReader(filename, swap): reads and validates the header. */
  method OpenWithHeader(name: string, file: seq<Byte>, swapBytes: bool, size: nat)
    returns (r: Result<FileWithSizeReader, Failure>)
    ensures r.Ok? <==> HeaderAccepted(file, swapBytes, size)
    ensures r.Err? ==> r.error == InvalidArgument
    ensures r.Ok? ==> var f := r.value;
      f.filename == name && f.swap == swapBytes && f.offset == 2 && f.elemSize == size &&
      f.cols == FieldAt(file, 0, swapBytes) && f.rows == FieldAt(file, IntBytes, swapBytes) &&
      f.rows * f.cols * size == |file| - 2 * IntBytes
  {
    var f := new FileWithSizeReader.Named(name, swapBytes, size);
    var res := f.ReadSize(file);
    if res.Err? {
      return Err(res.error);
    }
    r := Ok(f);
  }

  /** FileWithSizeReader(filename, rows, cols, swap): offset 0, and
   *  invalid_argument unless rows·cols·sizeof(T), in size_t, is the file
   *  size. */
  method OpenWithSize(name: string, fileSize: nat, rows: nat, cols: nat, swapBytes: bool, size: nat)
    returns (r: Result<FileWithSizeReader, Failure>)
    ensures r.Ok? <==> (rows * cols * size) % SizeRange == fileSize
    ensures r.Err? ==> r.error == InvalidArgument
    ensures r.Ok? ==> var f := r.value;
      f.filename == name && f.swap == swapBytes && f.offset == 0 && f.elemSize == size &&
      f.rows == rows && f.cols == cols
  {
    var f := new FileWithSizeReader.Named(name, swapBytes, size);
    f.rows, f.cols := rows, cols;
    if (rows * cols * size) % SizeRange != fileSize {
      return Err(InvalidArgument);
    }
    r := Ok(f);
  }

  /** Once the header is accepted, an iterator begun on the file stays
   *  good for exactly rows·cols reads, and the k-th value it delivers is
   *  the k-th element after the header. */
  lemma HeaderBoundsIteration(file: seq<Byte>, swap: bool, size: nat, it: BinaryFileIterator)
    requires size > 0 && HeaderAccepted(file, swap, size)
    requires it.Valid() && !it.isNull && it.stream == file && it.size == size && it.swap == swap
    requires it.start == 2 * IntBytes && it.streamOpen
    ensures var rows, cols := FieldAt(file, IntBytes, swap), FieldAt(file, 0, swap);
      it.good <==> it.readCount <= rows * cols
  {
    var rows, cols := FieldAt(file, IntBytes, swap), FieldAt(file, 0, swap);
    assert |file| == 2 * IntBytes + rows * cols * size;
    if it.readCount <= rows * cols {
      MulLe(it.readCount, rows * cols, size);
    } else {
      MulLe(rows * cols + 1, it.readCount, size);
    }
  }
}
