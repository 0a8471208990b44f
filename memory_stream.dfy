/** The in-memory byte stream every loader hands out: a buffer, its length
    and a read cursor. */
module MemoryStreams {
  import opened Common

  /** `length - 1` computed on a 64-bit `size_t` (0 - 1 wraps to the largest value). */
  function SizeMinus(length: nat, k: nat): (r: int)
    requires k <= 3
    ensures k <= length < TWO_64 + k ==> r == length - k
    ensures length < k ==> r == TWO_64 + length - k
  {
    if length < k then TWO_64 + length - k else (length - k) % TWO_64
  }

  /** Result of `readByte16` as written: the bounds check compares the cursor
      with `length - 1` for equality only, and the value is read from the start
      of the buffer rather than at the cursor. Yields (value, new cursor). */
  function Byte16AsWritten(data: seq<Byte>, length: nat, pos: nat): (r: (nat, nat))
    ensures pos == SizeMinus(length, 1) ==> r == (0, pos)
    ensures pos != SizeMinus(length, 1) ==> r == (LE16(data, 0), pos + 2)
  {
    if pos == SizeMinus(length, 1) then (0, pos) else (LE16(data, 0), pos + 2)
  }

  /** Result of `readByte32` as written (same two defects, four bytes). */
  function Byte32AsWritten(data: seq<Byte>, length: nat, pos: nat): (r: (nat, nat))
    ensures pos == SizeMinus(length, 3) ==> r == (0, pos)
    ensures pos != SizeMinus(length, 3) ==> r == (LE32(data, 0), pos + 4)
  {
    if pos == SizeMinus(length, 3) then (0, pos) else (LE32(data, 0), pos + 4)
  }

  /** The evidently intended `readByte16`: when two bytes remain, the
      little-endian value at the cursor and a cursor advanced by two;
      otherwise 0 and the cursor left alone (as `readByte8` does at the end). */
  function Byte16(data: seq<Byte>, pos: nat): (r: (nat, nat))
    ensures r.1 == pos || r.1 == pos + 2
    ensures r.1 <= |data| || r.1 == pos
    ensures r.0 < TWO_16
  {
    if pos + 2 <= |data| then (LE16(data, pos), pos + 2) else (0, pos)
  }

  /** The evidently intended `readByte32`. */
  function Byte32(data: seq<Byte>, pos: nat): (r: (nat, nat))
    ensures r.1 == pos || r.1 == pos + 4
    ensures r.1 <= |data| || r.1 == pos
    ensures r.0 < TWO_32
  {
    if pos + 4 <= |data| then (LE32(data, pos), pos + 4) else (0, pos)
  }

  /** Little-endian encodings of 16- and 32-bit values. */
  function EncodeLE16(v: nat): (b: seq<Byte>)
    requires v < TWO_16
    ensures |b| == 2
  {
    [v % 256, v / 256]
  }

  function EncodeLE32(v: nat): (b: seq<Byte>)
    requires v < TWO_32
    ensures |b| == 4
  {
    EncodeLE16(v % 0x1_0000) + EncodeLE16(v / 0x1_0000)
  }

  /** The intended 16-bit read returns any value written little-endian at
      the cursor, wherever the cursor is. */
  lemma Byte16RoundTrip(before: seq<Byte>, v: nat, after: seq<Byte>)
    requires v < TWO_16
    ensures Byte16(before + EncodeLE16(v) + after, |before|) == (v, |before| + 2)
  {
    var d := before + EncodeLE16(v) + after;
    assert d[|before|] == v % 256 && d[|before| + 1] == v / 256;
  }

  lemma Byte32RoundTrip(before: seq<Byte>, v: nat, after: seq<Byte>)
    requires v < TWO_32
    ensures Byte32(before + EncodeLE32(v) + after, |before|) == (v, |before| + 4)
  {
    var d := before + EncodeLE32(v) + after;
    var lo, hi := v % 0x1_0000, v / 0x1_0000;
    assert d[|before|] == lo % 256 && d[|before| + 1] == lo / 256;
    assert d[|before| + 2] == hi % 256 && d[|before| + 3] == hi / 256;
    assert LE16(d, |before|) == lo;
    assert LE16(d, |before| + 2) == hi;
  }

  /** Counterexample for `readByte16` as written: from the middle of the
      buffer [1, 2, 3, 4] it yields the first two bytes (0x0201) where the
      bytes at the cursor (0x0403) were meant, and at the end of the buffer it
      advances the cursor past the end instead of refusing. */
  lemma Byte16AsWrittenDiffers()
    ensures Byte16AsWritten([1, 2, 3, 4], 4, 2) == (0x0201, 4)
    ensures Byte16([1, 2, 3, 4], 2) == (0x0403, 4)
    ensures Byte16AsWritten([1, 2, 3, 4], 4, 4) == (0x0201, 6)
    ensures Byte16([1, 2, 3, 4], 4) == (0, 4)
  {
  }

  /** Counterexample for `readByte32` as written: at cursor 4 of an 8-byte
      buffer it reads bytes 0..3; at the end of a 4-byte buffer it moves the
      cursor to 8. */
  lemma Byte32AsWrittenDiffers()
    ensures Byte32AsWritten([1, 0, 0, 0, 2, 0, 0, 0], 8, 4) == (1, 8)
    ensures Byte32([1, 0, 0, 0, 2, 0, 0, 0], 4) == (2, 8)
    ensures Byte32AsWritten([1, 0, 0, 0], 4, 4) == (1, 8)
    ensures Byte32([1, 0, 0, 0], 4) == (0, 4)
  {
    assert LE16([1, 0, 0, 0, 2, 0, 0, 0], 4) == 2;
  }

  /** A byte buffer with a read cursor. The buffer never changes after
      construction; only the cursor moves. */
  class MemoryStream {
    const data: seq<Byte>
    const length: nat
    var seekPos: nat

    /** The recorded length is the buffer's (both are fixed at construction). */
    ghost predicate Valid() {
      length == |data|
    }

    /** Wraps `len` bytes: the cursor starts at 0 and the length is the one given. */
    constructor (d: seq<Byte>, len: nat)
      requires len == |d|
      ensures Valid()
      ensures data == d && length == len && seekPos == 0
    {
      data := d;
      length := len;
      seekPos := 0;
    }

    /** At the end of the buffer: 0, cursor unchanged. Otherwise the byte at
        the cursor, and the cursor advances by one. */
    method ReadByte8() returns (b: Byte)
      requires Valid()
      modifies this
      ensures Valid()
      ensures old(seekPos) == length ==> b == 0 && seekPos == old(seekPos)
      ensures old(seekPos) != length ==> b == At(data, old(seekPos)) && seekPos == old(seekPos) + 1
    {
      if seekPos == length {
        return 0;
      }
      b := At(data, seekPos);
      seekPos := seekPos + 1;
    }

    /** `readByte16` as written. */
    method ReadByte16() returns (v: nat)
      requires Valid()
      modifies this
      ensures Valid()
      ensures (v, seekPos) == Byte16AsWritten(data, length, old(seekPos))
    {
      if seekPos == SizeMinus(length, 1) {
        return 0;
      }
      seekPos := seekPos + 2;
      v := LE16(data, 0);
    }

    /** `readByte32` as written. */
    method ReadByte32() returns (v: nat)
      requires Valid()
      modifies this
      ensures Valid()
      ensures (v, seekPos) == Byte32AsWritten(data, length, old(seekPos))
    {
      if seekPos == SizeMinus(length, 3) {
        return 0;
      }
      seekPos := seekPos + 4;
      v := LE32(data, 0);
    }

    /** The header reads the sprite container uses: the little-endian value at
        the cursor (bytes past the end read as 0), and the cursor advances by
        the width of the value. */
    method ReadInt8() returns (v: Byte)
      requires Valid()
      modifies this
      ensures Valid()
      ensures v == At(data, old(seekPos)) && seekPos == old(seekPos) + 1
    {
      v := At(data, seekPos);
      seekPos := seekPos + 1;
    }

    method ReadInt32() returns (v: nat)
      requires Valid()
      modifies this
      ensures Valid()
      ensures v == LE32(data, old(seekPos)) && seekPos == old(seekPos) + 4
    {
      v := LE32(data, seekPos);
      seekPos := seekPos + 4;
    }

    method IncSeekPos(add: nat)
      requires Valid()
      modifies this
      ensures Valid()
      ensures seekPos == old(seekPos) + add
    {
      seekPos := seekPos + add;
    }
  }
}
