/** Values shared by every part of the model: bytes, little-endian integers,
    fixed-width integer conversions, optional values and weak-reference slots. */
module Common {

  datatype Option<T> = None | Some(value: T)

  /** The state of one weak reference held by a cache: no entry for the key,
      an entry whose object is still owned by someone, or an entry whose last
      strong owner has gone away. */
  datatype WeakSlot<T> = Absent | Live(obj: T) | Expired

  /** The slot stored for `k`, `Absent` when the map has no entry for it. */
  function SlotOf<K, T>(m: map<K, WeakSlot<T>>, k: K): (s: WeakSlot<T>)
    ensures k !in m ==> s == Absent
    ensures k in m ==> s == m[k]
  {
    if k in m then m[k] else Absent
  }

  /** The list stored for `k`, empty when the map has no entry for it (a
      lookup in a map of vectors that treats a missing key as an empty one). */
  function ListAt<K, V>(m: map<K, seq<V>>, k: K): (l: seq<V>)
    ensures k in m ==> l == m[k]
    ensures k !in m ==> l == []
  {
    if k in m then m[k] else []
  }

  /** An unsigned 8-bit value (`ui8`). */
  type Byte = x: int | 0 <= x < 256

  const TWO_16: int := 0x1_0000
  const TWO_31: int := 0x8000_0000
  const TWO_32: int := 0x1_0000_0000
  const TWO_64: int := 0x1_0000_0000_0000_0000

  /** The byte at index `i` of a buffer. A read outside the buffer, which is
      undefined in the source, reads 0 here. */
  function At(data: seq<Byte>, i: int): (b: Byte)
    ensures 0 <= i < |data| ==> b == data[i]
    ensures !(0 <= i < |data|) ==> b == 0
  {
    if 0 <= i < |data| then data[i] else 0
  }

  /** Little-endian unsigned 16-bit value at `i`. */
  function LE16(data: seq<Byte>, i: int): (v: nat)
    ensures v < TWO_16
  {
    At(data, i) + 256 * At(data, i + 1)
  }

  /** The low byte of a 16-bit value is the byte at `i`, the high byte the
      next one. */
  lemma LE16Bytes(data: seq<Byte>, i: int)
    ensures LE16(data, i) % 256 == At(data, i) && LE16(data, i) / 256 == At(data, i + 1)
  {
  }

  /** Little-endian unsigned 32-bit value at `i`. */
  function LE32(data: seq<Byte>, i: int): (v: nat)
    ensures v < TWO_32
  {
    LE16(data, i) + 0x1_0000 * LE16(data, i + 2)
  }

  /** The low half of a 32-bit value is the 16-bit value at `i`, the high
      half the one at `i + 2`. */
  lemma LE32Halves(data: seq<Byte>, i: int)
    ensures LE32(data, i) % 0x1_0000 == LE16(data, i) && LE32(data, i) / 0x1_0000 == LE16(data, i + 2)
  {
  }

  /** `n` bytes starting at `i`; bytes outside the buffer read as 0. */
  function Slice(data: seq<Byte>, i: int, n: nat): (r: seq<Byte>)
    ensures |r| == n
    ensures forall k :: 0 <= k < n ==> r[k] == At(data, i + k)
    ensures 0 <= i && i + n <= |data| ==> r == data[i..i + n]
    decreases n
  {
    if n == 0 then [] else [At(data, i)] + Slice(data, i + 1, n - 1)
  }

  /** `n` copies of `c` (what `memset` writes). */
  function Repeat(c: Byte, n: nat): (r: seq<Byte>)
    ensures |r| == n && forall k :: 0 <= k < n ==> r[k] == c
  {
    var r: seq<Byte> := seq(n, _ => c);
    r
  }

  /** The value a 32-bit signed integer holds after being assigned `x`
      (two's-complement wrap-around). */
  function ToInt32(x: int): (r: int)
    ensures -TWO_31 <= r < TWO_31
    ensures (r - x) % 0x1_0000_0000 == 0
    ensures -TWO_31 <= x < TWO_31 ==> r == x
  {
    var m := x % 0x1_0000_0000;
    if m >= TWO_31 then m - TWO_32 else m
  }

  /** `std::min` on sizes. */
  function Min(a: int, b: int): (m: int)
    ensures m <= a && m <= b && (m == a || m == b)
  {
    if a <= b then a else b
  }

  lemma AppendAssoc<T>(a: seq<T>, b: seq<T>, c: seq<T>)
    ensures (a + b) + c == a + (b + c)
  {
  }

  /** A non-empty sequence is its front followed by its last element. */
  lemma SplitLast<T>(s: seq<T>)
    requires s != []
    ensures s == s[..|s| - 1] + [s[|s| - 1]]
  {
    var t := s[..|s| - 1] + [s[|s| - 1]];
    assert |t| == |s|;
    forall i | 0 <= i < |s|
      ensures t[i] == s[i]
    {
    }
  }
}
