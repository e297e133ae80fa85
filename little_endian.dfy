/** Fixed-width little-endian integers in a byte sequence, as the Windows
    bitmap headers store them on disk. The C++ reads the headers by copying
    raw bytes into packed structs on a little-endian host; here every field is
    decoded explicitly from its bytes. */
module LittleEndian {

  type byte = x: int | 0 <= x < 0x100
  type uint16 = x: int | 0 <= x < 0x1_0000
  type uint32 = x: int | 0 <= x < 0x1_0000_0000
  type int32 = x: int | -0x8000_0000 <= x < 0x8000_0000

  const MinInt32: int := -0x8000_0000
  const MaxInt32: int := 0x7FFF_FFFF

  /** The unsigned 16-bit value whose low byte is bytes[at]. */
  function U16At(bytes: seq<byte>, at: nat): uint16
    requires at + 2 <= |bytes|
  {
    bytes[at] as int + 0x100 * bytes[at + 1] as int
  }

  /** The unsigned 32-bit value whose low byte is bytes[at]. */
  function U32At(bytes: seq<byte>, at: nat): uint32
    requires at + 4 <= |bytes|
  {
    var b0, b1, b2, b3 := bytes[at] as int, bytes[at + 1] as int, bytes[at + 2] as int, bytes[at + 3] as int;
    b0 + 0x100 * (b1 + 0x100 * (b2 + 0x100 * b3))
  }

  /** The two's-complement signed 32-bit value whose low byte is bytes[at]. */
  function I32At(bytes: seq<byte>, at: nat): int32
    requires at + 4 <= |bytes|
  {
    var u := U32At(bytes, at);
    if u < 0x8000_0000 then u else u - 0x1_0000_0000
  }

  function U16Bytes(x: uint16): (s: seq<byte>)
    ensures |s| == 2
  {
    [x % 0x100, x / 0x100]
  }

  function U32Bytes(x: uint32): (s: seq<byte>)
    ensures |s| == 4
  {
    var y := x / 0x100;
    var z := y / 0x100;
    [x % 0x100, y % 0x100, z % 0x100, z / 0x100]
  }

  function I32Bytes(x: int32): (s: seq<byte>)
    ensures |s| == 4
  {
    U32Bytes(if x < 0 then x + 0x1_0000_0000 else x)
  }

  /** Decoding a field reads back the value its bytes encode, wherever they sit. */
  lemma U16RoundTrip(x: uint16, bytes: seq<byte>, at: nat)
    requires at + 2 <= |bytes| && bytes[at..at + 2] == U16Bytes(x)
    ensures U16At(bytes, at) == x
  {
    assert bytes[at] == U16Bytes(x)[0] && bytes[at + 1] == U16Bytes(x)[1];
  }

  lemma U32RoundTrip(x: uint32, bytes: seq<byte>, at: nat)
    requires at + 4 <= |bytes| && bytes[at..at + 4] == U32Bytes(x)
    ensures U32At(bytes, at) == x
  {
    var s := U32Bytes(x);
    assert bytes[at] == s[0] && bytes[at + 1] == s[1] && bytes[at + 2] == s[2] && bytes[at + 3] == s[3];
  }

  lemma I32RoundTrip(x: int32, bytes: seq<byte>, at: nat)
    requires at + 4 <= |bytes| && bytes[at..at + 4] == I32Bytes(x)
    ensures I32At(bytes, at) == x
  {
    U32RoundTrip(if x < 0 then x + 0x1_0000_0000 else x, bytes, at);
  }

  /** Every two bytes are the encoding of the value decoded from them. */
  lemma U16Exact(bytes: seq<byte>, at: nat)
    requires at + 2 <= |bytes|
    ensures U16Bytes(U16At(bytes, at)) == bytes[at..at + 2]
  {
  }

  lemma U32Exact(bytes: seq<byte>, at: nat)
    requires at + 4 <= |bytes|
    ensures U32Bytes(U32At(bytes, at)) == bytes[at..at + 4]
  {
    var b0, b1, b2, b3 := bytes[at] as int, bytes[at + 1] as int, bytes[at + 2] as int, bytes[at + 3] as int;
    var z := b2 + 0x100 * b3;
    var y := b1 + 0x100 * z;
    var x := b0 + 0x100 * y;
    assert x == U32At(bytes, at);
    assert x % 0x100 == b0 && x / 0x100 == y;
    assert y % 0x100 == b1 && y / 0x100 == z;
    assert z % 0x100 == b2 && z / 0x100 == b3;
  }

  lemma I32Exact(bytes: seq<byte>, at: nat)
    requires at + 4 <= |bytes|
    ensures I32Bytes(I32At(bytes, at)) == bytes[at..at + 4]
  {
    U32Exact(bytes, at);
  }
}
