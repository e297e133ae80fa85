/** The two fixed-layout headers at the start of a bitmap file:
    BITMAPFILEHEADER (14 bytes, packed to 2-byte alignment) followed, with no
    gap, by BITMAPINFOHEADER (40 bytes). Fields are little-endian. */
module Headers {
  import opened LittleEndian

  const FileHeaderSize: nat := 14
  const InfoHeaderSize: nat := 40
  /** Both headers, read back to back from offset 0. */
  const HeadersSize: nat := FileHeaderSize + InfoHeaderSize

  datatype FileHeader = FileHeader(
    bfType: uint16,
    bfSize: uint32,
    bfReserved1: uint16,
    bfReserved2: uint16,
    bfOfBits: uint32)

  datatype InfoHeader = InfoHeader(
    biSize: uint32,
    biWidth: int32,
    biHeight: int32,
    biPlanes: uint16,
    biBitCount: uint16,
    biCompression: uint32,
    biSizeImage: uint32,
    biXPelsPerMeter: int32,
    biYPelsPerMeter: int32,
    biClrUsed: uint32,
    biClrImportant: uint32)

  /** The file header whose first byte is bytes[at]; fields at relative
      offsets 0, 2, 6, 8 and 10. */
  function DecodeFileHeader(bytes: seq<byte>, at: nat): FileHeader
    requires at + FileHeaderSize <= |bytes|
  {
    FileHeader(
      U16At(bytes, at), U32At(bytes, at + 2), U16At(bytes, at + 6),
      U16At(bytes, at + 8), U32At(bytes, at + 10))
  }

  /** The info header whose first byte is bytes[at]; fields at relative
      offsets 0, 4, 8, 12, 14, 16, 20, 24, 28, 32 and 36. */
  function DecodeInfoHeader(bytes: seq<byte>, at: nat): InfoHeader
    requires at + InfoHeaderSize <= |bytes|
  {
    InfoHeader(
      U32At(bytes, at), I32At(bytes, at + 4), I32At(bytes, at + 8),
      U16At(bytes, at + 12), U16At(bytes, at + 14), U32At(bytes, at + 16),
      U32At(bytes, at + 20), I32At(bytes, at + 24), I32At(bytes, at + 28),
      U32At(bytes, at + 32), U32At(bytes, at + 36))
  }

  /** readHeaders: the file header from byte 0, then the info header
      immediately after it. */
  function DecodeHeaders(bytes: seq<byte>): (FileHeader, InfoHeader)
    requires HeadersSize <= |bytes|
  {
    (DecodeFileHeader(bytes, 0), DecodeInfoHeader(bytes, FileHeaderSize))
  }

  /** The header bytes a read into zero-filled header structs sees: the
      file's own bytes, then zeros for every header byte past its end. A file
      at least as long as the headers is left as it is. */
  function Padded(bytes: seq<byte>): (p: seq<byte>)
    ensures HeadersSize <= |p| && (HeadersSize <= |bytes| ==> p == bytes)
    ensures |bytes| < HeadersSize ==> |p| == HeadersSize
  {
    if HeadersSize <= |bytes| then bytes else bytes + seq(HeadersSize - |bytes|, _ => 0)
  }

  /** Byte i of the padded headers: the file's byte i while the file lasts,
      zero after it. */
  lemma PaddedAt(bytes: seq<byte>, i: nat)
    requires i < |Padded(bytes)|
    ensures Padded(bytes)[i] == if i < |bytes| then bytes[i] else 0
  {
  }

  function EncodeFileHeader(h: FileHeader): (s: seq<byte>)
    ensures |s| == FileHeaderSize
  {
    U16Bytes(h.bfType) + U32Bytes(h.bfSize) + U16Bytes(h.bfReserved1)
      + U16Bytes(h.bfReserved2) + U32Bytes(h.bfOfBits)
  }

  function EncodeInfoHeader(h: InfoHeader): (s: seq<byte>)
    ensures |s| == InfoHeaderSize
  {
    U32Bytes(h.biSize) + I32Bytes(h.biWidth) + I32Bytes(h.biHeight)
      + U16Bytes(h.biPlanes) + U16Bytes(h.biBitCount) + U32Bytes(h.biCompression)
      + U32Bytes(h.biSizeImage) + I32Bytes(h.biXPelsPerMeter) + I32Bytes(h.biYPelsPerMeter)
      + U32Bytes(h.biClrUsed) + U32Bytes(h.biClrImportant)
  }

  /** The fields the decoder relies on sit at these absolute file offsets:
      bfOfBits at 10..13, biWidth at 18..21, biHeight at 22..25 and
      biBitCount at 28..29. */
  lemma HeaderLayout(bytes: seq<byte>)
    requires HeadersSize <= |bytes|
    ensures HeadersSize == 54
    ensures DecodeHeaders(bytes).0.bfOfBits
      == bytes[10] as int + 0x100 * (bytes[11] as int + 0x100 * (bytes[12] as int + 0x100 * bytes[13] as int))
    ensures DecodeHeaders(bytes).1.biWidth
      == U32At(bytes, 18) - (if bytes[21] < 0x80 then 0 else 0x1_0000_0000)
    ensures DecodeHeaders(bytes).1.biHeight
      == U32At(bytes, 22) - (if bytes[25] < 0x80 then 0 else 0x1_0000_0000)
    ensures DecodeHeaders(bytes).1.biBitCount == bytes[28] as int + 0x100 * bytes[29] as int
  {
  }

  lemma Mid(a: seq<byte>, b: seq<byte>, c: seq<byte>)
    ensures (a + b + c)[|a|..|a| + |b|] == b
  {
  }

  /** Decoding a header reads nothing outside its own bytes. */
  lemma FileHeaderWindow(bytes: seq<byte>, at: nat)
    requires at + FileHeaderSize <= |bytes|
    ensures DecodeFileHeader(bytes, at) == DecodeFileHeader(bytes[at..at + FileHeaderSize], 0)
  {
  }

  lemma InfoHeaderWindow(bytes: seq<byte>, at: nat)
    requires at + InfoHeaderSize <= |bytes|
    ensures DecodeInfoHeader(bytes, at) == DecodeInfoHeader(bytes[at..at + InfoHeaderSize], 0)
  {
  }

  lemma FileHeaderRoundTrip(h: FileHeader)
    ensures DecodeFileHeader(EncodeFileHeader(h), 0) == h
  {
    var e := EncodeFileHeader(h);
    var t, sz, r1, r2, off := U16Bytes(h.bfType), U32Bytes(h.bfSize), U16Bytes(h.bfReserved1),
      U16Bytes(h.bfReserved2), U32Bytes(h.bfOfBits);
    Mid([], t, sz + r1 + r2 + off);
    Mid(t, sz, r1 + r2 + off);
    Mid(t + sz, r1, r2 + off);
    Mid(t + sz + r1, r2, off);
    Mid(t + sz + r1 + r2, off, []);
    U16RoundTrip(h.bfType, e, 0);
    U32RoundTrip(h.bfSize, e, 2);
    U16RoundTrip(h.bfReserved1, e, 6);
    U16RoundTrip(h.bfReserved2, e, 8);
    U32RoundTrip(h.bfOfBits, e, 10);
  }

  lemma InfoHeaderRoundTrip(h: InfoHeader)
    ensures DecodeInfoHeader(EncodeInfoHeader(h), 0) == h
  {
    var e := EncodeInfoHeader(h);
    var f := [U32Bytes(h.biSize), I32Bytes(h.biWidth), I32Bytes(h.biHeight),
      U16Bytes(h.biPlanes), U16Bytes(h.biBitCount), U32Bytes(h.biCompression),
      U32Bytes(h.biSizeImage), I32Bytes(h.biXPelsPerMeter), I32Bytes(h.biYPelsPerMeter),
      U32Bytes(h.biClrUsed), U32Bytes(h.biClrImportant)];
    Mid([], f[0], f[1] + f[2] + f[3] + f[4] + f[5] + f[6] + f[7] + f[8] + f[9] + f[10]);
    Mid(f[0], f[1], f[2] + f[3] + f[4] + f[5] + f[6] + f[7] + f[8] + f[9] + f[10]);
    Mid(f[0] + f[1], f[2], f[3] + f[4] + f[5] + f[6] + f[7] + f[8] + f[9] + f[10]);
    Mid(f[0] + f[1] + f[2], f[3], f[4] + f[5] + f[6] + f[7] + f[8] + f[9] + f[10]);
    Mid(f[0] + f[1] + f[2] + f[3], f[4], f[5] + f[6] + f[7] + f[8] + f[9] + f[10]);
    Mid(f[0] + f[1] + f[2] + f[3] + f[4], f[5], f[6] + f[7] + f[8] + f[9] + f[10]);
    Mid(f[0] + f[1] + f[2] + f[3] + f[4] + f[5], f[6], f[7] + f[8] + f[9] + f[10]);
    Mid(f[0] + f[1] + f[2] + f[3] + f[4] + f[5] + f[6], f[7], f[8] + f[9] + f[10]);
    Mid(f[0] + f[1] + f[2] + f[3] + f[4] + f[5] + f[6] + f[7], f[8], f[9] + f[10]);
    Mid(f[0] + f[1] + f[2] + f[3] + f[4] + f[5] + f[6] + f[7] + f[8], f[9], f[10]);
    Mid(f[0] + f[1] + f[2] + f[3] + f[4] + f[5] + f[6] + f[7] + f[8] + f[9], f[10], []);
    U32RoundTrip(h.biSize, e, 0);
    I32RoundTrip(h.biWidth, e, 4);
    I32RoundTrip(h.biHeight, e, 8);
    U16RoundTrip(h.biPlanes, e, 12);
    U16RoundTrip(h.biBitCount, e, 14);
    U32RoundTrip(h.biCompression, e, 16);
    U32RoundTrip(h.biSizeImage, e, 20);
    I32RoundTrip(h.biXPelsPerMeter, e, 24);
    I32RoundTrip(h.biYPelsPerMeter, e, 28);
    U32RoundTrip(h.biClrUsed, e, 32);
    U32RoundTrip(h.biClrImportant, e, 36);
  }

  /** A file that starts with the encodings of two headers, whatever follows,
      decodes to exactly those headers. */
  lemma HeadersRoundTrip(fh: FileHeader, ih: InfoHeader, rest: seq<byte>)
    ensures DecodeHeaders(EncodeFileHeader(fh) + EncodeInfoHeader(ih) + rest) == (fh, ih)
  {
    var a, b := EncodeFileHeader(fh), EncodeInfoHeader(ih);
    var bytes := a + b + rest;
    assert bytes[0..FileHeaderSize] == a by { Mid([], a, b + rest); }
    assert bytes[FileHeaderSize..HeadersSize] == b by { Mid(a, b, rest); }
    FileHeaderWindow(bytes, 0);
    InfoHeaderWindow(bytes, FileHeaderSize);
    FileHeaderRoundTrip(fh);
    InfoHeaderRoundTrip(ih);
  }

  lemma Adjacent(bytes: seq<byte>, i: nat, j: nat, k: nat)
    requires i <= j <= k <= |bytes|
    ensures bytes[i..j] + bytes[j..k] == bytes[i..k]
  {
  }

  lemma FileHeaderExact(bytes: seq<byte>, at: nat)
    requires at + FileHeaderSize <= |bytes|
    ensures EncodeFileHeader(DecodeFileHeader(bytes, at)) == bytes[at..at + FileHeaderSize]
  {
    var h := DecodeFileHeader(bytes, at);
    U16Exact(bytes, at);
    U32Exact(bytes, at + 2);
    U16Exact(bytes, at + 6);
    U16Exact(bytes, at + 8);
    U32Exact(bytes, at + 10);
    Adjacent(bytes, at, at + 2, at + 6);
    Adjacent(bytes, at, at + 6, at + 8);
    Adjacent(bytes, at, at + 8, at + 10);
    Adjacent(bytes, at, at + 10, at + 14);
  }

  /** The first six fields of an info header (20 bytes) re-encode to the
      bytes they were decoded from. */
  lemma InfoHeaderFrontExact(bytes: seq<byte>, at: nat)
    requires at + InfoHeaderSize <= |bytes|
    ensures var h := DecodeInfoHeader(bytes, at);
      U32Bytes(h.biSize) + I32Bytes(h.biWidth) + I32Bytes(h.biHeight)
        + U16Bytes(h.biPlanes) + U16Bytes(h.biBitCount) + U32Bytes(h.biCompression)
      == bytes[at..at + 20]
  {
    U32Exact(bytes, at);
    I32Exact(bytes, at + 4);
    I32Exact(bytes, at + 8);
    U16Exact(bytes, at + 12);
    U16Exact(bytes, at + 14);
    U32Exact(bytes, at + 16);
    Adjacent(bytes, at, at + 4, at + 8);
    Adjacent(bytes, at, at + 8, at + 12);
    Adjacent(bytes, at, at + 12, at + 14);
    Adjacent(bytes, at, at + 14, at + 16);
    Adjacent(bytes, at, at + 16, at + 20);
  }

  lemma InfoHeaderExact(bytes: seq<byte>, at: nat)
    requires at + InfoHeaderSize <= |bytes|
    ensures EncodeInfoHeader(DecodeInfoHeader(bytes, at)) == bytes[at..at + InfoHeaderSize]
  {
    InfoHeaderFrontExact(bytes, at);
    U32Exact(bytes, at + 20);
    I32Exact(bytes, at + 24);
    I32Exact(bytes, at + 28);
    U32Exact(bytes, at + 32);
    U32Exact(bytes, at + 36);
    Adjacent(bytes, at, at + 20, at + 24);
    Adjacent(bytes, at, at + 24, at + 28);
    Adjacent(bytes, at, at + 28, at + 32);
    Adjacent(bytes, at, at + 32, at + 36);
    Adjacent(bytes, at, at + 36, at + 40);
  }

  /** Every one of the first 54 bytes belongs to exactly one field: re-encoding
      the decoded headers gives those bytes back. */
  lemma HeadersExact(bytes: seq<byte>)
    requires HeadersSize <= |bytes|
    ensures EncodeFileHeader(DecodeHeaders(bytes).0) + EncodeInfoHeader(DecodeHeaders(bytes).1)
      == bytes[..HeadersSize]
  {
    FileHeaderExact(bytes, 0);
    InfoHeaderExact(bytes, FileHeaderSize);
    Adjacent(bytes, 0, FileHeaderSize, HeadersSize);
  }
}
