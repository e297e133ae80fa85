/** BMPImage: an image that is either closed (no headers, no pixels) or open
    (both headers and the decoded pixels of a 24-bit or 32-bit bitmap), with
    the operations openBMP, closeBMP and displayBMP. The file is given as its
    bytes (None when it cannot be opened) and the display returns its text
    instead of writing it to standard output. */
module Bmp {
  import opened LittleEndian
  import opened Headers
  import opened Pixels
  import opened Render
  import Arith

  datatype Option<T> = None | Some(value: T)

  /** The failures of openBMP and displayBMP (BMPOpenError,
      BMPUnsupportedFormat, BMPDisplayNotOpenedImage), and ReadError for a
      file too short for what the headers promise. */
  datatype Error = OpenError | UnsupportedFormat | DisplayNotOpenedImage | ReadError

  datatype Result<T> = Ok(value: T) | Err(error: Error)

  /** Everything a successful open keeps: both headers and the pixels. */
  datatype Decoded = Decoded(fileHeader: FileHeader, infoHeader: InfoHeader, pixels: seq<Pixel>)

  /** The format gate: only 24-bit and 32-bit pixels are decoded. */
  predicate SupportedBitCount(bitCount: int) {
    bitCount == 24 || bitCount == 32
  }

  /** Bytes per pixel: blue, green, red, and alpha for 32-bit pixels. */
  function Stride(bitCount: int): (s: nat)
    requires SupportedBitCount(bitCount)
    ensures 3 <= s && s * 8 == bitCount
  {
    if bitCount == 24 then 3 else 4
  }

  function Abs(x: int): nat {
    if x < 0 then -x else x
  }

  /** The geometry for which the decoder's arithmetic is defined: std::abs of
      the height exists, and the int product |height| * width neither
      overflows nor, converted to a size, is negative. */
  predicate GeometryDefined(ih: InfoHeader) {
    ih.biHeight != MinInt32 &&
    (ih.biHeight == 0 || (ih.biWidth >= 0 && Abs(ih.biHeight) * ih.biWidth <= MaxInt32))
  }

  /** |height| rows of width pixels each. */
  function PixelCount(ih: InfoHeader): (n: nat)
    requires GeometryDefined(ih)
    ensures n == Abs(ih.biHeight) * ih.biWidth && n <= MaxInt32
  {
    if ih.biHeight == 0 then 0
    else
      Arith.MulMono(0, Abs(ih.biHeight), ih.biWidth);
      Abs(ih.biHeight) * ih.biWidth
  }

  /** Files whose headers, when they pass the format gate, have a geometry the
      decoder is defined for. */
  predicate Decodable(bytes: seq<byte>) {
    SupportedBitCount(DecodeHeaders(Padded(bytes)).1.biBitCount) ==>
      GeometryDefined(DecodeHeaders(Padded(bytes)).1)
  }

  /** The bytes the pixel reads can reach: the whole file, or none at all
      once the header read has run past the end of the file and left the
      stream failed. */
  function Reachable(bytes: seq<byte>): seq<byte>
  {
    if |bytes| < HeadersSize then [] else bytes
  }

  /** The result of opening a file, step by step as openBMP takes them: the
      headers are read over zero-filled structs, the format gate is applied,
      and the pixels are read from what the stream can still deliver. */
  function Load(file: Option<seq<byte>>): Result<Decoded>
    requires file.Some? ==> Decodable(file.value)
  {
    if file.None? then Err(OpenError)
    else
      var bytes := file.value;
      var (fh, ih) := DecodeHeaders(Padded(bytes));
      if !SupportedBitCount(ih.biBitCount) then Err(UnsupportedFormat)
      else
        var stride, n, data := Stride(ih.biBitCount), PixelCount(ih), Reachable(bytes);
        if !Fits(data, fh.bfOfBits, stride, n) then Err(ReadError)
        else Ok(Decoded(fh, ih, PixelRun(data, fh.bfOfBits, stride, n)))
  }

  /** Each way of opening a file fails, stated on the file's own bytes, zeros
      standing in for header bytes past its end: the bit count is the 16-bit
      field at offset 28, the pixel offset the 32-bit field at offset 10. A
      read error needs pixels to read and a file that ends before their
      colour bytes, or before the end of the headers. */
  lemma LoadFails(file: Option<seq<byte>>)
    requires file.Some? ==> Decodable(file.value)
    ensures Load(file) == Err(OpenError) <==> file.None?
    ensures Load(file) == Err(UnsupportedFormat) <==>
      file.Some? && !SupportedBitCount(U16At(Padded(file.value), 28))
    ensures Load(file) == Err(ReadError) <==>
      file.Some? && SupportedBitCount(U16At(Padded(file.value), 28)) &&
      PixelCount(DecodeHeaders(Padded(file.value)).1) > 0 &&
      (|file.value| < HeadersSize ||
       !Fits(file.value, U32At(Padded(file.value), 10), Stride(U16At(Padded(file.value), 28)),
             PixelCount(DecodeHeaders(Padded(file.value)).1)))
  {
    if file.Some? {
      HeaderLayout(Padded(file.value));
    }
  }

  /** A file of 28 bytes or fewer, an empty one among them, leaves the bit
      count zero and so fails the format gate. */
  lemma ShortFileUnsupported(bytes: seq<byte>)
    requires |bytes| <= 28
    ensures Decodable(bytes) && Load(Some(bytes)) == Err(UnsupportedFormat)
  {
    var p := Padded(bytes);
    PaddedAt(bytes, 28);
    PaddedAt(bytes, 29);
    HeaderLayout(p);
  }

  /** A 32-bit file needs only the colour bytes of its last pixel: a
      one-pixel image whose file stops just before that pixel's alpha byte
      opens, with the pixel decoded in full. */
  lemma MissingAlphaAccepted(fh: FileHeader, ih: InfoHeader, b: byte, g: byte, r: byte)
    requires fh.bfOfBits == HeadersSize && ih.biBitCount == 32 && ih.biWidth == 1 && ih.biHeight == 1
    ensures var bytes := EncodeFileHeader(fh) + EncodeInfoHeader(ih) + [b, g, r];
      Decodable(bytes) && Load(Some(bytes)) == Ok(Decoded(fh, ih, [Pixel(r, g, b)]))
  {
    var bytes := EncodeFileHeader(fh) + EncodeInfoHeader(ih) + [b, g, r];
    HeadersRoundTrip(fh, ih, [b, g, r]);
    assert Padded(bytes) == bytes;
    assert bytes[54] == b && bytes[55] == g && bytes[56] == r;
    assert PixelRun(bytes, 54, 4, 1) == [PixelAt(bytes, 54)];
  }

  /** A file that ends inside the headers yet passes the format gate with
      pixels to read cannot deliver them: the short header read has left the
      stream failed, so the open fails with a read error. */
  lemma TruncatedHeadersReadError(bytes: seq<byte>)
    requires Decodable(bytes) && |bytes| < HeadersSize
    requires SupportedBitCount(DecodeHeaders(Padded(bytes)).1.biBitCount)
    requires PixelCount(DecodeHeaders(Padded(bytes)).1) > 0
    ensures Load(Some(bytes)) == Err(ReadError)
  {
    var ih := DecodeHeaders(Padded(bytes)).1;
    assert Reachable(bytes) == [];
    assert !Fits([], DecodeHeaders(Padded(bytes)).0.bfOfBits, Stride(ih.biBitCount), PixelCount(ih));
  }

  /** What a successful open keeps, read off Load. */
  lemma Loaded(bytes: seq<byte>, d: Decoded)
    requires Decodable(bytes) && Load(Some(bytes)) == Ok(d)
    ensures (d.fileHeader, d.infoHeader) == DecodeHeaders(Padded(bytes))
    ensures SupportedBitCount(d.infoHeader.biBitCount) && GeometryDefined(d.infoHeader)
    ensures Fits(Reachable(bytes), d.fileHeader.bfOfBits, Stride(d.infoHeader.biBitCount), PixelCount(d.infoHeader))
    ensures d.pixels == PixelRun(Reachable(bytes), d.fileHeader.bfOfBits, Stride(d.infoHeader.biBitCount), PixelCount(d.infoHeader))
  {
  }

  /** A successful open keeps the decoded headers and exactly
      |height| * width pixels, pixel k decoded (blue, green, red) from the
      stride bytes at bfOfBits + stride * k. A file that ends inside the
      headers opens only with no pixels to read. */
  lemma LoadedPixels(bytes: seq<byte>, d: Decoded, k: nat)
    requires Decodable(bytes) && Load(Some(bytes)) == Ok(d)
    ensures (d.fileHeader, d.infoHeader) == DecodeHeaders(Padded(bytes))
    ensures |d.pixels| == Abs(d.infoHeader.biHeight) * d.infoHeader.biWidth
    ensures SupportedBitCount(d.infoHeader.biBitCount)
    ensures d.pixels != [] ==> HeadersSize <= |bytes|
    ensures 0 <= Stride(d.infoHeader.biBitCount) * k
    ensures var at := d.fileHeader.bfOfBits + Stride(d.infoHeader.biBitCount) * k;
      k < |d.pixels| ==> at + 3 <= |bytes| && d.pixels[k] == PixelAt(bytes, at)
  {
    Loaded(bytes, d);
    Arith.MulMono(0, k, Stride(d.infoHeader.biBitCount));
    if k < |d.pixels| {
      PixelRunAt(bytes, d.fileHeader.bfOfBits, Stride(d.infoHeader.biBitCount), |d.pixels|, k);
    }
  }

  /** Pixels are stored row after row, each row left to right, whatever the
      sign of the height: stored row i holds the width pixels decoded from
      bfOfBits + stride * width * i on. */
  lemma LoadedRows(bytes: seq<byte>, d: Decoded, i: nat)
    requires Decodable(bytes) && Load(Some(bytes)) == Ok(d)
    requires i < Abs(d.infoHeader.biHeight)
    ensures var w, s := d.infoHeader.biWidth, Stride(d.infoHeader.biBitCount);
      0 <= w && 0 <= s * (i * w) && (i + 1) * w <= |d.pixels| &&
      Fits(bytes, d.fileHeader.bfOfBits + s * (i * w), s, w) &&
      Row(d.pixels, w, i) == PixelRun(bytes, d.fileHeader.bfOfBits + s * (i * w), s, w)
  {
    Loaded(bytes, d);
    var data, start, stride := Reachable(bytes), d.fileHeader.bfOfBits, Stride(d.infoHeader.biBitCount);
    var h, w := Abs(d.infoHeader.biHeight), d.infoHeader.biWidth;
    StoredRow(data, start, stride, h, w, i);
    if w > 0 {
      Arith.MulAtLeast(w, h);
      assert data == bytes;
    } else {
      assert PixelRun(bytes, start + stride * (i * w), stride, w) == [];
    }
  }

  lemma StoredRow(bytes: seq<byte>, start: nat, stride: nat, h: nat, w: nat, i: nat)
    requires 3 <= stride && i < h && Fits(bytes, start, stride, h * w)
    ensures 0 <= stride * (i * w) && (i + 1) * w <= h * w
    ensures Fits(bytes, start + stride * (i * w), stride, w)
    ensures Row(PixelRun(bytes, start, stride, h * w), w, i) == PixelRun(bytes, start + stride * (i * w), stride, w)
  {
    Arith.MulMono(i + 1, h, w);
    assert (i + 1) * w == i * w + w;
    Arith.MulMono(0, i, w);
    Arith.MulMono(0, i * w, stride);
    PixelRunSlice(bytes, start, stride, h * w, i * w, w);
  }

  /** The alpha byte plays no part: a 32-bit file and a 24-bit file with the
      same number of pixels and the same blue, green and red bytes for every
      pixel open to the same pixels. */
  lemma AlphaIgnored(bytes32: seq<byte>, d32: Decoded, bytes24: seq<byte>, d24: Decoded)
    requires Decodable(bytes32) && Load(Some(bytes32)) == Ok(d32) && d32.infoHeader.biBitCount == 32
    requires Decodable(bytes24) && Load(Some(bytes24)) == Ok(d24) && d24.infoHeader.biBitCount == 24
    requires |d32.pixels| == |d24.pixels|
    requires var off32, off24 := d32.fileHeader.bfOfBits, d24.fileHeader.bfOfBits;
      forall k :: 0 <= k < |d32.pixels| ==>
        off32 + 4 * k + 3 <= |bytes32| && off24 + 3 * k + 3 <= |bytes24| &&
        Colour(bytes32, off32, 4, k) == Colour(bytes24, off24, 3, k)
    ensures d32.pixels == d24.pixels
  {
    if d32.pixels != [] {
      LoadedRun(bytes32, d32);
      LoadedRun(bytes24, d24);
      SameColoursSamePixels(bytes32, d32.fileHeader.bfOfBits, 4, bytes24, d24.fileHeader.bfOfBits, 3, |d32.pixels|);
    }
  }

  lemma LoadedRun(bytes: seq<byte>, d: Decoded)
    requires Decodable(bytes) && Load(Some(bytes)) == Ok(d) && d.pixels != []
    ensures SupportedBitCount(d.infoHeader.biBitCount)
    ensures Fits(bytes, d.fileHeader.bfOfBits, Stride(d.infoHeader.biBitCount), |d.pixels|)
    ensures d.pixels == PixelRun(bytes, d.fileHeader.bfOfBits, Stride(d.infoHeader.biBitCount), |d.pixels|)
  {
    Loaded(bytes, d);
    assert Reachable(bytes) == bytes;
  }

  class BMPImage {
    var bmfh: Option<FileHeader>
    var bmih: Option<InfoHeader>
    var imageData: seq<Pixel>

    /** Closed: no headers and no pixels. Open: both headers, a supported
        format, a defined geometry and |height| * width pixels. */
    ghost predicate Valid()
      reads this
    {
      (bmfh.Some? <==> bmih.Some?) &&
      (bmih.None? ==> imageData == []) &&
      (bmih.Some? ==>
        SupportedBitCount(bmih.value.biBitCount) && GeometryDefined(bmih.value) &&
        |imageData| == PixelCount(bmih.value))
    }

    predicate Closed()
      reads this
    {
      bmfh.None? && bmih.None? && imageData == []
    }

    /** is_open: the info header is present. */
    predicate IsOpen()
      reads this
    {
      bmih.Some?
    }

    constructor()
      ensures Closed() && Valid()
    {
      bmfh := None;
      bmih := None;
      imageData := [];
    }

    /** closeBMP: drop the pixels and both headers. Closing a closed image
        changes nothing. */
    method Close()
      modifies this
      ensures Closed() && Valid() && !IsOpen()
      ensures old(Closed()) ==> unchanged(this)
    {
      imageData := [];
      bmih := None;
      bmfh := None;
    }

    /** readHeaders: both headers from the start of the file, read over
        zero-filled structs, so that header bytes past the end of the file
        stay zero. Reports whether the file held all of them. */
    method ReadHeaders(bytes: seq<byte>) returns (complete: bool)
      modifies this
      ensures (bmfh, bmih) == (Some(DecodeHeaders(Padded(bytes)).0), Some(DecodeHeaders(Padded(bytes)).1))
      ensures complete <==> HeadersSize <= |bytes|
      ensures imageData == old(imageData)
    {
      var (fh, ih) := DecodeHeaders(Padded(bytes));
      bmfh := Some(fh);
      bmih := Some(ih);
      complete := HeadersSize <= |bytes|;
    }

    /** read24BitImageData: from bfOfBits on, |height| rows of width pixels,
        each read as blue, green, red and appended as (r, g, b). Reports
        whether every pixel was there to read; the pixels read before the
        first one missing are kept. */
    method Read24BitImageData(bytes: seq<byte>) returns (ok: bool)
      requires bmfh.Some? && bmih.Some? && GeometryDefined(bmih.value) && imageData == []
      modifies this
      ensures bmfh == old(bmfh) && bmih == old(bmih)
      ensures ok <==> Fits(bytes, bmfh.value.bfOfBits, 3, PixelCount(bmih.value))
      ensures Fits(bytes, bmfh.value.bfOfBits, 3, |imageData|)
      ensures imageData == PixelRun(bytes, bmfh.value.bfOfBits, 3, |imageData|)
      ensures ok <==> |imageData| == PixelCount(bmih.value)
      ensures |imageData| <= PixelCount(bmih.value)
      ensures !ok ==> !Fits(bytes, bmfh.value.bfOfBits, 3, |imageData| + 1)
    {
      var off, h, w := bmfh.value.bfOfBits, Abs(bmih.value.biHeight), bmih.value.biWidth;
      ghost var n := PixelCount(bmih.value);
      var pos := off;
      ghost var done := 0;
      var i := 0;
      while i < h
        invariant 0 <= i <= h && done == i * w && done <= n
        invariant pos == off + 3 * done && Fits(bytes, off, 3, done)
        invariant imageData == PixelRun(bytes, off, 3, done)
        invariant bmfh == old(bmfh) && bmih == old(bmih)
      {
        Arith.MulMono(i + 1, h, w);
        assert (i + 1) * w == i * w + w;
        var j := 0;
        while j < w
          invariant 0 <= j <= w && done == i * w + j && i * w + w <= n
          invariant pos == off + 3 * done && Fits(bytes, off, 3, done)
          invariant imageData == PixelRun(bytes, off, 3, done)
          invariant bmfh == old(bmfh) && bmih == old(bmih)
        {
          if pos + 3 > |bytes| {
            return false;
          }
          var b, g, r := bytes[pos], bytes[pos + 1], bytes[pos + 2];
          imageData := imageData + [Pixel(r, g, b)];
          pos, j, done := pos + 3, j + 1, done + 1;
        }
        i := i + 1;
      }
      return true;
    }

    /** read32BitImageData: as the 24-bit reader, but each pixel is four
        bytes, blue, green, red and alpha, and the alpha byte is dropped. */
    method Read32BitImageData(bytes: seq<byte>) returns (ok: bool)
      requires bmfh.Some? && bmih.Some? && GeometryDefined(bmih.value) && imageData == []
      modifies this
      ensures bmfh == old(bmfh) && bmih == old(bmih)
      ensures ok <==> Fits(bytes, bmfh.value.bfOfBits, 4, PixelCount(bmih.value))
      ensures Fits(bytes, bmfh.value.bfOfBits, 4, |imageData|)
      ensures imageData == PixelRun(bytes, bmfh.value.bfOfBits, 4, |imageData|)
      ensures ok <==> |imageData| == PixelCount(bmih.value)
      ensures |imageData| <= PixelCount(bmih.value)
      ensures !ok ==> !Fits(bytes, bmfh.value.bfOfBits, 4, |imageData| + 1)
    {
      var off, h, w := bmfh.value.bfOfBits, Abs(bmih.value.biHeight), bmih.value.biWidth;
      ghost var n := PixelCount(bmih.value);
      var pos := off;
      ghost var done := 0;
      var i := 0;
      while i < h
        invariant 0 <= i <= h && done == i * w && done <= n
        invariant pos == off + 4 * done && Fits(bytes, off, 4, done)
        invariant imageData == PixelRun(bytes, off, 4, done)
        invariant bmfh == old(bmfh) && bmih == old(bmih)
      {
        Arith.MulMono(i + 1, h, w);
        assert (i + 1) * w == i * w + w;
        var j := 0;
        while j < w
          invariant 0 <= j <= w && done == i * w + j && i * w + w <= n
          invariant pos == off + 4 * done && Fits(bytes, off, 4, done)
          invariant imageData == PixelRun(bytes, off, 4, done)
          invariant bmfh == old(bmfh) && bmih == old(bmih)
        {
          if pos + 3 > |bytes| {
            return false;
          }
          var b, g, r := bytes[pos], bytes[pos + 1], bytes[pos + 2];
          imageData := imageData + [Pixel(r, g, b)];
          // The alpha byte at pos + 3 is read and dropped. When the file ends
          // before it, only that read fails: the pixel is already complete,
          // and the next pixel, if any, then finds no bytes left.
          pos, j, done := pos + 4, j + 1, done + 1;
        }
        i := i + 1;
      }
      return true;
    }

    /** readImageData: the reader for the header's bit count; any other bit
        count reads nothing. */
    method ReadImageData(bytes: seq<byte>) returns (ok: bool)
      requires bmfh.Some? && bmih.Some? && imageData == []
      requires SupportedBitCount(bmih.value.biBitCount) ==> GeometryDefined(bmih.value)
      modifies this
      ensures bmfh == old(bmfh) && bmih == old(bmih)
      ensures !SupportedBitCount(bmih.value.biBitCount) ==> ok && imageData == []
      ensures SupportedBitCount(bmih.value.biBitCount) ==>
        var off, stride, n := bmfh.value.bfOfBits, Stride(bmih.value.biBitCount), PixelCount(bmih.value);
        (ok <==> Fits(bytes, off, stride, n)) &&
        Fits(bytes, off, stride, |imageData|) &&
        imageData == PixelRun(bytes, off, stride, |imageData|) &&
        (ok <==> |imageData| == n) && |imageData| <= n &&
        (!ok ==> !Fits(bytes, off, stride, |imageData| + 1))
    {
      if bmih.value.biBitCount == 24 {
        ok := Read24BitImageData(bytes);
      } else if bmih.value.biBitCount == 32 {
        ok := Read32BitImageData(bytes);
      } else {
        ok := true;
      }
    }

    /** openBMP: close any image already open, then open the file, read the
        headers, apply the format gate and read the pixels. The new state
        depends on the file alone: it is what Load makes of it, and every
        failure leaves the image closed. A normal return is Ok(()), a
        thrown exception the Err it becomes. */
    method Open(file: Option<seq<byte>>) returns (outcome: Result<()>)
      requires Valid()
      requires file.Some? ==> Decodable(file.value)
      modifies this
      ensures Valid()
      ensures Load(file).Ok? ==>
        (outcome == Ok(()) &&
         bmfh == Some(Load(file).value.fileHeader) && bmih == Some(Load(file).value.infoHeader) &&
         imageData == Load(file).value.pixels)
      ensures Load(file).Err? ==> outcome == Err(Load(file).error) && Closed()
    {
      if IsOpen() {
        Close();
      }
      if file.None? {
        return Err(OpenError);
      }
      var bytes := file.value;
      var complete := ReadHeaders(bytes);
      if !SupportedBitCount(bmih.value.biBitCount) {
        Close();
        return Err(UnsupportedFormat);
      }
      // A header read that ran past the end of the file has left the stream
      // failed: every pixel read after it fails too.
      var ok := ReadImageData(if complete then bytes else []);
      if !ok {
        Close();
        return Err(ReadError);
      }
      return Ok(());
    }

    /** displayBMP: the text of an open image ('X' for a white pixel, '.'
        otherwise, rows in the order the height's sign picks); a closed image
        cannot be displayed. */
    method Display() returns (r: Result<string>)
      requires Valid()
      ensures !IsOpen() ==> r == Err(DisplayNotOpenedImage)
      ensures IsOpen() ==> r == Ok(Text(imageData, bmih.value.biWidth, bmih.value.biHeight))
    {
      if !IsOpen() {
        return Err(DisplayNotOpenedImage);
      }
      var w, h := bmih.value.biWidth, bmih.value.biHeight;
      if imageData != [] {
        Arith.MulMono(0, Abs(h), w);
        ShapedRows(imageData, w, Abs(h));
      }
      var out;
      if h > 0 {
        out := DisplayBottomUp(imageData, w);
      } else {
        out := DisplayTopDown(imageData, w);
      }
      return Ok(out);
    }
  }

  /** Opening a second file on an image leaves no trace of the first: it
      displays exactly as a fresh image with only the second file opened. */
  method ReopenForgets(first: Option<seq<byte>>, second: Option<seq<byte>>)
    returns (reopened: Result<string>, alone: Result<string>)
    requires first.Some? ==> Decodable(first.value)
    requires second.Some? ==> Decodable(second.value)
    ensures reopened == alone
  {
    var a := new BMPImage();
    var _ := a.Open(first);
    var _ := a.Open(second);
    reopened := a.Display();
    var b := new BMPImage();
    var _ := b.Open(second);
    alone := b.Display();
  }

  /** A file whose bit count is neither 24 nor 32 fails the format gate, and
      the image is then closed: displaying it fails too. */
  method UnsupportedLeavesClosed(bytes: seq<byte>) returns (outcome: Result<()>, shown: Result<string>)
    requires !SupportedBitCount(U16At(Padded(bytes), 28))
    ensures outcome == Err(UnsupportedFormat)
    ensures shown == Err(DisplayNotOpenedImage)
  {
    LoadFails(Some(bytes));
    var image := new BMPImage();
    outcome := image.Open(Some(bytes));
    shown := image.Display();
  }

  /** Closing twice is the same as closing once: the image stays closed and
      cannot be displayed. */
  method CloseTwice(file: Option<seq<byte>>) returns (once: Result<string>, twice: Result<string>)
    requires file.Some? ==> Decodable(file.value)
    ensures once == twice == Err(DisplayNotOpenedImage)
  {
    var image := new BMPImage();
    var _ := image.Open(file);
    image.Close();
    once := image.Display();
    image.Close();
    twice := image.Display();
  }
}
