# BMP ASCII renderer — a verified Dafny model

This project models `BMPImage::Impl` of the small C++ bitmap viewer
lksndrttm/bmp. The viewer opens a Windows bitmap file and reads its two
headers. It accepts only 24-bit and 32-bit pixels, decodes the pixel array,
and prints the image as text: `X` for an exactly white pixel and `.` for any
other pixel.

The model has six modules:

- `LittleEndian` (little_endian.dfy) decodes and encodes the unsigned 16-bit,
  unsigned 32-bit and two's-complement 32-bit little-endian fields of the
  headers. The C++ instead copies raw bytes into packed structs on a
  little-endian host.
- `Headers` (headers.dfy) holds `BITMAPFILEHEADER` (14 bytes, packed to
  2-byte alignment) and `BITMAPINFOHEADER` (40 bytes). `DecodeHeaders` reads
  both back to back from byte 0, as `readHeaders` does. `EncodeFileHeader`
  and `EncodeInfoHeader` are the inverses the round-trip lemmas use.
- `Pixels` (pixels.dfy) holds `Pixel`, whose `IsWhite` is `Pixel::is_white`.
  `PixelRun` is the pixels read from an offset, one every `stride` bytes:
  blue, green and red, then alpha for 32-bit pixels, which is skipped.
- `Render` (render.dfy) holds the text of `displayBMP`:
  - `BottomUp` is the positive-height branch: stored rows last first, each
    row ended by a newline.
  - `TopDown` is the other branch: stored rows in order, joined by newlines.
  - `DisplayBottomUp` and `DisplayTopDown` are the two loops of
    `displayBMP`, kept as loops and proved to produce those texts.
    `DisplayBottomUp` keeps the reused row buffer, an array of chars set to
    `'0'`, and the mirrored column index `(size - i) % width`.
- `Bmp` (image.dfy) holds the class `BMPImage`. Its fields are `bmfh`,
  `bmih` (both `Option`, since they are `nullptr` when closed) and
  `imageData`. Its methods are `Open` (openBMP), `ReadHeaders`,
  `Read24BitImageData`, `Read32BitImageData`, `ReadImageData`, `Close`
  (closeBMP) and `Display` (displayBMP). `IsOpen` is `is_open`.
  - The file is given as its bytes: `None` is a file that cannot be opened.
  - `Display` returns the text instead of writing it to standard output.
  - Thrown exceptions become the `Error` values `OpenError`,
    `UnsupportedFormat` and `DisplayNotOpenedImage`. The model adds
    `ReadError` for a file too short for the pixels its headers promise
    (see "Left out").
  - The headers are read into zero-filled structs, so a file shorter than
    the 54 header bytes leaves the rest of the headers zero (`Padded`). Such
    a short read leaves the stream failed, so no pixel read after it
    succeeds (`Reachable`).
  - `Load` is the pure specification of a whole open.
- `Arith` (arith.dfy) holds facts about multiplication, division and
  remainder by the image width.

## Model

| member | source | states |
|---|---|---|
| LittleEndian.U16RoundTrip | src/bmp.cpp:15-37 | A 16-bit header field decodes to the value whose two little-endian bytes sit at its offset, wherever it is in the file. |
| LittleEndian.U32RoundTrip | src/bmp.cpp:15-37 | The same for the unsigned 32-bit fields, such as bfSize, bfOfBits and biSize. |
| LittleEndian.I32RoundTrip | src/bmp.cpp:25-37 | The same for the signed fields biWidth, biHeight and the resolutions, read as two's complement. |
| LittleEndian.U16Exact | src/bmp.cpp:15-37 | Decoding a 16-bit field loses nothing: re-encoding the value gives back its two bytes. |
| LittleEndian.U32Exact | src/bmp.cpp:15-37 | Re-encoding a decoded unsigned 32-bit field gives back its four bytes. |
| LittleEndian.I32Exact | src/bmp.cpp:25-37 | Re-encoding a decoded signed 32-bit field gives back its four bytes. |
| Headers.HeaderLayout | src/bmp.cpp:15-37 | The two headers take 54 bytes. In absolute file offsets, bfOfBits is the unsigned 32-bit value at bytes 10..13, biWidth the signed one at 18..21, biHeight the signed one at 22..25, and biBitCount the 16-bit value at 28..29. |
| Headers.FileHeaderWindow | src/bmp.cpp:85 | Decoding the file header reads only its own 14 bytes. |
| Headers.InfoHeaderWindow | src/bmp.cpp:86 | Decoding the info header reads only its own 40 bytes. |
| Headers.FileHeaderRoundTrip | src/bmp.cpp:16-22 | Every file header decodes back from its 14-byte encoding (fields at offsets 0, 2, 6, 8 and 10). |
| Headers.InfoHeaderRoundTrip | src/bmp.cpp:25-37 | Every info header decodes back from its 40-byte encoding (eleven fields, no gaps). |
| Headers.HeadersRoundTrip | src/bmp.cpp:84-87 | A file that starts with an encoded file header immediately followed by an encoded info header decodes to exactly those two headers, whatever follows them. |
| Headers.FileHeaderExact | src/bmp.cpp:16-22 | Re-encoding a decoded file header gives back its 14 bytes. |
| Headers.InfoHeaderExact | src/bmp.cpp:25-37 | Re-encoding a decoded info header gives back its 40 bytes. |
| Headers.PaddedAt | src/bmp.cpp:70-87 | The headers are read over zero-filled structs: header byte i is the file's byte i while the file lasts, and zero after its end. |
| Headers.HeadersExact | src/bmp.cpp:84-87 | Each of the first 54 bytes belongs to exactly one header field: re-encoding the headers read from byte 0 gives back those 54 bytes. |
| Pixels.PixelRunAt | src/bmp.cpp:95-101 | Pixel k of a run is read from the bytes at start + stride * k, blue first, and stored as (r, g, b) = (byte 2, byte 1, byte 0). |
| Pixels.PixelRunSlice | src/bmp.cpp:95-103 | Any m consecutive pixels of a run, from pixel a on, are themselves the run read from stride * a bytes further on. |
| Pixels.SameColoursSamePixels | src/bmp.cpp:112-119 | Two runs are equal if and only if, pixel by pixel, their blue, green and red bytes are equal. The rest of each stride (the alpha byte) plays no part. |
| Render.Glyph | src/bmp.cpp:137-147 | A pixel shows as 'X' exactly when it is white (r = g = b = 255), and as '.' exactly when it is not. |
| Render.GlyphsAt | src/bmp.cpp:158-162 | Character i of a row's glyphs is the glyph of pixel i. |
| Render.BottomUpLength | src/bmp.cpp:140-152 | For a positive height, the output has one character per pixel plus one newline per row. |
| Render.BottomUpLine | src/bmp.cpp:140-152 | For a positive height and rows rows of w > 0 pixels, the output is rows lines of w + 1 characters. Line k holds the glyphs of stored row rows - 1 - k, left to right, then a newline, so the last stored row comes first. |
| Render.BottomUpExample | src/bmp.cpp:140-152 | Stored rows (black, white) and (white, black) render as "X.\n.X\n". |
| Render.TopDownLength | src/bmp.cpp:153-164 | For a height of zero or less and at least one row, the output has one character per pixel plus one newline between rows, none after the last. |
| Render.TopDownLine | src/bmp.cpp:153-164 | For a height of zero or less, line k holds the glyphs of stored row k, left to right. A newline follows every line but the last. |
| Render.DisplayBottomUp | src/bmp.cpp:140-152 | The reverse loop with its reused row buffer outputs exactly BottomUp: buffer cell (size - i) % width receives the glyph of pixel size - i, and each full buffer is emitted with a newline. |
| Render.DisplayTopDown | src/bmp.cpp:153-164 | The forward loop outputs exactly TopDown: a newline before each row after the first, then each pixel's glyph. |
| Bmp.Stride | src/bmp.cpp:124-130 | The reader picked by the bit count takes bitCount / 8 bytes per pixel, at least the three colour bytes. |
| Bmp.TruncatedHeadersReadError | src/bmp.cpp:84-92 | A file that ends inside the 54 header bytes but passes the format gate with pixels to read fails with ReadError: the short header read left the stream failed, so the seek and every pixel read after it fail. |
| Bmp.LoadFails | src/bmp.cpp:61-82 | When each way of opening fails, stated on the file's bytes, with zeros for header bytes past the end of the file. OpenError exactly when the file cannot be opened. UnsupportedFormat exactly when the 16-bit value at offset 28 is neither 24 nor 32. ReadError exactly when there are pixels to read and the file ends inside the headers or before the colour bytes of the last pixel. |
| Bmp.ShortFileUnsupported | src/bmp.cpp:70-79 | A file of 28 bytes or fewer, the empty file among them, keeps a zero bit count and fails with UnsupportedFormat. |
| Bmp.MissingAlphaAccepted | src/bmp.cpp:112-117 | A one-pixel 32-bit file that ends just before the pixel's alpha byte opens, with the pixel decoded from its three colour bytes. |
| Bmp.LoadedPixels | src/bmp.cpp:89-122 | After a successful open the headers are those at byte 0, zero-padded. There are exactly abs(biHeight) * biWidth pixels, and pixel k comes from the bytes at bfOfBits + stride * k. A file that ends inside the headers opens only when there are no pixels. |
| Bmp.LoadedRows | src/bmp.cpp:95-103 | Pixels are stored row after row whatever the sign of the height. Stored row i is the biWidth pixels read from bfOfBits + stride * (i * biWidth) on. |
| Bmp.AlphaIgnored | src/bmp.cpp:106-122 | A 32-bit file and a 24-bit file with the same pixel count and the same blue, green and red bytes for every pixel open to the same pixels. |
| Bmp.BMPImage.constructor | src/bmp.cpp:51-54 | A new image is closed: no headers, no pixels. |
| Bmp.BMPImage.Close | src/bmp.cpp:167-172 | closeBMP leaves the image closed (no pixels, both headers absent, is_open false). Closing a closed image changes nothing. |
| Bmp.BMPImage.ReadHeaders | src/bmp.cpp:84-87 | Both header fields become the headers decoded from byte 0, with zeros past the end of the file. It reports whether the file held all 54 header bytes, and the pixels are untouched. |
| Bmp.BMPImage.Read24BitImageData | src/bmp.cpp:89-104 | The nested row and column loops append exactly the 3-byte run of abs(biHeight) * biWidth pixels from bfOfBits, and report success, exactly when the file holds them all. Otherwise they stop at the first pixel whose colour bytes are missing, keeping exactly the pixels before it. The headers are untouched. |
| Bmp.BMPImage.Read32BitImageData | src/bmp.cpp:106-122 | The same with 4-byte pixels whose alpha byte is read and dropped. The last pixel needs only its colour bytes. |
| Bmp.BMPImage.ReadImageData | src/bmp.cpp:124-130 | Bit count 24 runs the 3-byte reader and 32 the 4-byte reader. Any other bit count reads nothing. |
| Bmp.BMPImage.Open | src/bmp.cpp:61-82 | openBMP first closes any open image, so the new state depends on the new file alone. On success the headers and pixels are those Load decodes. On every failure the matching error is reported and the image ends closed. |
| Bmp.BMPImage.Display | src/bmp.cpp:132-165 | A closed image fails with DisplayNotOpenedImage. An open one yields BottomUp of its pixels when biHeight > 0 and TopDown otherwise. |
| Bmp.ReopenForgets | src/bmp.cpp:62-64 | Opening a second file on an image that had a first one open displays exactly as a new image with only the second file opened. |
| Bmp.UnsupportedLeavesClosed | src/bmp.cpp:76-79 | A file whose bit count, zero-padded, is neither 24 nor 32 fails with UnsupportedFormat, and the image then cannot be displayed. |
| Bmp.CloseTwice | src/bmp.cpp:167-172 | Closing once or twice leaves the same closed image; both displays fail with DisplayNotOpenedImage. |

## Left out

- Opening the file with `std::fstream` is not modelled: the file is its bytes, or `None` when it cannot be opened.
- Writing to `std::cout` is not modelled: `Display` returns the text.
- `reserve` and `shrink_to_fit` are not modelled; they only manage capacity.
- The packed-struct memory copy and host endianness are replaced by explicit little-endian field decoding.
- Row padding to 4 bytes, compression, planes and colour tables are not handled, as in the source: rows are tightly packed.
- The pImpl forwarding wrappers (src/bmp.cpp:175-199, include/bmp.h) are not modelled.
- The exception classes' message strings (include/bmp_exceptions.h) are not modelled; errors are the `Error` datatype.
- src/main.cpp, which catches the exceptions and prints them, is not part of this model.
- Bmp.BMPImage.Read24BitImageData: stops with `ok == false` at the first pixel whose colour bytes the file does not hold, keeping the pixels before it. `Open` then reports `ReadError` and closes the image. The C++ does not check the stream: it goes on appending the full pixel count, whose colour bytes keep stale values (each the value that variable last received, indeterminate only when it never received one, as when the very first read fails), and the open succeeds.
- Bmp.BMPImage.Read32BitImageData: handles a file that ends early the same way as the 24-bit reader. A file that ends inside the last pixel's alpha byte is not early: that pixel's colour bytes were all read, as in the C++.
- Bmp.Load: reports `ReadError` where the C++ pixel readers fail silently, as above. This includes a file that ends inside the headers yet passes the format gate with pixels to read.
- Bmp.BMPImage.Open: requires `Decodable`: when the bit count passes the format gate, the geometry must be one the C++ arithmetic is defined for. This excludes three cases:
  - a biHeight of INT_MIN, whose `std::abs` is undefined;
  - a negative biWidth with a nonzero height, for which `reserve` receives a negative count converted to a huge size and throws `std::length_error`, an exception outside the image's own;
  - an `int` overflow of abs(biHeight) * biWidth.
- Width 0 is allowed and displays as empty text, as in the C++, so the "abs(biHeight) lines" property holds only for widths above 0.
- Render.BottomUpLine: stated for a whole number of rows, as `Display` always has. On a pixel count that is not a whole number of rows, which the decoder never produces, `BottomUp` ignores the trailing partial row, while `TopDown` drops the leading remainder and begins with a newline.
