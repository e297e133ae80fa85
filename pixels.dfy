/** Pixels as the decoder stores them, and the run of pixels a 24-bit or
    32-bit bitmap's pixel array decodes to: one pixel every `stride` bytes,
    its bytes in the order blue, green, red (then alpha, which is skipped). */
module Pixels {
  import opened LittleEndian
  import Arith

  datatype Pixel = Pixel(r: byte, g: byte, b: byte) {
    /** Pixel::is_white: all three channels at their maximum. */
    predicate IsWhite() {
      r == 255 && g == 255 && b == 255
    }
  }

  /** The pixel whose blue byte is bytes[pos]: blue, green, red in file order. */
  function PixelAt(bytes: seq<byte>, pos: nat): Pixel
    requires pos + 3 <= |bytes|
  {
    Pixel(bytes[pos + 2], bytes[pos + 1], bytes[pos])
  }

  /** The colour bytes of all n pixels of `stride` bytes each lie inside the
      file from offset start on. The last pixel needs only its three colour
      bytes: a missing alpha byte after it is read and dropped without harm.
      No pixels at all fit wherever they start. */
  predicate Fits(bytes: seq<byte>, start: nat, stride: nat, n: nat) {
    n == 0 || start + stride * (n - 1) + 3 <= |bytes|
  }

  /** Fewer pixels fit wherever more do. */
  lemma FitsFewer(bytes: seq<byte>, start: nat, stride: nat, n: nat, m: nat)
    requires Fits(bytes, start, stride, n) && m <= n
    ensures Fits(bytes, start, stride, m)
  {
    if 0 < m {
      Arith.MulMono(m - 1, n - 1, stride);
    }
  }

  /** The n pixels read one after another from bytes[start..], each taking
      `stride` bytes of which the first three are its colour. */
  function PixelRun(bytes: seq<byte>, start: nat, stride: nat, n: nat): (ps: seq<Pixel>)
    requires 3 <= stride && Fits(bytes, start, stride, n)
    ensures |ps| == n
  {
    if n == 0 then []
    else
      FitsFewer(bytes, start, stride, n, n - 1);
      PixelRun(bytes, start, stride, n - 1) + [PixelAt(bytes, start + stride * (n - 1))]
  }

  /** The colour bytes (blue, green, red) of the k-th pixel of a run. */
  function Colour(bytes: seq<byte>, start: nat, stride: nat, k: nat): seq<byte>
    requires start + stride * k + 3 <= |bytes|
  {
    bytes[start + stride * k..start + stride * k + 3]
  }

  /** Pixel k of a run is decoded from the bytes starting at start + stride * k. */
  lemma {:induction false} PixelRunAt(bytes: seq<byte>, start: nat, stride: nat, n: nat, k: nat)
    requires 3 <= stride && Fits(bytes, start, stride, n) && k < n
    ensures start + stride * k + 3 <= |bytes|
    ensures PixelRun(bytes, start, stride, n)[k] == PixelAt(bytes, start + stride * k)
  {
    FitsFewer(bytes, start, stride, n, k + 1);
    if k < n - 1 {
      FitsFewer(bytes, start, stride, n, n - 1);
      PixelRunAt(bytes, start, stride, n - 1, k);
    }
  }

  /** Two runs agree exactly when, pixel by pixel, their colour bytes agree;
      whatever else the stride covers (the alpha byte) plays no part. In
      particular a 32-bit pixel array yields the same pixels as the 24-bit
      array holding the same colours. */
  lemma {:induction false} SameColoursSamePixels(
    bytes: seq<byte>, start: nat, stride: nat,
    bytes': seq<byte>, start': nat, stride': nat, n: nat)
    requires 3 <= stride && Fits(bytes, start, stride, n)
    requires 3 <= stride' && Fits(bytes', start', stride', n)
    ensures forall k :: 0 <= k < n ==>
      start + stride * k + 3 <= |bytes| && start' + stride' * k + 3 <= |bytes'|
    ensures PixelRun(bytes, start, stride, n) == PixelRun(bytes', start', stride', n)
      <==> forall k :: 0 <= k < n ==>
             Colour(bytes, start, stride, k) == Colour(bytes', start', stride', k)
  {
    forall k | 0 <= k < n
      ensures start + stride * k + 3 <= |bytes| && start' + stride' * k + 3 <= |bytes'|
      ensures PixelRun(bytes, start, stride, n)[k] == PixelRun(bytes', start', stride', n)[k]
        <==> Colour(bytes, start, stride, k) == Colour(bytes', start', stride', k)
    {
      PixelRunAt(bytes, start, stride, n, k);
      PixelRunAt(bytes', start', stride', n, k);
      var c, c' := Colour(bytes, start, stride, k), Colour(bytes', start', stride', k);
      assert c == c' <==> c[0] == c'[0] && c[1] == c'[1] && c[2] == c'[2];
    }
  }

  /** Any stretch of m consecutive pixels of a run is itself a run, starting
      stride bytes further on for every pixel skipped. */
  lemma PixelRunSlice(bytes: seq<byte>, start: nat, stride: nat, n: nat, a: nat, m: nat)
    requires 3 <= stride && Fits(bytes, start, stride, n) && a + m <= n
    ensures Fits(bytes, start + stride * a, stride, m)
    ensures PixelRun(bytes, start, stride, n)[a..a + m] == PixelRun(bytes, start + stride * a, stride, m)
  {
    FitsSlice(bytes, start, stride, n, a, m);
    var whole, part := PixelRun(bytes, start, stride, n), PixelRun(bytes, start + stride * a, stride, m);
    forall i | a <= i < a + m
      ensures whole[i] == part[i - a]
    {
      SliceAt(bytes, start, stride, n, a, m, i - a);
    }
  }

  lemma FitsSlice(bytes: seq<byte>, start: nat, stride: nat, n: nat, a: nat, m: nat)
    requires 3 <= stride && Fits(bytes, start, stride, n) && a + m <= n
    ensures Fits(bytes, start + stride * a, stride, m)
  {
    if m > 0 {
      Arith.MulMono(a + m - 1, n - 1, stride);
      Arith.MulAdd(a, m - 1, stride);
    }
  }

  lemma SliceAt(bytes: seq<byte>, start: nat, stride: nat, n: nat, a: nat, m: nat, t: nat)
    requires 3 <= stride && Fits(bytes, start, stride, n) && a + m <= n && t < m
    requires Fits(bytes, start + stride * a, stride, m)
    ensures PixelRun(bytes, start, stride, n)[a + t] == PixelRun(bytes, start + stride * a, stride, m)[t]
  {
    PixelRunAt(bytes, start, stride, n, a + t);
    PixelRunAt(bytes, start + stride * a, stride, m, t);
    Arith.MulAdd(a, t, stride);
  }
}
