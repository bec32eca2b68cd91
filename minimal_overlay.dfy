/** The test-pattern generator of the minimal overlay example (`createTestTexture`). */
module MinimalOverlay {
  import opened Bytes
  import opened Arith

  /** Byte offset of the RGBA pixel (x, y) in a row-major `width*height` buffer; its four bytes lie inside. */
  function PixelOffset(width: nat, height: nat, x: nat, y: nat): (offset: nat)
    requires x < width && y < height
    ensures offset + 4 <= width * height * 4
  {
    PixelInside(width, height, x, y);
    (y * width + x) * 4
  }

  /** Channel c of the p-th pixel in row-major order: red = column mod 256, green 100, blue 0, alpha 255. */
  function Channel(width: nat, p: nat, c: nat): byte
  {
    var x := if width == 0 then 0 else p % width;
    if c == 0 then (x % 0x100) as byte
    else if c == 1 then 100
    else if c == 2 then 0
    else 255
  }

  /** The byte the pattern puts at flat offset i. */
  function PatternByte(width: nat, i: nat): byte
  {
    Channel(width, i / 4, i % 4)
  }

  /** Integer division of a row-major pixel index recovers its column and row. */
  lemma {:induction false} RowMajor(width: nat, x: nat, y: nat)
    requires x < width
    ensures (y * width + x) / width == y && (y * width + x) % width == x
  {
    var k := y * width + x;
    var q, r := k / width, k % width;
    assert k == q * width + r;
    assert (y - q) * width == r - x;
    if y > q {
      assert (y - q) * width >= width by { MulAtLeast(y - q, width); }
    } else if y < q {
      assert (q - y) * width >= width by { MulAtLeast(q - y, width); }
    }
  }

  /** A pixel (x, y) inside the image has a row-major index below `width*height`. */
  lemma {:induction false} PixelInside(width: nat, height: nat, x: nat, y: nat)
    requires x < width && y < height
    ensures y * width + x < width * height
  {
    assert y * width + x < y * width + width == (y + 1) * width;
    assert (y + 1) * width <= height * width by {
      MulMono(y + 1, height, width);
    }
  }

  /** The first y full rows fit in the image. */
  lemma PixelRowsInside(width: nat, height: nat, y: nat)
    requires y <= height
    ensures y * width <= width * height
  {
    MulMono(y, height, width);
  }

  /** The pattern at the four bytes of pixel (x, y). */
  lemma {:induction false} PatternAtPixel(width: nat, height: nat, x: nat, y: nat)
    requires x < width && y < height
    ensures var o := PixelOffset(width, height, x, y);
            && PatternByte(width, o) == (x % 0x100) as byte
            && PatternByte(width, o + 1) == 100
            && PatternByte(width, o + 2) == 0
            && PatternByte(width, o + 3) == 255
  {
    var k := y * width + x;
    RowMajor(width, x, y);
    assert (k * 4) / 4 == k && (k * 4) % 4 == 0;
    assert (k * 4 + 1) / 4 == k && (k * 4 + 1) % 4 == 1;
    assert (k * 4 + 2) / 4 == k && (k * 4 + 2) % 4 == 2;
    assert (k * 4 + 3) / 4 == k && (k * 4 + 3) % 4 == 3;
  }

  /** Distinct (pixel, channel) pairs have distinct byte offsets ... */
  lemma {:induction false} PixelOffsetsDistinct(width: nat, height: nat, x: nat, y: nat, c: nat, x': nat, y': nat, c': nat)
    requires x < width && x' < width && y < height && y' < height && c < 4 && c' < 4
    requires PixelOffset(width, height, x, y) + c == PixelOffset(width, height, x', y') + c'
    ensures x == x' && y == y' && c == c'
  {
    var k, k' := y * width + x, y' * width + x';
    assert (k * 4 + c) / 4 == k && (k * 4 + c) % 4 == c;
    assert (k' * 4 + c') / 4 == k' && (k' * 4 + c') % 4 == c';
    RowMajor(width, x, y);
    RowMajor(width, x', y');
  }

  /** ... and every offset below `width*height*4` is the offset of some pixel's channel. */
  lemma {:induction false} PixelOffsetsCover(width: nat, height: nat, i: nat)
    requires i < width * height * 4
    ensures width > 0 && (i / 4) / width < height
    ensures PixelOffset(width, height, (i / 4) % width, (i / 4) / width) + i % 4 == i
  {
    var k := i / 4;
    var x, y := k % width, k / width;
    assert k == y * width + x;
    assert k < width * height;
    if y >= height {
      assert y * width >= height * width by { MulMono(height, y, width); }
    }
  }

  /** The whole test image, byte by byte. */
  function TestPattern(width: nat, height: nat): seq<byte>
  {
    seq(width * height * 4, i requires 0 <= i => PatternByte(width, i))
  }

  /** The test image has `width*height*4` bytes and holds, at every pixel, the pattern's four channels. */
  lemma TestPatternPixels(width: nat, height: nat)
    ensures |TestPattern(width, height)| == width * height * 4
    ensures forall x: nat, y: nat :: x < width && y < height ==>
              var o, p := PixelOffset(width, height, x, y), TestPattern(width, height);
              && p[o] == (x % 0x100) as byte && p[o + 1] == 100 && p[o + 2] == 0 && p[o + 3] == 255
  {
    forall x: nat, y: nat | x < width && y < height
      ensures var o, p := PixelOffset(width, height, x, y), TestPattern(width, height);
              && p[o] == (x % 0x100) as byte && p[o + 1] == 100 && p[o + 2] == 0 && p[o + 3] == 255
    {
      PatternAtPixel(width, height, x, y);
    }
  }


  /** The first n pixels of `s`, in row-major order, hold the pattern. */
  ghost predicate Filled(s: seq<byte>, width: nat, n: nat)
  {
    && n * 4 <= |s|
    && forall p, c :: 0 <= p < n && 0 <= c < 4 ==> s[p * 4 + c] == Channel(width, p, c)
  }

  /** Writing pixel n's four channels after the first n extends the filled prefix by one pixel. */
  lemma FilledStep(s: seq<byte>, t: seq<byte>, width: nat, n: nat)
    requires Filled(s, width, n) && |t| == |s| && (n + 1) * 4 <= |s|
    requires forall i :: 0 <= i < n * 4 ==> t[i] == s[i]
    requires forall c :: 0 <= c < 4 ==> t[n * 4 + c] == Channel(width, n, c)
    ensures Filled(t, width, n + 1)
  {
    forall p, c | 0 <= p < n + 1 && 0 <= c < 4 ensures t[p * 4 + c] == Channel(width, p, c) {
      if p < n {
        assert t[p * 4 + c] == s[p * 4 + c];
      }
    }
  }

  /** A buffer of the image's size whose every pixel is filled is the test image. */
  lemma FilledIsPattern(s: seq<byte>, width: nat, height: nat)
    requires |s| == width * height * 4 && Filled(s, width, height * width)
    ensures s == TestPattern(width, height)
  {
    forall i | 0 <= i < |s| ensures s[i] == PatternByte(width, i) {
      assert i == (i / 4) * 4 + i % 4;
    }
  }

  /** The inner loop of the fill: writes the four channels of every pixel of row y. */
  method FillRow(pixels: array<byte>, width: nat, height: nat, y: nat)
    requires y < height && pixels.Length == width * height * 4
    requires Filled(pixels[..], width, y * width)
    modifies pixels
    ensures Filled(pixels[..], width, (y + 1) * width)
    ensures forall i :: (y + 1) * width * 4 <= i < pixels.Length ==> pixels[i] == old(pixels[i])
  {
    PixelRowsInside(width, height, y + 1);
    ghost var done := y * width;  // pixels written so far, in row-major order
    ghost var rowEnd := (y + 1) * width;
    assert done + width == rowEnd;
    var x := 0;
    while x < width
      invariant 0 <= x <= width
      invariant done == y * width + x && rowEnd == done + (width - x)
      invariant Filled(pixels[..], width, done)
      invariant forall i :: rowEnd * 4 <= i < pixels.Length ==> pixels[i] == old(pixels[i])
    {
      ghost var before := pixels[..];
      var index := (y * width + x) * 4;
      RowMajor(width, x, y);
      pixels[index] := (x % 0x100) as byte;
      pixels[index + 1] := 100;
      pixels[index + 2] := 0;
      pixels[index + 3] := 255;
      FilledStep(before, pixels[..], width, done);
      x := x + 1;
      done := done + 1;
    }
  }

  /**
   * Allocates a `width*height*4`-byte RGBA buffer and writes the test pattern into it,
   * pixel by pixel, row by row (the source's defaults are 512 by 512).
   */
  method CreateTestTexture(width: nat, height: nat) returns (pixels: array<byte>)
    ensures fresh(pixels)
    ensures pixels[..] == TestPattern(width, height)
  {
    pixels := new byte[width * height * 4];
    var y := 0;
    while y < height
      invariant 0 <= y <= height
      invariant Filled(pixels[..], width, y * width)
    {
      FillRow(pixels, width, height, y);
      y := y + 1;
    }
    FilledIsPattern(pixels[..], width, height);
  }
}
