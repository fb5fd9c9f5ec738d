/** Byte addressing of row-major pixel buffers.

    Both the shadow framebuffer and an image's pixel data are flat byte
    arrays: row after row, pixel after pixel, `bpp` bytes (channels) per
    pixel. Channel `c` of pixel `(x, y)` lives at `y * width * bpp + x * bpp + c`.
    This module names that position, decodes a position back into its
    coordinates, and proves the two are inverse on in-range coordinates. */
module Layout {

  /** One byte of pixel memory (the C `char` / `uint8_t` cells). */
  type Byte = b: int | 0 <= b < 256

  /** Position of channel `c` of pixel `(x, y)`. */
  function Offset(width: nat, bpp: nat, x: nat, y: nat, c: nat): nat
  {
    y * width * bpp + x * bpp + c
  }

  /** The next pixel of a row starts `bpp` bytes after this one. */
  lemma NextPixel(width: nat, bpp: nat, x: nat, y: nat)
    ensures Offset(width, bpp, x, y, 0) + bpp == Offset(width, bpp, x + 1, y, 0)
  {
  }

  /** The pixel one past the end of a row is the first pixel of the next row. */
  lemma NextRow(width: nat, bpp: nat, y: nat)
    ensures Offset(width, bpp, width, y, 0) == Offset(width, bpp, 0, y + 1, 0)
  {
  }

  /** The offset written with a row stride, as main.c does for images. */
  lemma StrideOffset(width: nat, bpp: nat, stride: nat, x: nat, y: nat)
    requires stride == width * bpp
    ensures y * stride + x * bpp == Offset(width, bpp, x, y, 0)
  {
  }

  /** The `bpp` bytes of pixel `(x, y)`. */
  function Pixel(s: seq<Byte>, width: nat, height: nat, bpp: nat, x: nat, y: nat): (p: seq<Byte>)
    requires |s| == width * height * bpp && x < width && y < height
    ensures |p| == bpp
  {
    PixelEndBound(width, height, bpp, x, y);
    s[Offset(width, bpp, x, y, 0)..Offset(width, bpp, x, y, 0) + bpp]
  }

  /** Byte `c` of a pixel is the byte at its channel's position. */
  lemma PixelByte(s: seq<Byte>, width: nat, height: nat, bpp: nat, x: nat, y: nat, c: nat)
    requires |s| == width * height * bpp && x < width && y < height && c < bpp
    ensures Offset(width, bpp, x, y, c) < |s|
    ensures Pixel(s, width, height, bpp, x, y)[c] == s[Offset(width, bpp, x, y, c)]
  {
    PixelEndBound(width, height, bpp, x, y);
  }

  /** The channel a position falls on. */
  function Chan(bpp: nat, i: nat): nat
    requires 0 < bpp
  {
    i % bpp
  }

  /** The column of the pixel a position falls in. */
  function Col(width: nat, bpp: nat, i: nat): nat
    requires 0 < width && 0 < bpp
  {
    (i / bpp) % width
  }

  /** The row of the pixel a position falls in. */
  function Row(width: nat, bpp: nat, i: nat): nat
    requires 0 < width && 0 < bpp
  {
    i / bpp / width
  }

  /** Multiplying by a non-negative factor keeps order. */
  lemma MulLe(a: int, b: int, d: int)
    requires a <= b && 0 <= d
    ensures a * d <= b * d
  {
    assert b * d - a * d == (b - a) * d;
  }

  /** A strict order between two multiples of a positive factor is an
      order between the multiplicands. */
  lemma MulLtCancel(a: int, b: int, d: int)
    requires 0 < d && a * d < b * d
    ensures a < b
  {
    if b <= a {
      MulLe(b, a, d);
    }
  }

  /** Division with remainder is unique: `q * d + r` with `0 <= r < d`
      divides to `q` and leaves `r`. */
  lemma DivMod(q: int, d: int, r: int)
    requires 0 < d && 0 <= r < d
    ensures (q * d + r) / d == q && (q * d + r) % d == r
  {
    var n := q * d + r;
    var k, m := n / d, n % d;
    assert n == k * d + m;
    assert (q - k) * d == m - r;
    if q > k {
      MulLe(1, q - k, d);
    } else if q < k {
      MulLe(q - k, -1, d);
    }
  }

  /** Every in-range coordinate triple addresses a byte inside a buffer of
      `width * height` pixels of `bpp` bytes. */
  lemma OffsetBound(width: nat, height: nat, bpp: nat, x: nat, y: nat, c: nat)
    requires x < width && y < height && c < bpp
    ensures Offset(width, bpp, x, y, c) < width * height * bpp
  {
    MulLe(x + 1, width, bpp);
    MulLe(y + 1, height, width * bpp);
    assert y * width * bpp == y * (width * bpp);
    assert width * height * bpp == height * (width * bpp);
  }

  /** A buffer of `height` rows of `width * bpp` bytes holds
      `width * height * bpp` bytes, and the row after the last one starts
      there. */
  lemma BufferSize(width: nat, height: nat, bpp: nat)
    ensures height * (width * bpp) == width * height * bpp
    ensures Offset(width, bpp, 0, height, 0) == width * height * bpp
  {
  }

  /** The bytes before the start of any row up to `height` lie in the buffer. */
  lemma RowStartBound(width: nat, height: nat, bpp: nat, y: nat)
    requires y <= height
    ensures Offset(width, bpp, 0, y, 0) <= width * height * bpp
  {
    MulLe(y, height, width * bpp);
    assert y * width * bpp == y * (width * bpp);
    assert width * height * bpp == height * (width * bpp);
  }

  /** An in-range pixel ends inside the buffer. */
  lemma PixelEndBound(width: nat, height: nat, bpp: nat, x: nat, y: nat)
    requires x < width && y < height
    ensures Offset(width, bpp, x, y, 0) + bpp <= width * height * bpp
  {
    NextPixel(width, bpp, x, y);
    MulLe(x + 1, width, bpp);
    NextRow(width, bpp, y);
    RowStartBound(width, height, bpp, y + 1);
  }

  /** Decoding a position recovers the coordinates that produced it. */
  lemma OffsetDecode(width: nat, bpp: nat, x: nat, y: nat, c: nat)
    requires x < width && c < bpp
    ensures Chan(bpp, Offset(width, bpp, x, y, c)) == c
    ensures Col(width, bpp, Offset(width, bpp, x, y, c)) == x
    ensures Row(width, bpp, Offset(width, bpp, x, y, c)) == y
  {
    var p := y * width + x;
    assert Offset(width, bpp, x, y, c) == p * bpp + c;
    DivMod(p, bpp, c);
    DivMod(y, width, x);
  }

  /** Every byte of a buffer of `width * height` pixels is addressed by the
      coordinates its position decodes to, and those are in range. */
  lemma OffsetCovers(width: nat, height: nat, bpp: nat, i: nat)
    requires i < width * height * bpp
    ensures 0 < width && 0 < height && 0 < bpp
    ensures Col(width, bpp, i) < width && Row(width, bpp, i) < height && Chan(bpp, i) < bpp
    ensures Offset(width, bpp, Col(width, bpp, i), Row(width, bpp, i), Chan(bpp, i)) == i
  {
    var p := i / bpp;
    var x, y, c := p % width, p / width, i % bpp;
    assert i == p * bpp + c;
    assert p == y * width + x;
    if height <= y {
      MulLe(height, y, width);
      MulLe(width * height, p, bpp);
      assert false;
    }
    assert y * width * bpp + x * bpp == (y * width + x) * bpp;
  }

  /** Distinct in-range coordinates address distinct bytes. */
  lemma OffsetInjective(width: nat, bpp: nat, x1: nat, y1: nat, c1: nat, x2: nat, y2: nat, c2: nat)
    requires x1 < width && c1 < bpp && x2 < width && c2 < bpp
    requires Offset(width, bpp, x1, y1, c1) == Offset(width, bpp, x2, y2, c2)
    ensures x1 == x2 && y1 == y2 && c1 == c2
  {
    OffsetDecode(width, bpp, x1, y1, c1);
    OffsetDecode(width, bpp, x2, y2, c2);
  }
}
