/** The display surface: a shadow buffer that drawing writes, and the
    device's memory-mapped region that only a flush writes (`framebuffer`,
    `framebuffer_clear_color`, `framebuffer_draw_image` and
    `framebuffer_update` in main.c). */
module Display {

  import opened Layout
  import opened Geometry
  import opened Raster

  /** A buffer cleared to the colour `(r, g, b)`: the first three bytes of
      every pixel become `b`, `g`, `r` (the display's byte order) and any
      further bytes keep their value. Buffers of fewer than three bytes per
      pixel are refused and stay as they are. */
  ghost function Cleared(s: seq<Byte>, bpp: nat, r: Byte, g: Byte, b: Byte): (t: seq<Byte>)
    ensures |t| == |s|
  {
    if bpp < 3 then s
    else
      seq(|s|, i requires 0 <= i < |s| =>
        if Chan(bpp, i) == 0 then b
        else if Chan(bpp, i) == 1 then g
        else if Chan(bpp, i) == 2 then r
        else s[i])
  }

  /** Channel `c` of pixel `(ix, iy)` of an image, or 0 off the image. */
  ghost function ImageByte(img: seq<Byte>, iw: nat, ih: nat, ib: nat, ix: int, iy: int, c: int): Byte
    requires |img| == iw * ih * ib
  {
    if 0 <= ix < iw && 0 <= iy < ih && 0 <= c < ib then
      OffsetBound(iw, ih, ib, ix, iy, c);
      img[Offset(iw, ib, ix, iy, c)]
    else 0
  }

  /** A buffer with an `iw` x `ih` image of `ib` bytes per pixel drawn with
      its top-left corner at `(xo, yo)`: every screen pixel the image covers
      takes the image pixel's channels in reverse order in its first `ib`
      bytes; every other byte keeps its value. Buffers of fewer than three
      bytes per pixel are refused and stay as they are. */
  ghost function Blitted(fb: seq<Byte>, width: nat, height: nat, bpp: nat, xo: int, yo: int,
                         img: seq<Byte>, iw: nat, ih: nat, ib: nat): (t: seq<Byte>)
    requires |fb| == width * height * bpp && |img| == iw * ih * ib
    ensures |t| == |fb|
  {
    if bpp < 3 then fb
    else
      seq(|fb|, i requires 0 <= i < |fb| =>
        OffsetCovers(width, height, bpp, i);
        var x, y, c := Col(width, bpp, i), Row(width, bpp, i), Chan(bpp, i);
        if xo <= x < xo + iw && yo <= y < yo + ih && c < ib
        then ImageByte(img, iw, ih, ib, x - xo, y - yo, ib - 1 - c)
        else fb[i])
  }

  /** A pixel's channels in the opposite order. */
  function ChannelsReversed(p: seq<Byte>): (q: seq<Byte>)
    ensures |q| == |p|
  {
    seq(|p|, k requires 0 <= k < |p| => p[|p| - 1 - k])
  }

  /** Reversal defined independently, one byte at a time: the first byte
      goes last. */
  function Reverse(p: seq<Byte>): (q: seq<Byte>)
    ensures |q| == |p|
  {
    if p == [] then [] else Reverse(p[1..]) + [p[0]]
  }

  /** The blit's channel loop writes channel `c` from image byte
      `bpp - 1 - c`: that is exactly reversal of the pixel. */
  lemma {:induction false} ChannelsReversedIsReverse(p: seq<Byte>)
    ensures ChannelsReversed(p) == Reverse(p)
  {
    if p != [] {
      ChannelsReversedIsReverse(p[1..]);
      assert ChannelsReversed(p) == ChannelsReversed(p[1..]) + [p[0]];
    }
  }

  /** Swapping the channel order twice restores the pixel: the blit's
      BGR-to-RGB swap is its own inverse. */
  lemma ChannelsReversedInvolutive(p: seq<Byte>)
    ensures ChannelsReversed(ChannelsReversed(p)) == p
  {
  }

  /** After a clear every pixel reads `b, g, r` followed by its own
      remaining bytes. */
  lemma ClearedPixel(s: seq<Byte>, width: nat, height: nat, bpp: nat, r: Byte, g: Byte, b: Byte, x: nat, y: nat)
    requires |s| == width * height * bpp && 3 <= bpp && x < width && y < height
    ensures Pixel(Cleared(s, bpp, r, g, b), width, height, bpp, x, y)
         == [b, g, r] + Pixel(s, width, height, bpp, x, y)[3..]
  {
    var p := Pixel(Cleared(s, bpp, r, g, b), width, height, bpp, x, y);
    var q := [b, g, r] + Pixel(s, width, height, bpp, x, y)[3..];
    forall c | 0 <= c < bpp
      ensures p[c] == q[c]
    {
      OffsetDecode(width, bpp, x, y, c);
      PixelByte(Cleared(s, bpp, r, g, b), width, height, bpp, x, y, c);
      PixelByte(s, width, height, bpp, x, y, c);
    }
  }

  /** Channel `c` of screen pixel `(x, y)` after a blit: the image's
      channel `ib - 1 - c` of the pixel at `(x - xo, y - yo)` when the image
      covers the pixel and `c < ib`, the old byte otherwise. */
  lemma BlittedAt(fb: seq<Byte>, width: nat, height: nat, bpp: nat, xo: int, yo: int,
                  img: seq<Byte>, iw: nat, ih: nat, ib: nat, x: nat, y: nat, c: nat)
    requires |fb| == width * height * bpp && |img| == iw * ih * ib
    requires 3 <= bpp && x < width && y < height && c < bpp
    ensures Offset(width, bpp, x, y, c) < |fb|
    ensures Blitted(fb, width, height, bpp, xo, yo, img, iw, ih, ib)[Offset(width, bpp, x, y, c)]
         == if xo <= x < xo + iw && yo <= y < yo + ih && c < ib
            then ImageByte(img, iw, ih, ib, x - xo, y - yo, ib - 1 - c)
            else fb[Offset(width, bpp, x, y, c)]
  {
    OffsetBound(width, height, bpp, x, y, c);
    OffsetDecode(width, bpp, x, y, c);
  }

  /** A pixel the image covers shows the image pixel's channels reversed
      in its first `ib` bytes and keeps the rest; a pixel it does not cover
      is unchanged. */
  lemma BlittedPixel(fb: seq<Byte>, width: nat, height: nat, bpp: nat, xo: int, yo: int,
                     img: seq<Byte>, iw: nat, ih: nat, ib: nat, x: nat, y: nat)
    requires |fb| == width * height * bpp && |img| == iw * ih * ib
    requires 3 <= bpp && ib <= bpp && x < width && y < height
    ensures xo <= x < xo + iw && yo <= y < yo + ih ==>
              Pixel(Blitted(fb, width, height, bpp, xo, yo, img, iw, ih, ib), width, height, bpp, x, y)
              == ChannelsReversed(Pixel(img, iw, ih, ib, x - xo, y - yo)) + Pixel(fb, width, height, bpp, x, y)[ib..]
    ensures !(xo <= x < xo + iw && yo <= y < yo + ih) ==>
              Pixel(Blitted(fb, width, height, bpp, xo, yo, img, iw, ih, ib), width, height, bpp, x, y)
              == Pixel(fb, width, height, bpp, x, y)
  {
    var t := Blitted(fb, width, height, bpp, xo, yo, img, iw, ih, ib);
    var p := Pixel(t, width, height, bpp, x, y);
    var was := Pixel(fb, width, height, bpp, x, y);
    var covered := xo <= x < xo + iw && yo <= y < yo + ih;
    forall c | 0 <= c < bpp
      ensures p[c] == if covered && c < ib then ImageByte(img, iw, ih, ib, x - xo, y - yo, ib - 1 - c) else was[c]
    {
      BlittedAt(fb, width, height, bpp, xo, yo, img, iw, ih, ib, x, y, c);
      PixelByte(t, width, height, bpp, x, y, c);
      PixelByte(fb, width, height, bpp, x, y, c);
    }
    if covered {
      var ip := Pixel(img, iw, ih, ib, x - xo, y - yo);
      var q := ChannelsReversed(ip) + was[ib..];
      forall c | 0 <= c < bpp
        ensures p[c] == q[c]
      {
        if c < ib {
          PixelByte(img, iw, ih, ib, x - xo, y - yo, ib - 1 - c);
        }
      }
    }
  }

  /** An image that covers no screen pixel, because it lies wholly off one
      side of the screen, leaves the buffer as it is. */
  lemma BlitOffScreen(fb: seq<Byte>, width: nat, height: nat, bpp: nat, xo: int, yo: int,
                      img: seq<Byte>, iw: nat, ih: nat, ib: nat)
    requires |fb| == width * height * bpp && |img| == iw * ih * ib
    requires Clip(xo, iw, width).hi <= Clip(xo, iw, width).lo
          || Clip(yo, ih, height).hi <= Clip(yo, ih, height).lo
    ensures Blitted(fb, width, height, bpp, xo, yo, img, iw, ih, ib) == fb
  {
    var t := Blitted(fb, width, height, bpp, xo, yo, img, iw, ih, ib);
    forall i | 0 <= i < |fb|
      ensures t[i] == fb[i]
    {
      OffsetCovers(width, height, bpp, i);
      var x, y := Col(width, bpp, i), Row(width, bpp, i);
      assert !Clip(xo, iw, width).Contains(x) || !Clip(yo, ih, height).Contains(y);
    }
  }

  /** Progress of the blit loop: every covered byte before channel `c` of
      pixel `(x, y)`, in row-major order, holds its image byte; every other
      byte still holds its value from `before`. */
  ghost predicate BlitProgress(cur: seq<Byte>, before: seq<Byte>, width: nat, height: nat, bpp: nat,
                               xo: int, yo: int, img: seq<Byte>, iw: nat, ih: nat, ib: nat,
                               cols: Span, rowStart: int, y: int, x: int, c: int)
    requires |before| == width * height * bpp && |img| == iw * ih * ib && 0 < width && 0 < bpp
  {
    |cur| == |before| &&
    forall j :: 0 <= j < |before| ==>
      cur[j] == BlitTarget(before, width, bpp, xo, yo, img, iw, ih, ib, cols, rowStart, y, x, c, j)
  }

  /** What byte `j` holds at that point of the blit loop. */
  ghost function BlitTarget(before: seq<Byte>, width: nat, bpp: nat,
                            xo: int, yo: int, img: seq<Byte>, iw: nat, ih: nat, ib: nat,
                            cols: Span, rowStart: int, y: int, x: int, c: int, j: nat): Byte
    requires j < |before| && |img| == iw * ih * ib && 0 < width && 0 < bpp
  {
    var xx, yy, cc := Col(width, bpp, j), Row(width, bpp, j), Chan(bpp, j);
    if Drawn(xx, yy, cc, ib, cols, rowStart, y, x, c)
    then ImageByte(img, iw, ih, ib, xx - xo, yy - yo, ib - 1 - cc)
    else before[j]
  }

  /** Whether the blit loop, about to write channel `c` of pixel `(x, y)`,
      has written channel `cc` of pixel `(xx, yy)`. */
  ghost predicate Drawn(xx: int, yy: int, cc: int, ib: nat, cols: Span, rowStart: int, y: int, x: int, c: int)
  {
    cols.Contains(xx) && rowStart <= yy && cc < ib &&
    (yy < y || (yy == y && (xx < x || (xx == x && cc < c))))
  }

  /** The framebuffer device as main.c holds it once it is open. */
  class Framebuffer {
    const width: nat
    const height: nat
    /** Bytes per pixel. */
    const bpp: nat
    /** The shadow buffer that clearing and drawing write. */
    const buffer: array<Byte>
    /** The memory-mapped device region, written only by Update. */
    const fbp: array<Byte>

    /** Both regions hold `width * height` pixels and are distinct. */
    ghost predicate Valid()
    {
      buffer.Length == width * height * bpp && fbp.Length == buffer.Length && buffer != fbp
    }

    /** The state `framebuffer_create` leaves: the geometry the device
        reports, `bpp` the whole bytes in `bitsPerPixel`, and a shadow
        buffer and mapped region of the screen's size. */
    constructor (width: nat, height: nat, bitsPerPixel: nat)
      ensures Valid() && fresh(buffer) && fresh(fbp)
      ensures this.width == width && this.height == height && bpp == bitsPerPixel / 8
    {
      this.width := width;
      this.height := height;
      bpp := bitsPerPixel / 8;
      var screensize := width * height * (bitsPerPixel / 8);
      fbp := new Byte[screensize];
      buffer := new Byte[screensize];
    }

    /** `framebuffer_update`: copies the whole shadow buffer into the
        mapped region; the shadow buffer is only read. */
    method Update()
      requires Valid()
      modifies fbp
      ensures fbp[..] == buffer[..]
      ensures buffer[..] == old(buffer[..])
    {
      var screensize := width * height * bpp;
      forall i | 0 <= i < screensize {
        fbp[i] := buffer[i];
      }
    }

    /** `framebuffer_clear_color`: clears the shadow buffer to `(r, g, b)`
        one pixel at a time, or refuses when a pixel has fewer than three
        bytes. */
    method ClearColor(r: Byte, g: Byte, b: Byte)
      requires Valid()
      modifies buffer
      ensures buffer[..] == Cleared(old(buffer[..]), bpp, r, g, b)
      ensures bpp < 3 ==> buffer[..] == old(buffer[..])
    {
      var screensize := width * height * bpp;
      if bpp < 3 {
        return;
      }
      ghost var before := buffer[..];
      ghost var target := Cleared(before, bpp, r, g, b);
      ghost var p := 0;
      var i := 0;
      while i < screensize
        invariant 0 <= p <= width * height && i == p * bpp
        invariant forall j :: 0 <= j < i ==> buffer[j] == target[j]
        invariant forall j :: i <= j < screensize ==> buffer[j] == before[j]
        decreases screensize - i
      {
        PixelStep(width * height, bpp, p, i);
        buffer[i] := b;
        buffer[i + 1] := g;
        buffer[i + 2] := r;
        i := i + bpp;
        p := p + 1;
      }
      PixelCount(width * height, bpp, p, i);
    }

    /** `framebuffer_draw_image`: draws `img` with its top-left corner at
        `(xo, yo)`, clipped to the screen on all four sides, reversing each
        pixel's channel order. Returns at once when nothing is on screen or
        a pixel has fewer than three bytes. */
    method DrawImage(xo: int, yo: int, img: Image)
      requires Valid() && img.Valid()
      requires 3 <= bpp ==> img.bpp <= bpp
      requires img.data != buffer
      modifies buffer
      ensures buffer[..] == Blitted(old(buffer[..]), width, height, bpp, xo, yo,
                                    img.data[..], img.width, img.height, img.bpp)
    {
      BufferSize(img.width, img.height, img.bpp);
      var cols := Clip(xo, img.width, width);
      var rows := Clip(yo, img.height, height);
      if cols.lo >= cols.hi || rows.lo >= rows.hi {
        BlitOffScreen(buffer[..], width, height, bpp, xo, yo, img.data[..], img.width, img.height, img.bpp);
        return;
      }
      if bpp < 3 {
        return;
      }
      ghost var before := buffer[..];
      ghost var src := img.data[..];
      for y := rows.lo to rows.hi
        invariant BlitProgress(buffer[..], before, width, height, bpp, xo, yo, src,
                               img.width, img.height, img.bpp, cols, rows.lo, y, cols.lo, 0)
      {
        var fbRowOffset := y * width * bpp;
        var imgY := y - yo;
        var imgRowOffset := imgY * img.width * img.bpp;
        for x := cols.lo to cols.hi
          invariant BlitProgress(buffer[..], before, width, height, bpp, xo, yo, src,
                                 img.width, img.height, img.bpp, cols, rows.lo, y, x, 0)
        {
          var imgX := x - xo;
          var fbIdx := fbRowOffset + x * bpp;
          var imgIdx := imgRowOffset + imgX * img.bpp;
          for c := 0 to img.bpp
            invariant BlitProgress(buffer[..], before, width, height, bpp, xo, yo, src,
                                   img.width, img.height, img.bpp, cols, rows.lo, y, x, c)
          {
            OffsetBound(width, height, bpp, x, y, c);
            OffsetBound(img.width, img.height, img.bpp, imgX, imgY, img.bpp - 1 - c);
            OffsetDecode(width, bpp, x, y, c);
            ghost var prev := buffer[..];
            buffer[fbIdx + c] := img.data[imgIdx + img.bpp - 1 - c];
            forall j | 0 <= j < |before|
              ensures buffer[j] == BlitTarget(before, width, bpp, xo, yo, src, img.width, img.height, img.bpp,
                                              cols, rows.lo, y, x, c + 1, j)
            {
              OffsetCovers(width, height, bpp, j);
            }
          }
        }
      }
      forall j | 0 <= j < |before|
        ensures buffer[j] == Blitted(before, width, height, bpp, xo, yo, src, img.width, img.height, img.bpp)[j]
      {
        OffsetCovers(width, height, bpp, j);
        assert rows.Contains(Row(width, bpp, j)) <==> yo <= Row(width, bpp, j) < yo + img.height;
      }
    }
  }

  /** One step of the clear loop: pixel `p` starts at byte `i`, lies inside
      a buffer of `n` pixels, and its bytes are its channels 0 to `bpp - 1`. */
  lemma PixelStep(n: nat, bpp: nat, p: nat, i: nat)
    requires 3 <= bpp && i == p * bpp && i < n * bpp
    ensures p < n && i + bpp <= n * bpp && i + bpp == (p + 1) * bpp
    ensures forall j :: i <= j < i + bpp ==> Chan(bpp, j) == j - i
  {
    MulLtCancel(p, n, bpp);
    MulLe(p + 1, n, bpp);
    forall j | i <= j < i + bpp
      ensures Chan(bpp, j) == j - i
    {
      DivMod(p, bpp, j - i);
    }
  }

  /** The clear loop stops exactly at the end of the buffer. */
  lemma PixelCount(n: nat, bpp: nat, p: nat, i: nat)
    requires 0 < bpp && i == p * bpp && p <= n && n * bpp <= i
    ensures i == n * bpp
  {
    MulLe(p, n, bpp);
  }
}
