/** One pass of the viewer's main loop (main.c:98-103): centre the current
    resized image, clear the shadow buffer to black, draw the image, and
    flush the shadow buffer to the device. */
module Viewer {

  import opened Layout
  import opened Geometry
  import opened Raster
  import opened Display

  /** The shadow buffer after one pass over the previous buffer `prev`:
      black, with the image drawn centred. */
  ghost function Frame(prev: seq<Byte>, width: nat, height: nat, bpp: nat,
                       img: seq<Byte>, iw: nat, ih: nat, ib: nat): (t: seq<Byte>)
    requires |prev| == width * height * bpp && |img| == iw * ih * ib
    ensures |t| == |prev|
  {
    Blitted(Cleared(prev, bpp, 0, 0, 0), width, height, bpp,
            CenterOffset(width, iw), CenterOffset(height, ih), img, iw, ih, ib)
  }

  /** Draws one frame: the shadow buffer becomes the frame and the device
      region shows it. */
  method RenderFrame(fb: Framebuffer, img: Image)
    requires fb.Valid() && img.Valid()
    requires 3 <= fb.bpp ==> img.bpp <= fb.bpp
    requires img.data != fb.buffer && img.data != fb.fbp
    modifies fb.buffer, fb.fbp
    ensures fb.buffer[..] == Frame(old(fb.buffer[..]), fb.width, fb.height, fb.bpp,
                                   img.data[..], img.width, img.height, img.bpp)
    ensures fb.fbp[..] == fb.buffer[..]
  {
    BufferSize(img.width, img.height, img.bpp);
    var posX := CenterOffset(fb.width, img.width);
    var posY := CenterOffset(fb.height, img.height);
    fb.ClearColor(0, 0, 0);
    fb.DrawImage(posX, posY, img);
    fb.Update();
  }

  /** What a frame shows at screen pixel `(x, y)`: where the centred image
      covers it, the image pixel's channels reversed; elsewhere black in
      the three colour bytes. */
  lemma FramePixel(prev: seq<Byte>, width: nat, height: nat, bpp: nat,
                   img: seq<Byte>, iw: nat, ih: nat, ib: nat, x: nat, y: nat)
    requires |prev| == width * height * bpp && |img| == iw * ih * ib
    requires 3 <= bpp && ib <= 3 && x < width && y < height
    ensures var xo, yo := CenterOffset(width, iw), CenterOffset(height, ih);
            xo <= x < xo + iw && yo <= y < yo + ih ==>
              Pixel(Frame(prev, width, height, bpp, img, iw, ih, ib), width, height, bpp, x, y)[..ib]
              == ChannelsReversed(Pixel(img, iw, ih, ib, x - xo, y - yo))
    ensures var xo, yo := CenterOffset(width, iw), CenterOffset(height, ih);
            !(xo <= x < xo + iw && yo <= y < yo + ih) ==>
              Pixel(Frame(prev, width, height, bpp, img, iw, ih, ib), width, height, bpp, x, y)[..3]
              == [0, 0, 0]
  {
    var xo, yo := CenterOffset(width, iw), CenterOffset(height, ih);
    var cleared := Cleared(prev, bpp, 0, 0, 0);
    ClearedPixel(prev, width, height, bpp, 0, 0, 0, x, y);
    BlittedPixel(cleared, width, height, bpp, xo, yo, img, iw, ih, ib, x, y);
  }

  /** An image no larger than the screen appears in full: each of its
      pixels, channels reversed, at its own position shifted by the
      centring offsets. */
  lemma FrameShowsImage(prev: seq<Byte>, width: nat, height: nat, bpp: nat,
                        img: seq<Byte>, iw: nat, ih: nat, ib: nat, ix: nat, iy: nat)
    requires |prev| == width * height * bpp && |img| == iw * ih * ib
    requires 3 <= bpp && ib <= 3 && iw <= width && ih <= height
    requires ix < iw && iy < ih
    ensures var x, y := CenterOffset(width, iw) + ix, CenterOffset(height, ih) + iy;
            0 <= x < width && 0 <= y < height &&
            Pixel(Frame(prev, width, height, bpp, img, iw, ih, ib), width, height, bpp, x, y)[..ib]
            == ChannelsReversed(Pixel(img, iw, ih, ib, ix, iy))
  {
    var x, y := CenterOffset(width, iw) + ix, CenterOffset(height, ih) + iy;
    FramePixel(prev, width, height, bpp, img, iw, ih, ib, x, y);
  }
}
