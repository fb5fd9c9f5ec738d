# zfbv pixel core in Dafny

zfbv is a terminal image viewer for Linux framebuffer devices. It decodes
an image and resamples it to fit the screen. It then draws it centred
into a shadow buffer and copies that buffer into the device's
memory-mapped region. This project models the pixel work of `main.c`:

- the `framebuffer` and `Image` records;
- clearing the shadow buffer to a solid colour;
- drawing an image clipped to the screen with its channel order reversed;
- nearest-neighbour resampling into a fresh image;
- flushing the shadow buffer to the device;
- the centring arithmetic of the main loop.

Modules:

- `Layout` (layout.dfy): a buffer is `width * height` pixels of `bpp`
  bytes, row-major. Channel `c` of pixel `(x, y)` is at
  `y * width * bpp + x * bpp + c` (`Offset`). `Col`, `Row` and `Chan`
  decode a position, and lemmas prove encoding and decoding inverse.
- `Geometry` (geometry.dfy): the clip range of an image on one axis, the
  centring offset with C's truncating division, and the source coordinate
  of a resampled pixel.
- `Raster` (raster.dfy): class `Image` (`width`, `height`, `bpp`,
  `stride`, `data`). `Resize` is specified by the reference function
  `Resampled`.
- `Display` (display.dfy): class `Framebuffer`. It holds the shadow
  `buffer` and the mapped region `fbp`, both `array<Byte>`. `ClearColor`
  is specified by `Cleared` and `DrawImage` by `Blitted`. `Update` is the
  flush.
- `Viewer` (viewer.dfy): `RenderFrame`, one pass of the main loop: centre,
  clear to black, draw, flush.

Each state-changing method ensures `array[..] == Spec(old(array[..]))`.
The lemmas beside each specification function state what it means pixel
by pixel.

Two details of `Image_resize_linear` (main.c:298-332) shape the model:

- It checks nothing about the requested sizes. Here they are `nat`, and
  a zero size gives an empty image, as the C loops do. Sizes are never
  negative: `main` derives them from the non-negative screen and image
  dimensions and a non-negative scale (main.c:68-77, 124-125). C `int`
  overflow is not modelled (see below).
- It copies `src->bpp` bytes per pixel and gives the new image the
  source's `bpp`, and so does the model.

## Model

| member | source | states |
|---|---|---|
| `Layout.OffsetBound` | main.c:260-264 | a pixel inside the screen and a channel below `bpp` address a byte inside a buffer of `width * height * bpp` bytes (the blit's memory safety) |
| `Layout.OffsetDecode` | main.c:252-260 | the column, row and channel decoded from `y * width * bpp + x * bpp + c` are `x`, `y`, `c` |
| `Layout.OffsetCovers` | main.c:216-224 | every byte below `width * height * bpp` is channel `Chan` of pixel `(Col, Row)`, and those are in range |
| `Layout.OffsetInjective` | main.c:260-264 | distinct in-range (pixel, channel) pairs address distinct bytes, so no write lands on another pixel |
| `Geometry.Clip` | main.c:234-237 | a column lies in the clip range exactly when it is on the screen and under the image; the range lies within both |
| `Geometry.CenterOffset` | main.c:98-99 | `(screen - extent) / 2` truncated toward zero: if the image fits, the right margin is the left margin or one more; if it does not, the part cut off on the right is the part cut off on the left or one more |
| `Geometry.SourceCoord` | main.c:316-322 | the source column is the floor of `x * srcW / newW` (`s * newW <= x * srcW < (s + 1) * newW`) and is below `srcW` |
| `Geometry.SourceCoordIdentity` | main.c:316-322 | when the new size equals the source size, every destination column copies the same source column |
| `Geometry.SourceCoordMonotone` | main.c:316-322 | a later destination column never copies an earlier source column |
| `Geometry.CenteredFits` | main.c:98-99 | a centred image no larger than the screen is clipped to exactly its own extent |
| `Geometry.CenteredCovers` | main.c:98-99 | a centred image at least as large as the screen is clipped to the whole screen |
| `Raster.ResampledAt` | main.c:319-329 | channel `c` of destination pixel `(x, y)` equals channel `c` of source pixel `(SourceCoord(x), SourceCoord(y))`, whose bytes lie inside the source |
| `Raster.ResampledIdentity` | main.c:316-329 | resampling to the source's own dimensions reproduces the source byte for byte |
| `Raster.Image.Loaded` | main.c:285-286 | a decoded image has 3 bytes per pixel, stride `width * 3`, and the decoder's bytes |
| `Raster.Image.Blank` | main.c:305-309 | a new image has the requested width and height, the given `bpp`, stride `width * bpp` and `height * stride` bytes |
| `Raster.Image.Resize` | main.c:298-332 | returns a fresh image of `newWidth` x `newHeight` with the source's `bpp`, stride `newWidth * bpp`, data `Resampled(source)`; the source data is unchanged |
| `Display.ClearedPixel` | main.c:224-228 | after a clear, every pixel reads `b, g, r` followed by its own untouched bytes from offset 3 on |
| `Display.BlittedAt` | main.c:251-266 | channel `c` of a covered screen pixel `(x, y)` with `c < img.bpp` holds image byte `(y - yo) * w * bpp + (x - xo) * bpp + bpp - 1 - c`; every other byte keeps its value |
| `Display.BlittedPixel` | main.c:257-265 | a covered pixel shows the image pixel's channels reversed in its first `img.bpp` bytes and keeps the rest; an uncovered pixel is unchanged |
| `Display.ChannelsReversedIsReverse` | main.c:262-264 | the per-pixel channel loop's order (channel `c` from byte `bpp - 1 - c`) is sequence reversal, as defined recursively by `Reverse` (first byte last) |
| `Display.ChannelsReversedInvolutive` | main.c:262-264 | the blit's BGR/RGB channel swap is its own inverse: applied twice it restores the pixel |
| `Display.BlitOffScreen` | main.c:239-241 | when the clip range is empty on either axis, the buffer is unchanged |
| `Display.Framebuffer.constructor` | main.c:175-179 | an open framebuffer has the reported width and height, `bpp = bits_per_pixel / 8`, and shadow and mapped regions of `width * height * bpp` bytes |
| `Display.Framebuffer.Update` | main.c:208-212 | the mapped region equals the shadow buffer on every byte, and the shadow buffer is unchanged |
| `Display.Framebuffer.ClearColor` | main.c:214-229 | the shadow buffer becomes `Cleared(old buffer)`; with `bpp < 3` it is unchanged |
| `Display.Framebuffer.DrawImage` | main.c:231-268 | the shadow buffer becomes `Blitted(old buffer)` for the image at `(xo, yo)`; every index the loops touch is in bounds |
| `Viewer.RenderFrame` | main.c:98-103 | after one pass, the shadow buffer is the black-cleared previous buffer with the image drawn centred, and the mapped region equals it |
| `Viewer.FramePixel` | main.c:98-103 | in a frame, a pixel under the centred image shows its channels reversed; any other pixel is black in its three colour bytes |
| `Viewer.FrameShowsImage` | main.c:98-102 | an image no larger than the screen appears in full: image pixel `(ix, iy)` is at `(posX + ix, posY + iy)`, channels reversed |

## Left out

- Device setup and teardown (`framebuffer_create`, `framebuffer_destroy`: `open`, `ioctl`, `mmap`, `munmap`, `close`) is OS I/O. The `Framebuffer` constructor stands for a successful open. Its mapped region and its shadow buffer start zeroed; the device's contents and `malloc`'s bytes (main.c:188) are unspecified in C.
- `Image_load` and `Image_free` wrap the stb_image decoder, which is not part of this model. `Image.Loaded` keeps only what `Image_load` sets: `bpp == 3` and `stride == width * 3`.
- Terminal raw mode, `getchar` and all `printf` diagnostics are I/O. This includes the "Unsupported bits per pixel" message of the `bpp < 3` guard.
- The main loop's `float` scale logic is left out: fit-to-screen, `* 1.2f`, `/ 1.2f`, clamping to `[0.1, 5.0]`, the `scale == prev_scale` test and re-resampling. Only one pass of its body is modelled, as `RenderFrame`.
- Raster.Image.Resize: the source coordinate is the exact floor of `x * srcW / newW`. The C code computes `(int)(x * x_ratio)` with a `float` ratio, which may round differently at edge cases.
- Raster.Image.Resize: a failed `malloc` (main.c:299-314) is not modelled; `Resize` always returns an image. The new image's bytes start at 0 where `malloc` leaves them undefined; every byte is overwritten anyway.
- Raster.Image.Resize: requires a non-empty source whenever the destination has bytes to fill. The C code would read out of bounds otherwise; decoded images are never empty.
- The `NULL` checks on `fb`, `img`, `fb->buffer` and `fb->fbp` (main.c:209, 215, 232) are left out. Dafny references are never null.
- C `int` overflow in `width * height * bpp` and in the index arithmetic is not modelled; all integers are unbounded.
- Display.Framebuffer.DrawImage: requires `img.bpp <= bpp` when `bpp >= 3`. The C code writes `img->bpp` bytes into each pixel unchecked. Every image in the program has 3 bytes per pixel, so with the guard this always holds.
- Display.Framebuffer.DrawImage: requires the image data and the shadow buffer to be distinct arrays, as the C allocations are.
