/** Raster images: an uncompressed, row-major pixel buffer and its
    nearest-neighbour resampling (`Image` and `Image_resize_linear` in
    main.c). */
module Raster {

  import opened Layout
  import opened Geometry

  /** The bytes of a `newWidth` x `newHeight` resample of `src`: channel `c`
      of destination pixel `(x, y)` is channel `c` of source pixel
      `(SourceCoord(x, srcWidth, newWidth), SourceCoord(y, srcHeight, newHeight))`. */
  ghost function Resampled(src: seq<Byte>, srcWidth: nat, srcHeight: nat, bpp: nat,
                           newWidth: nat, newHeight: nat): (r: seq<Byte>)
    requires |src| == srcWidth * srcHeight * bpp
    requires 0 < newWidth && 0 < newHeight && 0 < bpp ==> 0 < srcWidth && 0 < srcHeight
    ensures |r| == newWidth * newHeight * bpp
  {
    seq(newWidth * newHeight * bpp, i requires 0 <= i < newWidth * newHeight * bpp =>
      OffsetCovers(newWidth, newHeight, bpp, i);
      var x, y, c := Col(newWidth, bpp, i), Row(newWidth, bpp, i), Chan(bpp, i);
      var sx, sy := SourceCoord(x, srcWidth, newWidth), SourceCoord(y, srcHeight, newHeight);
      OffsetBound(srcWidth, srcHeight, bpp, sx, sy, c);
      src[Offset(srcWidth, bpp, sx, sy, c)])
  }

  /** Every destination byte is the same channel of the chosen source
      pixel: nothing is interpolated or blended. */
  lemma ResampledAt(src: seq<Byte>, srcWidth: nat, srcHeight: nat, bpp: nat,
                    newWidth: nat, newHeight: nat, x: nat, y: nat, c: nat)
    requires |src| == srcWidth * srcHeight * bpp
    requires 0 < srcWidth && 0 < srcHeight
    requires x < newWidth && y < newHeight && c < bpp
    ensures Offset(newWidth, bpp, x, y, c) < newWidth * newHeight * bpp
    ensures SourceCoord(x, srcWidth, newWidth) < srcWidth
    ensures SourceCoord(y, srcHeight, newHeight) < srcHeight
    ensures Offset(srcWidth, bpp, SourceCoord(x, srcWidth, newWidth), SourceCoord(y, srcHeight, newHeight), c) < |src|
    ensures Resampled(src, srcWidth, srcHeight, bpp, newWidth, newHeight)[Offset(newWidth, bpp, x, y, c)]
         == src[Offset(srcWidth, bpp, SourceCoord(x, srcWidth, newWidth), SourceCoord(y, srcHeight, newHeight), c)]
  {
    OffsetBound(newWidth, newHeight, bpp, x, y, c);
    OffsetDecode(newWidth, bpp, x, y, c);
    OffsetBound(srcWidth, srcHeight, bpp, SourceCoord(x, srcWidth, newWidth), SourceCoord(y, srcHeight, newHeight), c);
  }

  /** Resampling to the source's own dimensions reproduces it byte for byte. */
  lemma ResampledIdentity(src: seq<Byte>, width: nat, height: nat, bpp: nat)
    requires |src| == width * height * bpp
    ensures Resampled(src, width, height, bpp, width, height) == src
  {
    var r := Resampled(src, width, height, bpp, width, height);
    forall i | 0 <= i < |src|
      ensures r[i] == src[i]
    {
      OffsetCovers(width, height, bpp, i);
      var x, y, c := Col(width, bpp, i), Row(width, bpp, i), Chan(bpp, i);
      SourceCoordIdentity(x, width);
      SourceCoordIdentity(y, height);
    }
  }

  /** A decoded or resampled image. `stride` is the length of one row in
      bytes; `data` holds `height` rows. */
  class Image {
    const width: nat
    const height: nat
    const bpp: nat
    const stride: nat
    const data: array<Byte>

    /** Row layout: rows are `width` pixels of `bpp` bytes, with no padding. */
    ghost predicate Valid()
    {
      stride == width * bpp && data.Length == height * stride
    }

    /** What `Image_load` establishes about a decoded image: three bytes
        per pixel and a stride of `width * 3`. The pixels come from the
        decoder. */
    constructor Loaded(width: nat, height: nat, pixels: seq<Byte>)
      requires |pixels| == width * height * 3
      ensures Valid() && fresh(data)
      ensures this.width == width && this.height == height
      ensures bpp == 3 && stride == width * 3 && data[..] == pixels
    {
      this.width := width;
      this.height := height;
      bpp := 3;
      stride := width * 3;
      data := new Byte[|pixels|](i requires 0 <= i < |pixels| => pixels[i]);
    }

    /** A fresh image of the given shape whose pixels are yet to be written. */
    constructor Blank(width: nat, height: nat, bpp: nat)
      ensures Valid() && fresh(data)
      ensures this.width == width && this.height == height
      ensures this.bpp == bpp && stride == width * bpp
    {
      this.width := width;
      this.height := height;
      this.bpp := bpp;
      stride := width * bpp;
      data := new Byte[height * (width * bpp)];
    }

    /** `Image_resize_linear`: a new, independent image of the requested
        dimensions, filled by nearest-neighbour sampling of this one,
        which is only read. Despite the C name, nothing is interpolated. */
    method Resize(newWidth: nat, newHeight: nat) returns (r: Image)
      requires Valid()
      requires 0 < newWidth && 0 < newHeight && 0 < bpp ==> 0 < width && 0 < height
      ensures fresh(r) && fresh(r.data) && r.Valid()
      ensures r.width == newWidth && r.height == newHeight
      ensures r.bpp == bpp && r.stride == newWidth * bpp
      ensures r.data.Length == newHeight * (newWidth * bpp)
      ensures r.data[..] == Resampled(data[..], width, height, bpp, newWidth, newHeight)
      ensures data[..] == old(data[..])
    {
      BufferSize(width, height, bpp);
      BufferSize(newWidth, newHeight, bpp);
      r := new Image.Blank(newWidth, newHeight, bpp);
      ghost var target := Resampled(data[..], width, height, bpp, newWidth, newHeight);
      RowStartBound(newWidth, newHeight, bpp, 0);
      for y := 0 to newHeight
        invariant Offset(newWidth, bpp, 0, y, 0) <= r.data.Length
        invariant forall j :: 0 <= j < Offset(newWidth, bpp, 0, y, 0) ==> r.data[j] == target[j]
      {
        for x := 0 to newWidth
          invariant Offset(newWidth, bpp, x, y, 0) <= r.data.Length
          invariant forall j :: 0 <= j < Offset(newWidth, bpp, x, y, 0) ==> r.data[j] == target[j]
        {
          PixelEndBound(newWidth, newHeight, bpp, x, y);
          var srcX := SourceCoord(x, width, newWidth);
          var srcY := SourceCoord(y, height, newHeight);
          var srcIndex := srcY * stride + srcX * bpp;
          var dstIndex := y * r.stride + x * r.bpp;
          StrideOffset(width, bpp, stride, srcX, srcY);
          StrideOffset(newWidth, bpp, r.stride, x, y);
          for c := 0 to bpp
            invariant forall j :: 0 <= j < dstIndex + c ==> r.data[j] == target[j]
          {
            ResampledAt(data[..], width, height, bpp, newWidth, newHeight, x, y, c);
            r.data[dstIndex + c] := data[srcIndex + c];
          }
          NextPixel(newWidth, bpp, x, y);
        }
        NextRow(newWidth, bpp, y);
        RowStartBound(newWidth, newHeight, bpp, y + 1);
      }
    }
  }
}
