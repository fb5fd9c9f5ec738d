/** Integer screen geometry used by the viewer: clipping an image's extent
    against the screen, centring it, and picking the source pixel a
    resampled pixel is copied from. */
module Geometry {

  import opened Layout

  /** A half-open range `[lo, hi)` of columns or rows; empty when `hi <= lo`. */
  datatype Span = Span(lo: int, hi: int) {
    predicate Contains(v: int) { lo <= v < hi }
  }

  /** The part of `[offset, offset + extent)` that lies on a screen of
      `screen` columns (or rows): the start is raised to 0, the end
      lowered to the screen size. */
  function Clip(offset: int, extent: nat, screen: nat): (s: Span)
    ensures forall v :: s.Contains(v) <==> 0 <= v < screen && offset <= v < offset + extent
    ensures 0 <= s.lo && offset <= s.lo && s.hi <= screen && s.hi <= offset + extent
  {
    Span(if offset < 0 then 0 else offset,
         if offset + extent > screen then screen else offset + extent)
  }

  /** Position that centres `extent` pixels on `screen` pixels:
      `(screen - extent) / 2` in C. When the image fits, the margin
      before it is at most one pixel smaller than the margin after it;
      when it does not, the part cut off before the screen is at most one
      pixel smaller than the part cut off after it. */
  function CenterOffset(screen: int, extent: int): (pos: int)
    ensures extent <= screen ==> 0 <= pos && 0 <= (screen - extent - pos) - pos <= 1
    ensures screen < extent ==> pos <= 0 && 0 <= (extent - screen + pos) - (-pos) <= 1
  {
    var d := screen - extent;
    // C's `/` truncates toward zero; Dafny's `/` is Euclidean
    if 0 <= d then d / 2 else -((-d) / 2)
  }

  /** The source column (row) that destination column (row) `i` of a
      `newLen`-wide resample of a `srcLen`-wide image copies:
      `i * srcLen / newLen` rounded down, so always inside the source. */
  function SourceCoord(i: nat, srcLen: nat, newLen: nat): (s: nat)
    requires i < newLen
    ensures s * newLen <= i * srcLen < (s + 1) * newLen
    ensures 0 < srcLen ==> s < srcLen
  {
    var s := i * srcLen / newLen;
    SourceCoordBelow(i, srcLen, newLen, s);
    s
  }

  /** Helper for SourceCoord: the floor of `i * srcLen / newLen` is below
      `srcLen` when `i < newLen`. */
  lemma SourceCoordBelow(i: nat, srcLen: nat, newLen: nat, s: nat)
    requires i < newLen && s == i * srcLen / newLen
    ensures s * newLen <= i * srcLen < (s + 1) * newLen
    ensures 0 < srcLen ==> s < srcLen
  {
    assert i * srcLen == s * newLen + (i * srcLen) % newLen;
    if 0 < srcLen {
      MulLe(i + 1, newLen, srcLen);
      MulLtCancel(s, srcLen, newLen);
    }
  }

  /** Resampling to the source's own size copies every column (row) from
      itself. */
  lemma SourceCoordIdentity(i: nat, len: nat)
    requires i < len
    ensures SourceCoord(i, len, len) == i
  {
    var s := SourceCoord(i, len, len);
    MulLtCancel(s, i + 1, len);
    MulLtCancel(i, s + 1, len);
  }

  /** Nearest-neighbour sampling keeps order: a later destination column
      never copies an earlier source column. */
  lemma SourceCoordMonotone(i: nat, j: nat, srcLen: nat, newLen: nat)
    requires i <= j < newLen
    ensures SourceCoord(i, srcLen, newLen) <= SourceCoord(j, srcLen, newLen)
  {
    var si, sj := SourceCoord(i, srcLen, newLen), SourceCoord(j, srcLen, newLen);
    MulLe(i, j, srcLen);
    MulLtCancel(si, sj + 1, newLen);
  }

  /** An image no larger than the screen, centred, is on screen in full. */
  lemma CenteredFits(screen: nat, extent: nat)
    requires extent <= screen
    ensures Clip(CenterOffset(screen, extent), extent, screen)
            == Span(CenterOffset(screen, extent), CenterOffset(screen, extent) + extent)
  {
  }

  /** An image at least as large as the screen, centred, covers all of it. */
  lemma CenteredCovers(screen: nat, extent: nat)
    requires screen <= extent
    ensures Clip(CenterOffset(screen, extent), extent, screen) == Span(0, screen)
  {
  }
}
