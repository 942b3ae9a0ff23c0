// kernel/src/graphics.rs: the kernel's frame buffers — the screen and the
// shadow buffers of windows. A buffer is a byte array with its geometry;
// a pixel is four bytes at `4 * (ppsl * y + x)` of which the first three
// hold the colour (see writer.dfy). `copy` is `copy_nonoverlapping` row by
// row, `move_up` a `copy` (memmove) followed by `write_bytes`.

module Graphics {
  import opened Common
  import Math
  import Writer

  datatype PixelColor = PixelColor(r: bv8, g: bv8, b: bv8, a: bv8)

  /** `bits_per_pixel`: 32 for the two supported formats, an error otherwise. */
  function BitsPerPixel(f: PixelFormat): (r: Option<nat>)
    ensures r.Some? <==> Writer.Supported(f)
    ensures r.Some? ==> r.value == 32 && (r.value + 7) / 8 == 4
  {
    match f
    case Rgb => Some(32)
    case Bgr => Some(32)
    case _ => None
  }

  const BYTES_PER_PIXEL: nat := 4

  /**
   * The byte length `FrameBuffer::new` gives the buffer. As written it is
   * `bytes_per_pixel * hres * vres`; corrected, a row is `ppsl` pixels
   * wide, as the pixel offsets assume.
   */
  function BufferLength(config: FrameBufferConfig, asWritten: bool): nat
  {
    if asWritten then BYTES_PER_PIXEL * config.horizontalResolution * config.verticalResolution
    else BYTES_PER_PIXEL * config.pixelsPerScanLine * config.verticalResolution
  }

  /** A configuration the firmware can hand over: rows at least as wide as the screen. */
  predicate ConfigOk(config: FrameBufferConfig)
  {
    Writer.Supported(config.pixelFormat) && config.horizontalResolution <= config.pixelsPerScanLine
  }

  /** With the corrected length every visible pixel lies inside the buffer. */
  lemma VisiblePixelsInBuffer(config: FrameBufferConfig, x: nat, y: nat)
    requires ConfigOk(config)
    requires x < config.horizontalResolution && y < config.verticalResolution
    ensures Writer.PixelAt(config.pixelsPerScanLine, x, y) + 4 <= BufferLength(config, false)
  {
    Writer.PixelInBounds(config.pixelsPerScanLine, config.verticalResolution, x, y);
  }

  /**
   * As written, a screen whose scan lines are longer than its resolution
   * gets a buffer too short for its last pixels: with ppsl 2, hres 1 and
   * vres 2 the buffer has 8 bytes and pixel (0, 1) starts at byte 8.
   */
  lemma AsWrittenLengthTooShort()
    ensures var config := FrameBufferConfig(2, 1, 2, Rgb);
      && 0 < config.horizontalResolution && 1 < config.verticalResolution
      && BufferLength(config, true) == 8
      && Writer.PixelAt(config.pixelsPerScanLine, 0, 1) == 8
      && Writer.PixelAt(config.pixelsPerScanLine, 0, 1) + 4 <= BufferLength(config, false)
  {
  }

  // ---- copy geometry -----------------------------------------------------------

  /**
   * What one `copy` does: `rows` runs of `perCopy` bytes, the k-th taken
   * from `srcStart + k * srcStride` and stored at `dstStart + k * dstStride`.
   */
  datatype Geometry = Geometry(rows: nat, perCopy: nat, dstStart: nat, srcStart: nat, dstStride: nat, srcStride: nat)

  function DstRow(g: Geometry, k: nat): nat { g.dstStart + k * g.dstStride }
  function SrcRow(g: Geometry, k: nat): nat { g.srcStart + k * g.srcStride }

  /**
   * The geometry of `copy(pos_x, pos_y, src)` into `dst`. The destination
   * is clipped to `[max(pos, 0), min(pos + src size, dst size))` on each
   * axis. As written the source size is taken from `dst` (`self`), the
   * column of the first byte is not scaled by the pixel size, and a clip
   * whose end lies before its start has no defined outcome (the unsigned
   * subtraction overflows): None. Corrected, the source size is the
   * source's own, offsets are in pixels, and an empty clip copies nothing.
   */
  function CopyGeometry(dst: FrameBufferConfig, src: FrameBufferConfig, posX: int, posY: int, asWritten: bool): Option<Geometry>
  {
    var srcW := if asWritten then dst.horizontalResolution else src.horizontalResolution;
    var srcH := if asWritten then dst.verticalResolution else src.verticalResolution;
    var startX, startY := Math.Max(posX, 0), Math.Max(posY, 0);
    var endX, endY := Math.Min(posX + srcW, dst.horizontalResolution), Math.Min(posY + srcH, dst.verticalResolution);
    var srcX, srcY := Math.Max(-posX, 0), Math.Max(-posY, 0);
    var dstStride := BYTES_PER_PIXEL * dst.pixelsPerScanLine;
    var srcStride := BYTES_PER_PIXEL * src.pixelsPerScanLine;
    if endX < startX || endY < startY then
      if asWritten then None else Some(Geometry(0, 0, 0, 0, dstStride, srcStride))
    else if asWritten then
      Some(Geometry(endY - startY, BYTES_PER_PIXEL * (endX - startX),
                    dstStride * startY + startX, srcStride * srcY + srcX, dstStride, srcStride))
    else
      Some(Geometry(endY - startY, BYTES_PER_PIXEL * (endX - startX),
                    BYTES_PER_PIXEL * (dst.pixelsPerScanLine * startY + startX),
                    BYTES_PER_PIXEL * (src.pixelsPerScanLine * srcY + srcX), dstStride, srcStride))
  }

  /** Row `k` of the copy lies inside both buffers. */
  predicate RowFits(g: Geometry, k: nat, dstLen: nat, srcLen: nat)
  {
    DstRow(g, k) + g.perCopy <= dstLen && SrcRow(g, k) + g.perCopy <= srcLen
  }

  /** `dst` with `piece` stored at `off`. */
  function Splice(dst: seq<bv8>, off: nat, piece: seq<bv8>): (r: seq<bv8>)
    requires off + |piece| <= |dst|
    ensures |r| == |dst|
  {
    dst[..off] + piece + dst[off + |piece|..]
  }

  /** The destination after the first `r` rows of the copy. */
  function CopyRows(dst: seq<bv8>, src: seq<bv8>, g: Geometry, r: nat): (res: seq<bv8>)
    requires forall k :: 0 <= k < r ==> RowFits(g, k, |dst|, |src|)
    ensures |res| == |dst|
  {
    if r == 0 then dst
    else
      assert RowFits(g, r - 1, |dst|, |src|);
      Splice(CopyRows(dst, src, g, r - 1), DstRow(g, r - 1), src[SrcRow(g, r - 1)..SrcRow(g, r - 1) + g.perCopy])
  }

  /** The corrected clip of a copy, with the facts about it the proofs use. */
  datatype Clip = Clip(startX: nat, startY: nat, endX: nat, endY: nat, srcX: nat, srcY: nat)

  function ClipOf(dst: FrameBufferConfig, src: FrameBufferConfig, posX: int, posY: int): (c: Clip)
    ensures c.srcX == c.startX - posX && c.srcY == c.startY - posY
  {
    var startX, startY := Math.Max(posX, 0), Math.Max(posY, 0);
    var endX, endY := Math.Min(posX + src.horizontalResolution, dst.horizontalResolution),
                      Math.Min(posY + src.verticalResolution, dst.verticalResolution);
    Clip(startX, startY, if endX < startX then startX else endX, if endY < startY then startY else endY,
         Math.Max(-posX, 0), Math.Max(-posY, 0))
  }

  /** Destination byte (y, c) — row y, byte c of the row — lies in the copied area. */
  predicate InClip(k: Clip, y: nat, c: nat)
  {
    k.startY <= y < k.endY && BYTES_PER_PIXEL * k.startX <= c < BYTES_PER_PIXEL * k.endX
  }

  /** Byte `c` of row `y` in a buffer whose rows are `stride` bytes. */
  function Index(stride: nat, y: nat, c: nat): nat { y * stride + c }

  lemma MulLe(a: nat, b: nat, c: nat)
    requires b <= c
    ensures a * b <= a * c
  {
    Writer.MulLeMono(a, b, c);
  }

  /** Byte c of row y, c below the stride, lies in a buffer of `rows` such rows. */
  lemma IndexInBuffer(stride: nat, rows: nat, y: nat, c: nat)
    requires y < rows && c < stride
    ensures Index(stride, y, c) < stride * rows
  {
    MulLe(stride, y + 1, rows);
    assert stride * (y + 1) == y * stride + stride;
  }

  /** Within a row of `stride` bytes, a run [c0, c0 + n) of row y' holds byte (y, c) exactly when y == y' and c is in it. */
  lemma IndexInRun(stride: nat, y: nat, c: nat, y': nat, c0: nat, n: nat)
    requires c < stride && c0 + n <= stride
    ensures Index(stride, y', c0) <= Index(stride, y, c) < Index(stride, y', c0) + n
        <==> y == y' && c0 <= c < c0 + n
  {
    if y < y' {
      MulLe(stride, y + 1, y');
      assert stride * (y + 1) == y * stride + stride;
      assert stride * y' == y' * stride;
    } else if y > y' {
      MulLe(stride, y' + 1, y);
      assert stride * (y' + 1) == y' * stride + stride;
      assert stride * y == y * stride;
    }
  }

  /** Every row of the corrected copy lies inside both buffers. */
  lemma CorrectedRowsFit(dst: FrameBufferConfig, src: FrameBufferConfig, posX: int, posY: int, k: nat)
    requires ConfigOk(dst) && ConfigOk(src)
    requires var g := CopyGeometry(dst, src, posX, posY, false).value; k < g.rows
    ensures RowFits(CopyGeometry(dst, src, posX, posY, false).value, k, BufferLength(dst, false), BufferLength(src, false))
  {
    var g := CopyGeometry(dst, src, posX, posY, false).value;
    var cl := ClipOf(dst, src, posX, posY);
    var ds, ss := BYTES_PER_PIXEL * dst.pixelsPerScanLine, BYTES_PER_PIXEL * src.pixelsPerScanLine;
    assert g.rows == cl.endY - cl.startY && g.perCopy == BYTES_PER_PIXEL * (cl.endX - cl.startX);
    assert DstRow(g, k) == Index(ds, cl.startY + k, BYTES_PER_PIXEL * cl.startX) by {
      assert k * ds + ds * cl.startY == (cl.startY + k) * ds;
    }
    assert SrcRow(g, k) == Index(ss, cl.srcY + k, BYTES_PER_PIXEL * cl.srcX) by {
      assert k * ss + ss * cl.srcY == (cl.srcY + k) * ss;
    }
    RunInBuffer(ds, dst.verticalResolution, cl.startY + k, BYTES_PER_PIXEL * cl.startX, g.perCopy);
    RunInBuffer(ss, src.verticalResolution, cl.srcY + k, BYTES_PER_PIXEL * cl.srcX, g.perCopy);
  }

  lemma RunInBuffer(stride: nat, rows: nat, y: nat, c0: nat, n: nat)
    requires y < rows && c0 + n <= stride
    ensures Index(stride, y, c0) + n <= stride * rows
  {
    MulLe(stride, y + 1, rows);
    assert stride * (y + 1) == y * stride + stride;
  }

  /**
   * A geometry anchored at byte `c0` of destination row `y0` and byte
   * `sc0` of source row `sy0`, each run staying inside its row.
   */
  predicate Anchored(g: Geometry, y0: nat, c0: nat, sy0: nat, sc0: nat)
  {
    && g.dstStart == Index(g.dstStride, y0, c0) && g.srcStart == Index(g.srcStride, sy0, sc0)
    && c0 + g.perCopy <= g.dstStride && sc0 + g.perCopy <= g.srcStride
  }

  lemma RowIndex(stride: nat, y0: nat, c0: nat, k: nat)
    ensures Index(stride, y0, c0) + k * stride == Index(stride, y0 + k, c0)
  {
    assert (y0 + k) * stride == y0 * stride + k * stride;
  }

  /**
   * The rows copied so far, byte by byte: a destination byte inside the
   * first `r` runs holds the source byte at the same offset from the
   * anchors; every other byte is unchanged.
   */
  lemma {:induction false} CopyRowsByte(d: seq<bv8>, s: seq<bv8>, g: Geometry, r: nat,
                                        y0: nat, c0: nat, sy0: nat, sc0: nat, y: nat, c: nat)
    requires Anchored(g, y0, c0, sy0, sc0)
    requires forall k :: 0 <= k < r ==> RowFits(g, k, |d|, |s|)
    requires c < g.dstStride && Index(g.dstStride, y, c) < |d|
    ensures var i := Index(g.dstStride, y, c);
      && (y0 <= y < y0 + r && c0 <= c < c0 + g.perCopy ==>
            && Index(g.srcStride, sy0 + (y - y0), sc0 + (c - c0)) < |s|
            && CopyRows(d, s, g, r)[i] == s[Index(g.srcStride, sy0 + (y - y0), sc0 + (c - c0))])
      && (!(y0 <= y < y0 + r && c0 <= c < c0 + g.perCopy) ==> CopyRows(d, s, g, r)[i] == d[i])
    decreases r
  {
    if r > 0 {
      CopyRowsByte(d, s, g, r - 1, y0, c0, sy0, sc0, y, c);
      if y == y0 + r - 1 && c0 <= c < c0 + g.perCopy {
        LastRowByte(d, s, g, r, y0, c0, sy0, sc0, y, c);
      } else {
        OtherRowByte(d, s, g, r, y0, c0, sy0, sc0, y, c);
      }
    }
  }

  /** A byte of run `r - 1` holds its source byte once that run is copied. */
  lemma LastRowByte(d: seq<bv8>, s: seq<bv8>, g: Geometry, r: nat,
                    y0: nat, c0: nat, sy0: nat, sc0: nat, y: nat, c: nat)
    requires Anchored(g, y0, c0, sy0, sc0) && r > 0
    requires forall k :: 0 <= k < r ==> RowFits(g, k, |d|, |s|)
    requires c < g.dstStride && Index(g.dstStride, y, c) < |d|
    requires y == y0 + r - 1 && c0 <= c < c0 + g.perCopy
    ensures Index(g.srcStride, sy0 + (y - y0), sc0 + (c - c0)) < |s|
    ensures CopyRows(d, s, g, r)[Index(g.dstStride, y, c)] == s[Index(g.srcStride, sy0 + (y - y0), sc0 + (c - c0))]
  {
    assert RowFits(g, r - 1, |d|, |s|);
    var prev := CopyRows(d, s, g, r - 1);
    var off := DstRow(g, r - 1);
    var so := SrcRow(g, r - 1);
    var piece := s[so..so + g.perCopy];
    assert CopyRows(d, s, g, r) == Splice(prev, off, piece);
    var i := Index(g.dstStride, y, c);
    RowIndex(g.dstStride, y0, c0, r - 1);
    RowIndex(g.srcStride, sy0, sc0, r - 1);
    assert off == Index(g.dstStride, y, c0);
    assert so == Index(g.srcStride, sy0 + (y - y0), sc0);
    SpliceInside(prev, off, piece, i);
  }

  /** A byte outside run `r - 1` is left as it was by copying that run. */
  lemma OtherRowByte(d: seq<bv8>, s: seq<bv8>, g: Geometry, r: nat,
                     y0: nat, c0: nat, sy0: nat, sc0: nat, y: nat, c: nat)
    requires Anchored(g, y0, c0, sy0, sc0) && r > 0
    requires forall k :: 0 <= k < r ==> RowFits(g, k, |d|, |s|)
    requires c < g.dstStride && Index(g.dstStride, y, c) < |d|
    requires !(y == y0 + r - 1 && c0 <= c < c0 + g.perCopy)
    ensures CopyRows(d, s, g, r)[Index(g.dstStride, y, c)] == CopyRows(d, s, g, r - 1)[Index(g.dstStride, y, c)]
  {
    assert RowFits(g, r - 1, |d|, |s|);
    var prev := CopyRows(d, s, g, r - 1);
    var off := DstRow(g, r - 1);
    var so := SrcRow(g, r - 1);
    var piece := s[so..so + g.perCopy];
    assert CopyRows(d, s, g, r) == Splice(prev, off, piece);
    RowIndex(g.dstStride, y0, c0, r - 1);
    IndexInRun(g.dstStride, y, c, y0 + r - 1, c0, g.perCopy);
    SpliceOutside(prev, off, piece, Index(g.dstStride, y, c));
  }

  lemma SpliceInside(dst: seq<bv8>, off: nat, piece: seq<bv8>, i: nat)
    requires off <= i < off + |piece| <= |dst|
    ensures Splice(dst, off, piece)[i] == piece[i - off]
  {
  }

  lemma SpliceOutside(dst: seq<bv8>, off: nat, piece: seq<bv8>, i: nat)
    requires off + |piece| <= |dst| && i < |dst| && !(off <= i < off + |piece|)
    ensures Splice(dst, off, piece)[i] == dst[i]
  {
  }

  /** A non-empty corrected copy is anchored at the clip's corner and its source counterpart. */
  lemma CorrectedAnchored(dst: FrameBufferConfig, src: FrameBufferConfig, posX: int, posY: int)
    requires ConfigOk(dst) && ConfigOk(src)
    requires CopyGeometry(dst, src, posX, posY, false).value.rows > 0
    ensures var g := CopyGeometry(dst, src, posX, posY, false).value;
      var cl := ClipOf(dst, src, posX, posY);
      && Anchored(g, cl.startY, BYTES_PER_PIXEL * cl.startX, cl.srcY, BYTES_PER_PIXEL * cl.srcX)
      && g.rows == cl.endY - cl.startY && g.perCopy == BYTES_PER_PIXEL * (cl.endX - cl.startX)
      && g.dstStride == BYTES_PER_PIXEL * dst.pixelsPerScanLine && g.srcStride == BYTES_PER_PIXEL * src.pixelsPerScanLine
  {
    var g := CopyGeometry(dst, src, posX, posY, false).value;
    var cl := ClipOf(dst, src, posX, posY);
    assert g.dstStart == Index(g.dstStride, cl.startY, BYTES_PER_PIXEL * cl.startX) by {
      assert BYTES_PER_PIXEL * (dst.pixelsPerScanLine * cl.startY) == cl.startY * (BYTES_PER_PIXEL * dst.pixelsPerScanLine);
    }
    assert g.srcStart == Index(g.srcStride, cl.srcY, BYTES_PER_PIXEL * cl.srcX) by {
      assert BYTES_PER_PIXEL * (src.pixelsPerScanLine * cl.srcY) == cl.srcY * (BYTES_PER_PIXEL * src.pixelsPerScanLine);
    }
  }

  /**
   * The corrected `copy`, byte by byte: a destination byte inside the clip
   * holds the source byte at the same place relative to (pos_x, pos_y) —
   * x scaled to bytes — and every other destination byte is unchanged.
   */
  lemma CopyAt(dst: FrameBufferConfig, src: FrameBufferConfig, posX: int, posY: int,
               d: seq<bv8>, s: seq<bv8>, y: nat, c: nat)
    requires ConfigOk(dst) && ConfigOk(src)
    requires |d| == BufferLength(dst, false) && |s| == BufferLength(src, false)
    requires y < dst.verticalResolution && c < BYTES_PER_PIXEL * dst.pixelsPerScanLine
    ensures var cl := ClipOf(dst, src, posX, posY);
      var ds, ss := BYTES_PER_PIXEL * dst.pixelsPerScanLine, BYTES_PER_PIXEL * src.pixelsPerScanLine;
      var r := CopyResult(dst, src, posX, posY, d, s);
      && Index(ds, y, c) < |d|
      && (InClip(cl, y, c) ==>
            && 0 <= y - posY && 0 <= c - BYTES_PER_PIXEL * posX
            && Index(ss, y - posY, c - BYTES_PER_PIXEL * posX) < |s|
            && r[Index(ds, y, c)] == s[Index(ss, y - posY, c - BYTES_PER_PIXEL * posX)])
      && (!InClip(cl, y, c) ==> r[Index(ds, y, c)] == d[Index(ds, y, c)])
  {
    var ds := BYTES_PER_PIXEL * dst.pixelsPerScanLine;
    IndexInBuffer(ds, dst.verticalResolution, y, c);
    CorrectedRowsFitAll(dst, src, posX, posY);
    var g := CopyGeometry(dst, src, posX, posY, false).value;
    var cl := ClipOf(dst, src, posX, posY);
    if g.rows > 0 {
      CorrectedAnchored(dst, src, posX, posY);
      CopyRowsByte(d, s, g, g.rows, cl.startY, BYTES_PER_PIXEL * cl.startX, cl.srcY, BYTES_PER_PIXEL * cl.srcX, y, c);
    } else {
      assert !InClip(cl, y, c);
    }
  }

  /**
   * As written, the source size comes from the destination: copying a
   * 2x2 buffer into a 4x4 screen at (0, 0) copies four rows of sixteen
   * bytes, while the source has two rows of eight; the last run ends at
   * byte 40 of a 16-byte buffer.
   */
  lemma AsWrittenSourceSizeFromSelf()
    ensures var dst, src := FrameBufferConfig(4, 4, 4, Rgb), FrameBufferConfig(2, 2, 2, Rgb);
      var w := CopyGeometry(dst, src, 0, 0, true);
      var c := CopyGeometry(dst, src, 0, 0, false);
      && w == Some(Geometry(4, 16, 0, 0, 16, 8))
      && SrcRow(w.value, 3) + w.value.perCopy == 40 > BufferLength(src, false)
      && c == Some(Geometry(2, 8, 0, 0, 16, 8))
  {
  }

  /**
   * As written, the first byte's column is not scaled by the pixel size:
   * a copy at (1, 1) into a 4x4 screen starts at byte 17, inside pixel
   * (0, 1), instead of byte 20, the start of pixel (1, 1).
   */
  lemma AsWrittenColumnUnscaled()
    ensures var dst, src := FrameBufferConfig(4, 4, 4, Rgb), FrameBufferConfig(2, 2, 2, Rgb);
      && CopyGeometry(dst, src, 1, 1, true).value.dstStart == 17
      && CopyGeometry(dst, src, 1, 1, false).value.dstStart == 20 == Writer.PixelAt(4, 1, 1)
  {
  }

  /**
   * As written, a source entirely right of the screen gives a clip whose
   * end (4) precedes its start (5): the width subtraction overflows.
   * Corrected, nothing is copied.
   */
  lemma AsWrittenEmptyClipOverflows()
    ensures var dst, src := FrameBufferConfig(4, 4, 4, Rgb), FrameBufferConfig(2, 2, 2, Rgb);
      && CopyGeometry(dst, src, 5, 0, true).None?
      && CopyGeometry(dst, src, 5, 0, false).value.rows == 0
  {
  }

  // ---- move_up -----------------------------------------------------------------

  /** The buffer after `move_up(value, fill)`: rows `value..` moved to the top, the last `value` rows filled. */
  function MoveUpBytes(b: seq<bv8>, rowBytes: nat, rows: nat, value: nat, fill: bv8): (r: seq<bv8>)
    requires |b| == rowBytes * rows && value <= rows
    ensures |r| == |b|
  {
    MulLe(rowBytes, value, rows);
    b[rowBytes * value..] + seq(rowBytes * value, _ => fill)
  }

  /**
   * Scrolling, row by row: row y now holds what row y + value held, and
   * the rows that had nothing below them to take are all `fill`.
   */
  lemma MoveUpRows(b: seq<bv8>, rowBytes: nat, rows: nat, value: nat, fill: bv8, y: nat, c: nat)
    requires |b| == rowBytes * rows && value <= rows && y < rows && c < rowBytes
    ensures Index(rowBytes, y, c) < |b|
    ensures var r := MoveUpBytes(b, rowBytes, rows, value, fill);
      && (y + value < rows ==> Index(rowBytes, y + value, c) < |b| && r[Index(rowBytes, y, c)] == b[Index(rowBytes, y + value, c)])
      && (y + value >= rows ==> r[Index(rowBytes, y, c)] == fill)
  {
    MulLe(rowBytes, value, rows);
    IndexInBuffer(rowBytes, rows, y, c);
    var n := |b| - rowBytes * value;
    assert n == rowBytes * (rows - value);
    if y + value < rows {
      IndexInBuffer(rowBytes, rows, y + value, c);
      assert Index(rowBytes, y + value, c) == rowBytes * value + Index(rowBytes, y, c);
      IndexInBuffer(rowBytes, rows - value, y, c);
    } else {
      MulLe(rowBytes, rows - value, y);
      assert Index(rowBytes, y, c) >= n;
    }
  }

  // ---- the buffer --------------------------------------------------------------

  class FrameBuffer {
    const bytes: array<bv8>
    const ppsl: nat
    const hres: nat
    const vres: nat
    const format: PixelFormat

    function Config(): FrameBufferConfig
    {
      FrameBufferConfig(ppsl, hres, vres, format)
    }

    ghost predicate Valid()
    {
      ConfigOk(Config()) && bytes.Length == BufferLength(Config(), false)
    }

    /**
     * `FrameBuffer::new` (length corrected): a zero-filled buffer of its
     * own when the configuration carries no memory, otherwise the memory
     * given. It panics for a format without a pixel size.
     */
    constructor (config: FrameBufferConfig, mem: Option<array<bv8>>)
      requires ConfigOk(config)
      requires mem.Some? ==> mem.value.Length == BufferLength(config, false)
      ensures Valid() && Config() == config
      ensures mem.None? ==> fresh(bytes) && forall i :: 0 <= i < bytes.Length ==> bytes[i] == 0
      ensures mem.Some? ==> bytes == mem.value
    {
      ppsl, hres, vres, format := config.pixelsPerScanLine, config.horizontalResolution,
                                  config.verticalResolution, config.pixelFormat;
      if mem.None? {
        bytes := new bv8[BufferLength(config, false)](_ => 0);
      } else {
        bytes := mem.value;
      }
    }

    /** `write`: ignored outside the resolution, else `write_rgb_` or `write_bgr_`. */
    method Write(x: nat, y: nat, c: PixelColor)
      requires Valid()
      modifies bytes
      ensures var visible := x < hres && y < vres;
        && (!visible ==> bytes[..] == old(bytes[..]))
        && (visible ==> bytes[..] == Writer.WritePixel(old(bytes[..]), ppsl, vres, x, y, Writer.Encode(format, c.r, c.g, c.b)))
    {
      if x >= hres || y >= vres {
        return;
      }
      var off := Writer.PixelAt(ppsl, x, y);
      Writer.PixelInBounds(ppsl, vres, x, y);
      var s := Writer.Encode(format, c.r, c.g, c.b);
      bytes[off] := s[0];
      bytes[off + 1] := s[1];
      bytes[off + 2] := s[2];
      assert bytes[..] == Writer.Store(old(bytes[..]), off, s);
    }

    /**
     * `copy(pos_x, pos_y, src)` with the corrected geometry: the rows of
     * the clip, one `copy_nonoverlapping` each. It panics when the two
     * formats differ.
     */
    method Copy(posX: int, posY: int, src: FrameBuffer)
      requires Valid() && src.Valid() && src.format == format && src.bytes != bytes
      modifies bytes
      ensures bytes[..] == CopyResult(Config(), src.Config(), posX, posY, old(bytes[..]), src.bytes[..])
    {
      var g := CopyGeometry(Config(), src.Config(), posX, posY, false).value;
      CorrectedRowsFitAll(Config(), src.Config(), posX, posY);
      CopyRowsInto(bytes, src.bytes, g);
    }

    /**
     * `move_up(value, fill)`: the memmove of rows `value..` to the top,
     * then the fill of the last `value` rows. Both slice indexings panic
     * unless 0 < value < vres.
     */
    method MoveUp(value: nat, fill: bv8)
      requires Valid() && 0 < value < vres && ppsl > 0
      modifies bytes
      ensures bytes[..] == MoveUpBytes(old(bytes[..]), BYTES_PER_PIXEL * ppsl, vres, value, fill)
    {
      var rowBytes := BYTES_PER_PIXEL * ppsl;
      MulLe(rowBytes, value, vres);
      var shift := rowBytes * value;
      var n := bytes.Length - shift;
      ghost var b0 := bytes[..];
      ShiftBytes(bytes, shift);
      ghost var b1 := bytes[..];
      FillTail(bytes, n, fill);
      assert b1[..n] == b0[shift..];
      assert bytes[..] == b1[..n] + seq(shift, _ => fill);
    }

  }

  /** The destination bytes after the corrected `copy` of `s` into `d`. */
  function CopyResult(dst: FrameBufferConfig, src: FrameBufferConfig, posX: int, posY: int, d: seq<bv8>, s: seq<bv8>): (r: seq<bv8>)
    requires ConfigOk(dst) && ConfigOk(src)
    requires |d| == BufferLength(dst, false) && |s| == BufferLength(src, false)
    ensures |r| == |d|
  {
    CorrectedRowsFitAll(dst, src, posX, posY);
    var g := CopyGeometry(dst, src, posX, posY, false).value;
    CopyRows(d, s, g, g.rows)
  }

  lemma CorrectedRowsFitAll(dst: FrameBufferConfig, src: FrameBufferConfig, posX: int, posY: int)
    requires ConfigOk(dst) && ConfigOk(src)
    ensures var g := CopyGeometry(dst, src, posX, posY, false).value;
      forall k :: 0 <= k < g.rows ==> RowFits(g, k, BufferLength(dst, false), BufferLength(src, false))
  {
    var g := CopyGeometry(dst, src, posX, posY, false).value;
    forall k | 0 <= k < g.rows
      ensures RowFits(g, k, BufferLength(dst, false), BufferLength(src, false))
    {
      CorrectedRowsFit(dst, src, posX, posY, k);
    }
  }

  lemma NextRow(g: Geometry, k: nat)
    ensures DstRow(g, k + 1) == DstRow(g, k) + g.dstStride && SrcRow(g, k + 1) == SrcRow(g, k) + g.srcStride
  {
    assert (k + 1) * g.dstStride == k * g.dstStride + g.dstStride;
    assert (k + 1) * g.srcStride == k * g.srcStride + g.srcStride;
  }

  /** The loop of `copy`: one `copy_nonoverlapping` per row, both addresses advancing by their strides. */
  method CopyRowsInto(dst: array<bv8>, src: array<bv8>, g: Geometry)
    requires dst != src
    requires forall k :: 0 <= k < g.rows ==> RowFits(g, k, dst.Length, src.Length)
    modifies dst
    ensures dst[..] == CopyRows(old(dst[..]), src[..], g, g.rows)
  {
    var dstAddr := g.dstStart;
    var srcAddr := g.srcStart;
    for k := 0 to g.rows
      invariant dstAddr == DstRow(g, k) && srcAddr == SrcRow(g, k)
      invariant dst[..] == CopyRows(old(dst[..]), src[..], g, k)
    {
      CopyRow(dst, dstAddr, src, srcAddr, g, k, old(dst[..]));
      NextRow(g, k);
      dstAddr := dstAddr + g.dstStride;
      srcAddr := srcAddr + g.srcStride;
    }
  }

  /** Row `k` of the copy, from `src` at `srcAddr` to `dst` at `dstAddr`. */
  method CopyRow(dst: array<bv8>, dstAddr: nat, src: array<bv8>, srcAddr: nat, g: Geometry, k: nat, ghost d0: seq<bv8>)
    requires dst != src && |d0| == dst.Length && k < g.rows
    requires forall k :: 0 <= k < g.rows ==> RowFits(g, k, dst.Length, src.Length)
    requires dstAddr == DstRow(g, k) && srcAddr == SrcRow(g, k)
    requires dst[..] == CopyRows(d0, src[..], g, k)
    modifies dst
    ensures dst[..] == CopyRows(d0, src[..], g, k + 1)
  {
    assert RowFits(g, k, dst.Length, src.Length);
    CopyNonoverlapping(dst, dstAddr, src, srcAddr, g.perCopy);
  }

  /** `copy_nonoverlapping` of `n` bytes between two distinct buffers. */
  method CopyNonoverlapping(dst: array<bv8>, dstOff: nat, src: array<bv8>, srcOff: nat, n: nat)
    requires dst != src && dstOff + n <= dst.Length && srcOff + n <= src.Length
    modifies dst
    ensures dst[..] == Splice(old(dst[..]), dstOff, src[srcOff..srcOff + n])
  {
    for i := 0 to n
      invariant forall j :: 0 <= j < dst.Length && !(dstOff <= j < dstOff + i) ==> dst[j] == old(dst[j])
      invariant forall j :: dstOff <= j < dstOff + i ==> dst[j] == src[srcOff + (j - dstOff)]
    {
      dst[dstOff + i] := src[srcOff + i];
    }
    assert dst[..] == Splice(old(dst[..]), dstOff, src[srcOff..srcOff + n]);
  }

  /** The first loop of `move_up`: byte `i` takes byte `i + shift`, for every `i` that has one. */
  method ShiftBytes(b: array<bv8>, shift: nat)
    requires shift <= b.Length
    modifies b
    ensures forall j :: 0 <= j < b.Length - shift ==> b[j] == old(b[j + shift])
    ensures forall j :: b.Length - shift <= j < b.Length ==> b[j] == old(b[j])
  {
    for i := 0 to b.Length - shift
      invariant forall j :: 0 <= j < i ==> b[j] == old(b[j + shift])
      invariant forall j :: i <= j < b.Length ==> b[j] == old(b[j])
    {
      b[i] := b[i + shift];
    }
  }

  /** The second loop of `move_up`: the bytes from `n` on become `fill`. */
  method FillTail(b: array<bv8>, n: nat, fill: bv8)
    requires n <= b.Length
    modifies b
    ensures b[..] == old(b[..n]) + seq(b.Length - n, _ => fill)
  {
    for i := n to b.Length
      invariant forall j :: 0 <= j < n ==> b[j] == old(b[j])
      invariant forall j :: n <= j < i ==> b[j] == fill
    {
      b[i] := fill;
    }
    assert b[..] == old(b[..n]) + seq(b.Length - n, _ => fill);
  }
}
