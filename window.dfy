// kernel/src/window.rs: windows and the window manager. A window keeps its
// pixels twice: `data`, a grid of colours indexed [y][x], and a shadow
// frame buffer of the same size in the screen's pixel format, which the
// compositor copies to the screen. Every drawing operation goes through
// `write`, which updates both; the model keeps as an invariant that the
// shadow buffer shows exactly the colours of `data`.
//
// The manager's `windows` and `stack` hold shared handles (`Arc<Mutex<_>>`)
// in the source; here they are sequences of object references, and the
// lock is not modelled.

module Window {
  import opened Common
  import Math
  import Writer
  import Graphics
  import Font
  import Allocator

  type Grid = seq<seq<Graphics.PixelColor>>

  /** The colour `Window::new` fills a window with: opaque black. */
  const OPAQUE_BLACK := Graphics.PixelColor(0, 0, 0, 255)

  /** A grid of `height` rows of `width` pixels. */
  predicate Shaped(d: Grid, width: nat, height: nat)
  {
    |d| == height && forall j :: 0 <= j < |d| ==> |d[j]| == width
  }

  /** The colour a pixel colour gives the pixel writer (alpha is not stored). */
  function WriterColor(c: Graphics.PixelColor): Writer.PixelColor
  {
    Writer.PixelColor(c.r, c.g, c.b)
  }

  /**
   * The shadow buffer's bytes show the grid: every pixel decodes to the
   * red, green and blue of the grid's colour at the same place.
   */
  ghost predicate Mirrors(config: FrameBufferConfig, bytes: seq<bv8>, d: Grid)
  {
    && Writer.Screen(config, bytes)
    && config.pixelsPerScanLine == config.horizontalResolution
    && Shaped(d, config.horizontalResolution, config.verticalResolution)
    && forall py: nat, px: nat {:trigger d[py][px]} :: py < |d| && px < |d[py]| ==>
         Font.Shown(config, bytes, px, py) == Font.Rgb(WriterColor(d[py][px]))
  }

  /** A fresh shadow buffer is zero-filled, which both formats show as black. */
  lemma ZeroBufferMirrorsBlack(config: FrameBufferConfig, bytes: seq<bv8>, d: Grid)
    requires Writer.Screen(config, bytes) && config.pixelsPerScanLine == config.horizontalResolution
    requires forall i :: 0 <= i < |bytes| ==> bytes[i] == 0
    requires Shaped(d, config.horizontalResolution, config.verticalResolution)
    requires forall j, i :: 0 <= j < |d| && 0 <= i < |d[j]| ==> d[j][i] == OPAQUE_BLACK
    ensures Mirrors(config, bytes, d)
  {
    forall py: nat, px: nat | py < |d| && px < |d[py]|
      ensures Font.Shown(config, bytes, px, py) == Font.Rgb(WriterColor(d[py][px]))
    {
      var b := Font.PixelBytes(config, bytes, px, py);
      Writer.PixelInBounds(config.pixelsPerScanLine, config.verticalResolution, px, py);
      assert b[0] == 0 && b[1] == 0 && b[2] == 0;
    }
  }

  /**
   * One `write` keeps the shadow buffer showing the grid: the written pixel
   * reads back as its colour and every other pixel keeps its bytes.
   */
  lemma WriteKeepsMirror(config: FrameBufferConfig, bytes: seq<bv8>, d: Grid, x: nat, y: nat, c: Graphics.PixelColor)
    requires Mirrors(config, bytes, d) && y < |d| && x < |d[y]|
    ensures Mirrors(config, Font.Apply(config, bytes, Font.PixelWrite(x, y, WriterColor(c))), d[y := d[y][x := c]])
  {
    var w := Font.PixelWrite(x, y, WriterColor(c));
    var bytes' := Font.Apply(config, bytes, w);
    var d' := d[y := d[y][x := c]];
    forall py: nat, px: nat | py < |d'| && px < |d'[py]|
      ensures Font.Shown(config, bytes', px, py) == Font.Rgb(WriterColor(d'[py][px]))
    {
      if (px, py) == (x, y) {
        Font.ApplyHere(config, bytes, w);
      } else {
        Font.ApplyElsewhere(config, bytes, w, px, py);
        assert d'[py][px] == d[py][px];
      }
    }
  }

  // ---- write_ascii: the pixels of a glyph ------------------------------------------

  /**
   * Pixel (px, py) is among the first `n` cells of the glyph box at (x, y)
   * and its glyph bit is set; only printable bytes are drawn.
   */
  predicate GlyphCovers(x: nat, y: nat, c: bv8, fonts: seq<seq<bv8>>, n: nat, px: nat, py: nat)
    requires Font.FontOk(fonts)
  {
    && Font.Printable(c)
    && x <= px < x + 8 && y <= py < y + 16
    && (py - y) * 8 + (px - x) < n
    && (Font.GlyphBit(fonts[c][py - y], px - x))
  }

  /** The grid after the first `n` cells of `write_ascii(x, y, c, color)`. */
  function GlyphGrid(d: Grid, x: nat, y: nat, c: bv8, color: Graphics.PixelColor, fonts: seq<seq<bv8>>, n: nat): (g: Grid)
    requires Font.FontOk(fonts)
    ensures |g| == |d| && forall j :: 0 <= j < |d| ==> |g[j]| == |d[j]|
  {
    seq(|d|, j requires 0 <= j < |d| =>
      seq(|d[j]|, i requires 0 <= i < |d[j]| =>
        if GlyphCovers(x, y, c, fonts, n, i, j) then color else d[j][i]))
  }

  /**
   * `write_ascii` paints exactly the pixels that `TextWriter::write_ascii`
   * paints when it has no background colour.
   */
  lemma GlyphCoversAsText(x: nat, y: nat, c: bv8, color: Writer.PixelColor, fonts: seq<seq<bv8>>, px: nat, py: nat)
    requires Font.FontOk(fonts)
    ensures GlyphCovers(x, y, c, fonts, 128, px, py)
        <==> Font.Printable(c) && Font.Painted(x, y, c, color, None, fonts, 128, px, py)
  {
    if x <= px < x + 8 && y <= py < y + 16 {
      Font.BoxCellsBelow(x, y, px, py);
    }
  }

  /** Drawing the same glyph twice is drawing it once. */
  lemma GlyphGridIdempotent(d: Grid, x: nat, y: nat, c: bv8, color: Graphics.PixelColor, fonts: seq<seq<bv8>>)
    requires Font.FontOk(fonts)
    ensures var g := GlyphGrid(d, x, y, c, color, fonts, 128);
      GlyphGrid(g, x, y, c, color, fonts, 128) == g
  {
    var g := GlyphGrid(d, x, y, c, color, fonts, 128);
    var g2 := GlyphGrid(g, x, y, c, color, fonts, 128);
    forall j | 0 <= j < |g| ensures g2[j] == g[j] {
    }
  }

  /** A byte that is not printable, a newline among them, leaves the grid alone. */
  lemma GlyphGridUnprintable(d: Grid, x: nat, y: nat, c: bv8, color: Graphics.PixelColor, fonts: seq<seq<bv8>>)
    requires Font.FontOk(fonts) && !Font.Printable(c)
    ensures GlyphGrid(d, x, y, c, color, fonts, 128) == d
  {
    var g := GlyphGrid(d, x, y, c, color, fonts, 128);
    forall j | 0 <= j < |d| ensures g[j] == d[j] {
    }
  }

  /** The glyph grid before any cell is the grid itself. */
  lemma GlyphGridNone(d: Grid, x: nat, y: nat, c: bv8, color: Graphics.PixelColor, fonts: seq<seq<bv8>>)
    requires Font.FontOk(fonts)
    ensures GlyphGrid(d, x, y, c, color, fonts, 0) == d
  {
    var g := GlyphGrid(d, x, y, c, color, fonts, 0);
    forall j | 0 <= j < |d| ensures g[j] == d[j] {
    }
  }

  /**
   * Cell (dx, dy) of the loops: when its bit is set and it lies inside the
   * window, the grid gains that one pixel; otherwise nothing changes.
   */
  lemma GlyphGridStep(d: Grid, width: nat, height: nat, x: nat, y: nat, c: bv8, color: Graphics.PixelColor,
                      fonts: seq<seq<bv8>>, dy: nat, dx: nat)
    requires Shaped(d, width, height) && Font.FontOk(fonts) && Font.Printable(c) && dy < 16 && dx < 8
    ensures var g := GlyphGrid(d, x, y, c, color, fonts, dy * 8 + dx);
      var g' := GlyphGrid(d, x, y, c, color, fonts, dy * 8 + dx + 1);
      && (assert fonts[c as int] in fonts;
          Font.GlyphBit(fonts[c][dy], dx) && x + dx < width && y + dy < height ==> g' == g[y + dy := g[y + dy][x + dx := color]])
      && (!(Font.GlyphBit(fonts[c][dy], dx) && x + dx < width && y + dy < height) ==> g' == g)
  {
    var k := dy * 8 + dx;
    forall j, i | 0 <= j < |d| && 0 <= i < |d[j]|
      ensures GlyphCovers(x, y, c, fonts, k + 1, i, j)
          <==> GlyphCovers(x, y, c, fonts, k, i, j) || ((i, j) == (x + dx, y + dy) && Font.GlyphBit(fonts[c][dy], dx))
    {
      Font.CellPosition(x, y, i, j, k);
      Allocator.DivModUnique(k, 8, dy, dx);
    }
    if Font.GlyphBit(fonts[c][dy], dx) && x + dx < width && y + dy < height {
      GlyphGridGains(d, width, height, x, y, c, color, fonts, dy, dx);
    } else {
      GlyphGridKeeps(d, width, height, x, y, c, color, fonts, dy, dx);
    }
  }

  /** `GlyphGridStep` for a set bit inside the window: one more pixel. */
  lemma GlyphGridGains(d: Grid, width: nat, height: nat, x: nat, y: nat, c: bv8, color: Graphics.PixelColor,
                       fonts: seq<seq<bv8>>, dy: nat, dx: nat)
    requires Shaped(d, width, height) && Font.FontOk(fonts) && dy < 16 && dx < 8
    requires x + dx < width && y + dy < height
    requires forall j, i :: 0 <= j < |d| && 0 <= i < |d[j]| ==>
      (GlyphCovers(x, y, c, fonts, dy * 8 + dx + 1, i, j) <==> GlyphCovers(x, y, c, fonts, dy * 8 + dx, i, j) || (i, j) == (x + dx, y + dy))
    ensures var g := GlyphGrid(d, x, y, c, color, fonts, dy * 8 + dx);
      GlyphGrid(d, x, y, c, color, fonts, dy * 8 + dx + 1) == g[y + dy := g[y + dy][x + dx := color]]
  {
    var g := GlyphGrid(d, x, y, c, color, fonts, dy * 8 + dx);
    var g' := GlyphGrid(d, x, y, c, color, fonts, dy * 8 + dx + 1);
    var h := g[y + dy := g[y + dy][x + dx := color]];
    forall j | 0 <= j < |d| ensures g'[j] == h[j] {
      forall i | 0 <= i < |d[j]| ensures g'[j][i] == h[j][i] {
        assert GlyphCovers(x, y, c, fonts, dy * 8 + dx + 1, i, j)
          <==> GlyphCovers(x, y, c, fonts, dy * 8 + dx, i, j) || (i, j) == (x + dx, y + dy);
      }
    }
  }

  /** `GlyphGridStep` for a clear bit or a pixel outside the window: nothing changes. */
  lemma GlyphGridKeeps(d: Grid, width: nat, height: nat, x: nat, y: nat, c: bv8, color: Graphics.PixelColor,
                       fonts: seq<seq<bv8>>, dy: nat, dx: nat)
    requires Shaped(d, width, height) && Font.FontOk(fonts) && dy < 16 && dx < 8
    requires !(Font.GlyphBit(fonts[c][dy], dx) && x + dx < width && y + dy < height)
    requires forall j, i :: 0 <= j < |d| && 0 <= i < |d[j]| ==>
      (GlyphCovers(x, y, c, fonts, dy * 8 + dx + 1, i, j) <==>
         GlyphCovers(x, y, c, fonts, dy * 8 + dx, i, j) || ((i, j) == (x + dx, y + dy) && Font.GlyphBit(fonts[c][dy], dx)))
    ensures GlyphGrid(d, x, y, c, color, fonts, dy * 8 + dx + 1) == GlyphGrid(d, x, y, c, color, fonts, dy * 8 + dx)
  {
    var g := GlyphGrid(d, x, y, c, color, fonts, dy * 8 + dx);
    var g' := GlyphGrid(d, x, y, c, color, fonts, dy * 8 + dx + 1);
    forall j | 0 <= j < |d| ensures g'[j] == g[j] {
    }
  }

  // ---- write_string ------------------------------------------------------------------

  /**
   * The grid after `write_string(s, color, startX, startY)`: each byte's
   * glyph at the position the loop has reached before it (see
   * `Font.CursorAfter`: a newline goes back to `startX` and 16 pixels down,
   * any other byte 8 pixels right).
   */
  function StringGrid(d: Grid, s: seq<bv8>, color: Graphics.PixelColor, startX: nat, startY: nat,
                      fonts: seq<seq<bv8>>): (g: Grid)
    requires Font.FontOk(fonts)
    ensures |g| == |d| && forall j :: 0 <= j < |d| ==> |g[j]| == |d[j]|
  {
    if s == [] then d
    else
      var at := Font.CursorAfter(startX, Font.Cursor(startX, startY), s[..|s| - 1]);
      GlyphGrid(StringGrid(d, s[..|s| - 1], color, startX, startY, fonts), at.x, at.y, s[|s| - 1], color, fonts, 128)
  }

  /** Text without printable bytes changes nothing. */
  lemma {:induction false} StringGridUnprintable(d: Grid, s: seq<bv8>, color: Graphics.PixelColor, startX: nat, startY: nat,
                                                 fonts: seq<seq<bv8>>)
    requires Font.FontOk(fonts)
    requires forall i :: 0 <= i < |s| ==> !Font.Printable(s[i])
    ensures StringGrid(d, s, color, startX, startY, fonts) == d
  {
    if s != [] {
      StringGridUnprintable(d, s[..|s| - 1], color, startX, startY, fonts);
      var at := Font.CursorAfter(startX, Font.Cursor(startX, startY), s[..|s| - 1]);
      GlyphGridUnprintable(d, at.x, at.y, s[|s| - 1], color, fonts);
    }
  }

  // ---- draw_rect ---------------------------------------------------------------------

  /**
   * Pixel (px, py) lies in the rectangle and the loops of `draw_rect` have
   * reached it: a row before `rows`, or row `rows` at a column before `cols`.
   */
  predicate RectCovers(r: Math.Rectangle, rows: int, cols: int, px: int, py: int)
  {
    && r.pos.x <= px < r.pos.x + r.size.x
    && r.pos.y <= py < r.pos.y + r.size.y
    && (py < r.pos.y + rows || (py == r.pos.y + rows && px < r.pos.x + cols))
  }

  /** The grid after `draw_rect`'s loops have reached row `rows`, column `cols`. */
  function RectGrid(d: Grid, r: Math.Rectangle, color: Graphics.PixelColor, rows: int, cols: int): (g: Grid)
    ensures |g| == |d| && forall j :: 0 <= j < |d| ==> |g[j]| == |d[j]|
  {
    seq(|d|, j requires 0 <= j < |d| =>
      seq(|d[j]|, i requires 0 <= i < |d[j]| =>
        if RectCovers(r, rows, cols, i, j) then color else d[j][i]))
  }

  /** After all its rows, `draw_rect` has painted exactly the pixels the rectangle contains. */
  lemma RectGridIsContain(d: Grid, r: Math.Rectangle, color: Graphics.PixelColor, j: nat, i: nat)
    requires j < |d| && i < |d[j]|
    ensures RectGrid(d, r, color, r.size.y, 0)[j][i]
         == if Math.Contain(r, Math.Vector2D(i, j)) then color else d[j][i]
  {
  }

  /** Column `cols` of row `rows`: the grid gains that pixel when it is inside the window. */
  lemma RectGridStep(d: Grid, width: nat, height: nat, r: Math.Rectangle, color: Graphics.PixelColor, rows: int, cols: int)
    requires Shaped(d, width, height)
    requires 0 <= rows < r.size.y && 0 <= cols < r.size.x
    requires 0 <= r.pos.x + cols < width && 0 <= r.pos.y + rows < height
    ensures var g := RectGrid(d, r, color, rows, cols);
      var py, px := r.pos.y + rows, r.pos.x + cols;
      RectGrid(d, r, color, rows, cols + 1) == g[py := g[py][px := color]]
  {
    var g := RectGrid(d, r, color, rows, cols);
    var py, px := r.pos.y + rows, r.pos.x + cols;
    var h := g[py := g[py][px := color]];
    var g' := RectGrid(d, r, color, rows, cols + 1);
    forall j | 0 <= j < |d| ensures g'[j] == h[j] {
    }
  }

  /** A finished row is the start of the next. */
  lemma RectGridNextRow(d: Grid, r: Math.Rectangle, color: Graphics.PixelColor, rows: int)
    ensures RectGrid(d, r, color, rows, r.size.x) == RectGrid(d, r, color, rows + 1, 0)
  {
    var g := RectGrid(d, r, color, rows, r.size.x);
    var g' := RectGrid(d, r, color, rows + 1, 0);
    forall j | 0 <= j < |d| ensures g[j] == g'[j] {
    }
  }

  /** Before the first row nothing is painted. */
  lemma RectGridNone(d: Grid, r: Math.Rectangle, color: Graphics.PixelColor)
    ensures RectGrid(d, r, color, 0, 0) == d
  {
    var g := RectGrid(d, r, color, 0, 0);
    forall j | 0 <= j < |d| ensures g[j] == d[j] {
    }
  }

  /** `draw_rect` only writes inside the window: a non-empty rectangle must lie within it. */
  predicate RectInside(r: Math.Rectangle, width: nat, height: nat)
  {
    r.size.x > 0 && r.size.y > 0 ==>
      0 <= r.pos.x && r.pos.x + r.size.x <= width && 0 <= r.pos.y && r.pos.y + r.size.y <= height
  }

  /** A rectangle with no rows or no columns paints nothing. */
  lemma RectGridEmpty(d: Grid, r: Math.Rectangle, color: Graphics.PixelColor)
    requires r.size.x <= 0 || r.size.y <= 0
    ensures RectGrid(d, r, color, r.size.y, 0) == d
  {
    var g := RectGrid(d, r, color, r.size.y, 0);
    forall j | 0 <= j < |d| ensures g[j] == d[j] {
    }
  }

  // ---- windows -----------------------------------------------------------------------

  /** The `NEXT_ID` counter of `Window::new`; `fetch_add(1)` hands out its value and bumps it. */
  class IdCounter {
    var next: nat

    constructor ()
      ensures next == 0
    {
      next := 0;
    }

    method FetchAdd() returns (id: nat)
      modifies this
      ensures id == old(next) && next == old(next) + 1
    {
      id := next;
      next := next + 1;
    }
  }

  /** `Window`: its pixels, the alpha flag, its id, its place on the screen and its shadow buffer. */
  class Window {
    var data: Grid
    var useAlpha: bool
    const id: nat
    var area: Math.Rectangle
    const shadow: Graphics.FrameBuffer

    /** The shadow buffer is `width` by `height` with `ppsl == width`, and it shows `data`. */
    ghost predicate Valid()
      reads this, shadow, shadow.bytes
    {
      shadow.Valid() && Mirrors(shadow.Config(), shadow.bytes[..], data)
    }

    /**
     * `Window::new`: `height` rows of `width` opaque black pixels, the next
     * id, the area at (posX, posY) of the window's size, and a zero-filled
     * shadow buffer in the screen's format (which `FrameBuffer::new`
     * requires to have a pixel size).
     */
    constructor (width: nat, height: nat, useAlpha: bool, posX: int, posY: int, fmt: PixelFormat, counter: IdCounter)
      requires Writer.Supported(fmt)
      modifies counter
      ensures Valid() && fresh(shadow) && fresh(shadow.bytes)
      ensures Shaped(data, width, height)
      ensures forall j, i :: 0 <= j < |data| && 0 <= i < |data[j]| ==> data[j][i] == OPAQUE_BLACK
      ensures this.useAlpha == useAlpha
      ensures id == old(counter.next) && counter.next == old(counter.next) + 1
      ensures area == Math.Rectangle(Math.Vector2D(posX, posY), Math.Vector2D(width, height))
      ensures shadow.Config() == FrameBufferConfig(width, width, height, fmt)
    {
      var config := FrameBufferConfig(width, width, height, fmt);
      var next := counter.FetchAdd();
      data := seq(height, _ => seq(width, _ => OPAQUE_BLACK));
      this.useAlpha := useAlpha;
      id := next;
      area := Math.Rectangle(Math.Vector2D(posX, posY), Math.Vector2D(width, height));
      shadow := new Graphics.FrameBuffer(config, None);
      new;
      ZeroBufferMirrorsBlack(config, shadow.bytes[..], data);
    }

    /** The shadow buffer's width: the window's width. */
    function Width(): nat
      reads this
    {
      shadow.hres
    }

    /** The shadow buffer's height: the window's height. */
    function Height(): nat
      reads this
    {
      shadow.vres
    }

    /**
     * `write`: pixel (x, y) of `data` and of the shadow buffer takes the
     * colour; indexing `data` outside the window panics.
     */
    method Write(x: nat, y: nat, c: Graphics.PixelColor)
      requires Valid() && y < |data| && x < |data[y]|
      modifies this, shadow.bytes
      ensures Valid()
      ensures data == old(data)[y := old(data)[y][x := c]]
      ensures shadow.bytes[..] == Font.Apply(shadow.Config(), old(shadow.bytes[..]), Font.PixelWrite(x, y, WriterColor(c)))
      ensures area == old(area) && useAlpha == old(useAlpha)
    {
      WriteKeepsMirror(shadow.Config(), shadow.bytes[..], data, x, y, c);
      data := data[y := data[y][x := c]];
      shadow.Write(x, y, c);
    }

    /** `move_to`: the area moves to (posX, posY) and keeps its size; the old area is returned. */
    method MoveTo(posX: int, posY: int) returns (oldArea: Math.Rectangle)
      modifies this
      ensures oldArea == old(area)
      ensures area == Math.Rectangle(Math.Vector2D(posX, posY), old(area).size)
      ensures data == old(data) && useAlpha == old(useAlpha)
    {
      oldArea := area;
      area := Math.Rectangle(Math.Vector2D(posX, posY), area.size);
    }

    /** `move_relative`: the area moves by (diffX, diffY) and keeps its size. */
    method MoveRelative(diffX: int, diffY: int)
      modifies this
      ensures area == Math.Rectangle(Math.Add(old(area).pos, Math.Vector2D(diffX, diffY)), old(area).size)
      ensures data == old(data) && useAlpha == old(useAlpha)
    {
      area := Math.Rectangle(Math.Vector2D(area.pos.x + diffX, area.pos.y + diffY), area.size);
    }

    /**
     * `write_ascii(x, y, c, color)`: for a printable byte, the glyph's set
     * bits inside the window take the colour; nothing else changes.
     */
    method WriteAscii(x: nat, y: nat, c: bv8, color: Graphics.PixelColor, fonts: seq<seq<bv8>>)
      requires Valid() && Font.FontOk(fonts)
      modifies this, shadow.bytes
      ensures Valid()
      ensures data == GlyphGrid(old(data), x, y, c, color, fonts, 128)
      ensures area == old(area) && useAlpha == old(useAlpha)
    {
      ghost var d0 := data;
      if !Font.Printable(c) {
        GlyphGridUnprintable(d0, x, y, c, color, fonts);
        return;
      }
      GlyphGridNone(d0, x, y, c, color, fonts);
      for dy := 0 to 16
        invariant Valid() && Shaped(d0, Width(), Height())
        invariant data == GlyphGrid(d0, x, y, c, color, fonts, dy * 8)
        invariant area == old(area) && useAlpha == old(useAlpha)
      {
        GlyphRow(x, y, c, color, fonts, dy, d0);
      }
    }

    /** The inner loop of `write_ascii`: the 8 pixels of glyph row `dy`. */
    method GlyphRow(x: nat, y: nat, c: bv8, color: Graphics.PixelColor, fonts: seq<seq<bv8>>, dy: nat, ghost d0: Grid)
      requires Valid() && Font.FontOk(fonts) && Font.Printable(c) && dy < 16
      requires Shaped(d0, Width(), Height()) && data == GlyphGrid(d0, x, y, c, color, fonts, dy * 8)
      modifies this, shadow.bytes
      ensures Valid()
      ensures data == GlyphGrid(d0, x, y, c, color, fonts, (dy + 1) * 8)
      ensures area == old(area) && useAlpha == old(useAlpha)
    {
      for dx := 0 to 8
        invariant Valid()
        invariant data == GlyphGrid(d0, x, y, c, color, fonts, dy * 8 + dx)
        invariant area == old(area) && useAlpha == old(useAlpha)
      {
        GlyphCell(x, y, c, color, fonts, dy, dx, d0);
      }
    }

    /** One pass of the inner loop of `write_ascii`: pixel (x + dx, y + dy) when its glyph bit is set. */
    method GlyphCell(x: nat, y: nat, c: bv8, color: Graphics.PixelColor, fonts: seq<seq<bv8>>, dy: nat, dx: nat, ghost d0: Grid)
      requires Valid() && Font.FontOk(fonts) && Font.Printable(c) && dy < 16 && dx < 8
      requires Shaped(d0, Width(), Height()) && data == GlyphGrid(d0, x, y, c, color, fonts, dy * 8 + dx)
      modifies this, shadow.bytes
      ensures Valid()
      ensures data == GlyphGrid(d0, x, y, c, color, fonts, dy * 8 + dx + 1)
      ensures area == old(area) && useAlpha == old(useAlpha)
    {
      GlyphGridStep(d0, Width(), Height(), x, y, c, color, fonts, dy, dx);
      if Font.GlyphBit(fonts[c][dy], dx) && x + dx < Width() && y + dy < Height() {
        Write(x + dx, y + dy, color);
      }
    }

    /**
     * `write_string(s, color, startX, startY)`: each byte's glyph at the
     * position reached before it; a newline draws nothing.
     */
    method WriteString(s: seq<bv8>, color: Graphics.PixelColor, startX: nat, startY: nat, fonts: seq<seq<bv8>>)
      requires Valid() && Font.FontOk(fonts)
      modifies this, shadow.bytes
      ensures Valid()
      ensures data == StringGrid(old(data), s, color, startX, startY, fonts)
      ensures area == old(area) && useAlpha == old(useAlpha)
    {
      ghost var d0 := data;
      var posX, posY := startX, startY;
      for i := 0 to |s|
        invariant Valid()
        invariant Font.Cursor(posX, posY) == Font.CursorAfter(startX, Font.Cursor(startX, startY), s[..i])
        invariant data == StringGrid(d0, s[..i], color, startX, startY, fonts)
        invariant area == old(area) && useAlpha == old(useAlpha)
      {
        assert s[..i + 1][..i] == s[..i];
        if s[i] == Font.NEWLINE {
          GlyphGridUnprintable(data, posX, posY, s[i], color, fonts);
          posX := startX;
          posY := posY + 16;
        } else {
          WriteAscii(posX, posY, s[i], color, fonts);
          posX := posX + 8;
        }
      }
      assert s[..|s|] == s;
    }

    /**
     * `draw_rect(r, color)`: every pixel of the rectangle takes the colour,
     * row by row; a pixel outside the window would panic.
     */
    method DrawRect(r: Math.Rectangle, color: Graphics.PixelColor)
      requires Valid() && RectInside(r, Width(), Height())
      modifies this, shadow.bytes
      ensures Valid()
      ensures data == RectGrid(old(data), r, color, r.size.y, 0)
      ensures area == old(area) && useAlpha == old(useAlpha)
    {
      ghost var d0 := data;
      if r.size.x <= 0 || r.size.y <= 0 {
        RectGridEmpty(d0, r, color);
        return;
      }
      RectGridNone(d0, r, color);
      for rows := 0 to r.size.y
        invariant Valid() && Shaped(d0, Width(), Height())
        invariant data == RectGrid(d0, r, color, rows, 0)
        invariant area == old(area) && useAlpha == old(useAlpha)
      {
        RectRow(r, color, rows, d0);
      }
    }

    /** The inner loop of `draw_rect`: the pixels of row `rows`. */
    method RectRow(r: Math.Rectangle, color: Graphics.PixelColor, rows: int, ghost d0: Grid)
      requires Valid() && RectInside(r, Width(), Height()) && 0 < r.size.x && 0 <= rows < r.size.y
      requires Shaped(d0, Width(), Height()) && data == RectGrid(d0, r, color, rows, 0)
      modifies this, shadow.bytes
      ensures Valid()
      ensures data == RectGrid(d0, r, color, rows + 1, 0)
      ensures area == old(area) && useAlpha == old(useAlpha)
    {
      for cols := 0 to r.size.x
        invariant Valid()
        invariant data == RectGrid(d0, r, color, rows, cols)
        invariant area == old(area) && useAlpha == old(useAlpha)
      {
        RectGridStep(d0, Width(), Height(), r, color, rows, cols);
        Write(r.pos.x + cols, r.pos.y + rows, color);
      }
      RectGridNextRow(d0, r, color, rows);
    }
  }

  // ---- the window manager ------------------------------------------------------------

  /** The index of the first window of `ws` with id `id`, if any. */
  function FirstWithId(ws: seq<Window>, id: nat): (r: Option<nat>)
    ensures r.Some? ==> r.value < |ws| && ws[r.value].id == id && forall k :: 0 <= k < r.value ==> ws[k].id != id
    ensures r.None? ==> forall k :: 0 <= k < |ws| ==> ws[k].id != id
  {
    if ws == [] then None
    else if ws[0].id == id then Some(0)
    else
      var rest := FirstWithId(ws[1..], id);
      if rest.None? then None else Some(rest.value + 1)
  }

  /** The search `iter().filter(..).next()` of `find_window_`, `hide` and `up_down`. */
  method IndexOf(ws: seq<Window>, id: nat) returns (r: Option<nat>)
    ensures r == FirstWithId(ws, id)
  {
    var i := 0;
    while i < |ws|
      invariant 0 <= i <= |ws|
      invariant forall k :: 0 <= k < i ==> ws[k].id != id
    {
      if ws[i].id == id {
        return Some(i);
      }
      i := i + 1;
    }
    return None;
  }

  /** `Vec::remove(i)`. */
  function Remove(s: seq<Window>, i: nat): (r: seq<Window>)
    requires i < |s|
    ensures |r| == |s| - 1
    ensures forall k :: 0 <= k < i ==> r[k] == s[k]
    ensures forall k :: i <= k < |r| ==> r[k] == s[k + 1]
  {
    s[..i] + s[i + 1..]
  }

  /** `Vec::insert(i, w)`; it panics when `i` is past the end. */
  function Insert(s: seq<Window>, i: nat, w: Window): (r: seq<Window>)
    requires i <= |s|
    ensures |r| == |s| + 1 && r[i] == w
    ensures forall k :: 0 <= k < i ==> r[k] == s[k]
    ensures forall k :: i < k < |r| ==> r[k] == s[k - 1]
  {
    s[..i] + [w] + s[i..]
  }

  /** Inserting and then removing at the same place gives the sequence back. */
  lemma RemoveInsert(s: seq<Window>, i: nat, w: Window)
    requires i <= |s|
    ensures Remove(Insert(s, i, w), i) == s
  {
    var r := Remove(Insert(s, i, w), i);
    assert forall k :: 0 <= k < |s| ==> r[k] == s[k];
  }

  /** `hide(id)`: the first stacked window with that id leaves the stack; otherwise nothing happens. */
  function HideStack(stack: seq<Window>, id: nat): seq<Window>
  {
    var pos := FirstWithId(stack, id);
    if pos.Some? then Remove(stack, pos.value) else stack
  }

  /** Window ids along a sequence are strictly increasing, so no two are equal. */
  predicate IncreasingIds(ws: seq<Window>)
  {
    forall i, j :: 0 <= i < j < |ws| ==> ws[i].id < ws[j].id
  }

  /** No two windows of a sequence share an id. */
  predicate DistinctIds(ws: seq<Window>)
  {
    forall i, j :: 0 <= i < j < |ws| ==> ws[i].id != ws[j].id
  }

  /**
   * With distinct ids, a hidden window is no longer on the stack and every
   * other window keeps its place in the order.
   */
  lemma HideRemoves(stack: seq<Window>, id: nat)
    requires DistinctIds(stack)
    ensures forall k :: 0 <= k < |HideStack(stack, id)| ==> HideStack(stack, id)[k].id != id
    ensures FirstWithId(stack, id).None? <==> HideStack(stack, id) == stack
    ensures FirstWithId(stack, id).Some? ==> |HideStack(stack, id)| == |stack| - 1
  {
  }

  /**
   * Taking a window out of a stack with distinct ids keeps them distinct,
   * and no window left has the id of the one taken out.
   */
  lemma RemoveKeepsDistinct(s: seq<Window>, i: nat)
    requires DistinctIds(s) && i < |s|
    ensures DistinctIds(Remove(s, i))
    ensures forall k :: 0 <= k < |Remove(s, i)| ==> Remove(s, i)[k].id != s[i].id
  {
    var r := Remove(s, i);
    forall a, b | 0 <= a < b < |r|
      ensures r[a].id != r[b].id
    {
      var a' := if a < i then a else a + 1;
      var b' := if b < i then b else b + 1;
      assert r[a] == s[a'] && r[b] == s[b'] && a' < b';
    }
    forall k | 0 <= k < |r|
      ensures r[k].id != s[i].id
    {
      var k' := if k < i then k else k + 1;
      assert r[k] == s[k'] && k' != i;
    }
  }

  /** Putting a window whose id is not on a stack with distinct ids into it keeps the ids distinct. */
  lemma InsertKeepsDistinct(s: seq<Window>, i: nat, w: Window)
    requires DistinctIds(s) && i <= |s|
    requires forall k :: 0 <= k < |s| ==> s[k].id != w.id
    ensures DistinctIds(Insert(s, i, w))
  {
    var r := Insert(s, i, w);
    forall a, b | 0 <= a < b < |r|
      ensures r[a].id != r[b].id
    {
      if a == i {
        assert r[b] == s[b - 1];
      } else if b == i {
        assert r[a] == s[a];
      } else {
        var a' := if a < i then a else a - 1;
        var b' := if b < i then b else b - 1;
        assert r[a] == s[a'] && r[b] == s[b'] && a' < b';
      }
    }
  }

  /** `hide` keeps the ids on the stack distinct. */
  lemma HideKeepsDistinct(stack: seq<Window>, id: nat)
    requires DistinctIds(stack)
    ensures DistinctIds(HideStack(stack, id))
  {
    var pos := FirstWithId(stack, id);
    if pos.Some? {
      RemoveKeepsDistinct(stack, pos.value);
    }
  }

  function Min(a: nat, b: nat): nat { if a < b then a else b }

  /**
   * `up_down(id, newHeight)`, corrected: the height is clamped to the
   * stack's length; a window already on the stack is taken out and, when
   * the height named the end of the old stack, goes on top; it is then
   * inserted at that height.
   */
  function UpDownStack(stack: seq<Window>, w: Window, newHeight: nat): (r: seq<Window>)
  {
    var h := Min(newHeight, |stack|);
    var pos := FirstWithId(stack, w.id);
    if pos.None? then Insert(stack, h, w)
    else Insert(Remove(stack, pos.value), if h == |stack| then h - 1 else h, w)
  }

  /**
   * The corrected `up_down` takes the window out before putting it back,
   * so the ids on the stack stay distinct.
   */
  lemma UpDownKeepsDistinct(stack: seq<Window>, w: Window, newHeight: nat)
    requires DistinctIds(stack)
    ensures DistinctIds(UpDownStack(stack, w, newHeight))
  {
    var h := Min(newHeight, |stack|);
    var pos := FirstWithId(stack, w.id);
    if pos.None? {
      InsertKeepsDistinct(stack, h, w);
    } else {
      RemoveKeepsDistinct(stack, pos.value);
      InsertKeepsDistinct(Remove(stack, pos.value), if h == |stack| then h - 1 else h, w);
    }
  }

  /**
   * `up_down` as written: whenever the window was on the stack the height
   * is decremented, which underflows (a panic) at height 0; `None` stands
   * for the panic.
   */
  function UpDownStackAsWritten(stack: seq<Window>, w: Window, newHeight: nat): (r: Option<seq<Window>>)
  {
    var h := Min(newHeight, |stack|);
    var pos := FirstWithId(stack, w.id);
    if pos.None? then Some(Insert(stack, h, w))
    else if h == 0 then None
    else Some(Insert(Remove(stack, pos.value), h - 1, w))
  }

  /**
   * The corrected `up_down` puts the window at the height asked for, or on
   * top when that is past the end, and leaves the other windows in their
   * order.
   */
  lemma UpDownPlaces(stack: seq<Window>, w: Window, newHeight: nat)
    ensures var r := UpDownStack(stack, w, newHeight);
      var pos := FirstWithId(stack, w.id);
      var at := Min(newHeight, |r| - 1);
      && |r| == (if pos.Some? then |stack| else |stack| + 1)
      && r[at] == w
      && Remove(r, at) == (if pos.Some? then Remove(stack, pos.value) else stack)
  {
    var h := Min(newHeight, |stack|);
    var pos := FirstWithId(stack, w.id);
    if pos.None? {
      RemoveInsert(stack, h, w);
    } else {
      RemoveInsert(Remove(stack, pos.value), if h == |stack| then h - 1 else h, w);
    }
  }

  /**
   * As written, raising the bottom window of [w, a, b] to height 1 leaves
   * the stack as it was; the corrected version gives [a, w, b].
   */
  lemma AsWrittenUpDownOffByOne(w: Window, a: Window, b: Window)
    ensures UpDownStackAsWritten([w, a, b], w, 1) == Some([w, a, b])
    ensures UpDownStack([w, a, b], w, 1) == [a, w, b]
  {
    assert FirstWithId([w, a, b], w.id) == Some(0);
    assert Remove([w, a, b], 0) == [a, b];
    assert Insert([a, b], 0, w) == [w, a, b];
    assert Insert([a, b], 1, w) == [a, w, b];
  }

  /**
   * As written, moving a stacked window to height 0 underflows; the
   * corrected version puts it at the bottom.
   */
  lemma AsWrittenUpDownUnderflow(w: Window, a: Window)
    ensures UpDownStackAsWritten([w, a], w, 0) == None
    ensures UpDownStack([w, a], w, 0) == [w, a]
  {
    assert FirstWithId([w, a], w.id) == Some(0);
    assert Remove([w, a], 0) == [a];
    assert Insert([a], 0, w) == [w, a];
  }

  /** `WindowManager`: every window created, in order, and the drawing stack, bottom first. */
  class WindowManager {
    var windows: seq<Window>
    var stack: seq<Window>
    const format: PixelFormat
    const counter: IdCounter

    /**
     * Ids come from the counter in order, so they increase along `windows`
     * and stay below its next value; no id is on the stack twice.
     */
    ghost predicate Valid()
      reads this, counter
    {
      && Writer.Supported(format)
      && IncreasingIds(windows)
      && (forall i :: 0 <= i < |windows| ==> windows[i].id < counter.next)
      && DistinctIds(stack)
    }

    /**
     * `WindowManager::new(screen)`: no windows and an empty stack, in the
     * screen's format (whose back buffer `FrameBuffer::new` requires to
     * have a pixel size).
     */
    constructor (format: PixelFormat, counter: IdCounter)
      requires Writer.Supported(format)
      ensures Valid() && windows == [] && stack == []
      ensures this.format == format && this.counter == counter
    {
      windows, stack := [], [];
      this.format, this.counter := format, counter;
    }

    /** `new_window`: a new window in the screen's format is appended to `windows`; the stack is unchanged. */
    method NewWindow(width: nat, height: nat, useAlpha: bool, posX: int, posY: int) returns (id: nat, w: Window)
      requires Valid()
      modifies this, counter
      ensures Valid() && fresh(w) && w.Valid()
      ensures windows == old(windows) + [w] && stack == old(stack)
      ensures id == w.id && id == old(counter.next)
      ensures w.useAlpha == useAlpha && Shaped(w.data, width, height)
      ensures w.area == Math.Rectangle(Math.Vector2D(posX, posY), Math.Vector2D(width, height))
    {
      w := new Window(width, height, useAlpha, posX, posY, format, counter);
      id := w.id;
      windows := windows + [w];
    }

    /** `find_window_`: the first window with that id. */
    method FindWindow(id: nat) returns (r: Option<Window>)
      ensures var pos := FirstWithId(windows, id);
        r == if pos.Some? then Some(windows[pos.value]) else None
    {
      var pos := IndexOf(windows, id);
      if pos.Some? {
        return Some(windows[pos.value]);
      }
      return None;
    }

    /** `hide`: see `HideStack`. */
    method Hide(id: nat)
      modifies this
      ensures stack == HideStack(old(stack), id) && windows == old(windows)
      ensures old(Valid()) ==> Valid()
    {
      var pos := IndexOf(stack, id);
      if pos.Some? {
        stack := Remove(stack, pos.value);
      }
      if old(Valid()) {
        HideKeepsDistinct(old(stack), id);
      }
    }

    /**
     * `up_down` (corrected, see `UpDownStack`); it panics when no window
     * has the id.
     */
    method UpDown(id: nat, newHeight: nat)
      requires FirstWithId(windows, id).Some?
      modifies this
      ensures windows == old(windows)
      ensures stack == UpDownStack(old(stack), windows[FirstWithId(windows, id).value], newHeight)
      ensures old(Valid()) ==> Valid()
    {
      var h := newHeight;
      if h > |stack| {
        h := |stack|;
      }
      var oldPos := IndexOf(stack, id);
      if oldPos.Some? {
        if h == |stack| {
          h := h - 1;
        }
        stack := Remove(stack, oldPos.value);
      }
      var w := FindWindow(id);
      stack := Insert(stack, h, w.value);
      if old(Valid()) {
        UpDownKeepsDistinct(old(stack), w.value, newHeight);
      }
    }
  }
}
