// kernel/src/font.rs: text drawn with the 8x16 glyphs of the `FONTS`
// table through the boot-time pixel writer. The table is a parameter here
// (`ascii::FONTS`: 256 glyphs of 16 rows, one byte per row, the leftmost
// pixel in the top bit). The cursor logic of `write_` is shared with
// `Window::write_string` and stated here once.

module Font {
  import opened Common
  import Writer
  import Allocator

  const NEWLINE: bv8 := 0x0a

  /** The shape of `ascii::FONTS`. */
  predicate FontOk(fonts: seq<seq<bv8>>)
  {
    |fonts| == 256 && forall i :: 0 <= i < |fonts| ==> |fonts[i]| == 16
  }

  /** The bytes `' '..='~'` that have a glyph drawn. */
  predicate Printable(c: bv8)
  {
    0x20 <= c <= 0x7e
  }

  /**
   * Whether pixel `dx` of a glyph row is set: the row shifted left `dx`
   * times has its top bit set.
   */
  predicate GlyphBit(row: bv8, dx: nat)
    requires dx < 8
    decreases dx
  {
    if dx == 0 then row & 0x80 != 0 else GlyphBit(row << 1, dx - 1)
  }

  /** `GlyphBit` is the glyph test `(row << dx) & 0x80 != 0` of `write_ascii`. */
  lemma GlyphBitIsShift(row: bv8, dx: nat)
    requires dx < 8
    ensures GlyphBit(row, dx) <==> (row << dx) & 0x80 != 0
  {
    if dx == 0 {
    } else if dx == 1 {
    } else if dx == 2 {
    } else if dx == 3 {
    } else if dx == 4 {
    } else if dx == 5 {
    } else if dx == 6 {
    } else {
    }
  }

  /** A row's pixels, left to right, are its bits from the top one down. */
  lemma GlyphBitExamples()
    ensures GlyphBit(0x80, 0) && !GlyphBit(0x80, 1)
    ensures GlyphBit(0x01, 7) && !GlyphBit(0x01, 6)
    ensures forall dx :: 0 <= dx < 8 ==> !GlyphBit(0, dx) && GlyphBit(0xff, dx)
  {
  }

  // ---- the cursor ----------------------------------------------------------------

  datatype Cursor = Cursor(x: nat, y: nat)

  /**
   * The cursor after one byte of `write_`: a newline goes back to the
   * initial column and 16 pixels down, any other byte (drawn or not)
   * 8 pixels right.
   */
  function Advance(initialX: nat, cur: Cursor, c: bv8): Cursor
  {
    if c == NEWLINE then Cursor(initialX, cur.y + 16) else Cursor(cur.x + 8, cur.y)
  }

  /** The cursor after the bytes of `s`, one `Advance` each. */
  function CursorAfter(initialX: nat, start: Cursor, s: seq<bv8>): Cursor
  {
    if s == [] then start else Advance(initialX, CursorAfter(initialX, start, s[..|s| - 1]), s[|s| - 1])
  }

  /** The number of newlines in `s`. */
  function Lines(s: seq<bv8>): nat
  {
    if s == [] then 0 else Lines(s[..|s| - 1]) + (if s[|s| - 1] == NEWLINE then 1 else 0)
  }

  /** The number of bytes after the last newline of `s` (all of them if there is none). */
  function SinceNewline(s: seq<bv8>): nat
  {
    if s == [] then 0 else if s[|s| - 1] == NEWLINE then 0 else SinceNewline(s[..|s| - 1]) + 1
  }

  /**
   * The cursor in closed form: 16 pixels down per newline; across, 8 per
   * byte since the last newline, counted from the initial column when
   * there was a newline and from the starting column otherwise.
   */
  lemma {:induction false} CursorAfterClosedForm(initialX: nat, start: Cursor, s: seq<bv8>)
    ensures CursorAfter(initialX, start, s).y == start.y + 16 * Lines(s)
    ensures CursorAfter(initialX, start, s).x
         == (if Lines(s) > 0 then initialX else start.x) + 8 * SinceNewline(s)
  {
    if s != [] {
      CursorAfterClosedForm(initialX, start, s[..|s| - 1]);
    }
  }

  // ---- pixel writes --------------------------------------------------------------

  /** One call of `PixelWriter::write`. */
  datatype PixelWrite = PixelWrite(x: nat, y: nat, color: Writer.PixelColor)

  /** The memory after one `PixelWriter::write`. */
  function Apply(config: FrameBufferConfig, mem: seq<bv8>, w: PixelWrite): (m: seq<bv8>)
    requires Writer.Screen(config, mem)
    ensures |m| == |mem|
  {
    Writer.AfterWrite(config, mem, w.x, w.y, w.color)
  }

  /** The memory after a sequence of writes, in order. */
  function ApplyAll(config: FrameBufferConfig, mem: seq<bv8>, ws: seq<PixelWrite>): (m: seq<bv8>)
    requires Writer.Screen(config, mem)
    ensures |m| == |mem|
  {
    if ws == [] then mem else Apply(config, ApplyAll(config, mem, ws[..|ws| - 1]), ws[|ws| - 1])
  }

  lemma {:induction false} ApplyAllAppend(config: FrameBufferConfig, mem: seq<bv8>, a: seq<PixelWrite>, b: seq<PixelWrite>)
    requires Writer.Screen(config, mem)
    ensures ApplyAll(config, mem, a + b) == ApplyAll(config, ApplyAll(config, mem, a), b)
    decreases |b|
  {
    if b != [] {
      assert (a + b)[..|a + b| - 1] == a + b[..|b| - 1];
      ApplyAllAppend(config, mem, a, b[..|b| - 1]);
    } else {
      assert a + b == a;
    }
  }

  /** No write leaves the memory alone; one write is `Apply`. */
  lemma ApplyOne(config: FrameBufferConfig, mem: seq<bv8>, ws: seq<PixelWrite>)
    requires Writer.Screen(config, mem) && |ws| <= 1
    ensures ws == [] ==> ApplyAll(config, mem, ws) == mem
    ensures |ws| == 1 ==> ApplyAll(config, mem, ws) == Apply(config, mem, ws[0])
  {
    if |ws| == 1 {
      assert ws[..0] == [];
    }
  }

  /** `Cells` of equal counts, for counts the verifier sees written differently. */
  lemma CellsIndex(x: nat, y: nat, c: bv8, color: Writer.PixelColor, bg: Option<Writer.PixelColor>,
                   fonts: seq<seq<bv8>>, i: nat, j: nat)
    requires FontOk(fonts) && i == j && i <= 128
    ensures Cells(x, y, c, color, bg, fonts, i) == Cells(x, y, c, color, bg, fonts, j)
  {
  }

  /** The writes of pixels `0..dx` of glyph row `dy`. */
  function Row(x: nat, y: nat, c: bv8, color: Writer.PixelColor, bg: Option<Writer.PixelColor>,
               fonts: seq<seq<bv8>>, dy: nat, dx: nat): seq<PixelWrite>
    requires FontOk(fonts) && dx <= 8 && dy < 16
  {
    if dx == 0 then [] else Row(x, y, c, color, bg, fonts, dy, dx - 1) + CellAt(x, y, c, color, bg, fonts, dx - 1, dy)
  }

  /** The first `dx` pixels of row `dy` are cells `dy * 8 .. dy * 8 + dx` (`k` is `dy * 8 + dx`). */
  lemma {:induction false} RowIsCells(x: nat, y: nat, c: bv8, color: Writer.PixelColor, bg: Option<Writer.PixelColor>,
                                      fonts: seq<seq<bv8>>, dy: nat, dx: nat, k: nat)
    requires FontOk(fonts) && dx <= 8 && dy < 16 && k == dy * 8 + dx
    ensures Cells(x, y, c, color, bg, fonts, k) == Cells(x, y, c, color, bg, fonts, dy * 8) + Row(x, y, c, color, bg, fonts, dy, dx)
  {
    if dx == 0 {
      CellsIndex(x, y, c, color, bg, fonts, k, dy * 8);
    } else {
      var above := Cells(x, y, c, color, bg, fonts, dy * 8);
      var part := Row(x, y, c, color, bg, fonts, dy, dx - 1);
      var cell := CellAt(x, y, c, color, bg, fonts, dx - 1, dy);
      RowIsCells(x, y, c, color, bg, fonts, dy, dx - 1, k - 1);
      CellWriteAt(x, y, c, color, bg, fonts, k - 1, dx - 1, dy);
      calc {
        Cells(x, y, c, color, bg, fonts, k);
        Cells(x, y, c, color, bg, fonts, k - 1) + CellWrite(x, y, c, color, bg, fonts, k - 1);
        (above + part) + cell;
        { assert (above + part) + cell == above + (part + cell); }
        above + Row(x, y, c, color, bg, fonts, dy, dx);
      }
    }
  }

  /** Drawing pixel `dx` of row `dy` after the first `dx` has drawn the first `dx + 1`. */
  lemma RowStep(config: FrameBufferConfig, m0: seq<bv8>, before: seq<bv8>, after: seq<bv8>, x: nat, y: nat, c: bv8,
                color: Writer.PixelColor, bg: Option<Writer.PixelColor>, fonts: seq<seq<bv8>>, dy: nat, dx: nat)
    requires Writer.Screen(config, m0) && FontOk(fonts) && dx < 8 && dy < 16
    requires before == ApplyAll(config, m0, Row(x, y, c, color, bg, fonts, dy, dx))
    requires after == ApplyAll(config, before, CellAt(x, y, c, color, bg, fonts, dx, dy))
    ensures after == ApplyAll(config, m0, Row(x, y, c, color, bg, fonts, dy, dx + 1))
  {
    ApplyAllAppend(config, m0, Row(x, y, c, color, bg, fonts, dy, dx), CellAt(x, y, c, color, bg, fonts, dx, dy));
  }

  /** The writes of glyph rows `0..dy`, all 8 pixels of each. */
  function Rows(x: nat, y: nat, c: bv8, color: Writer.PixelColor, bg: Option<Writer.PixelColor>,
                fonts: seq<seq<bv8>>, dy: nat): seq<PixelWrite>
    requires FontOk(fonts) && dy <= 16
  {
    if dy == 0 then [] else Rows(x, y, c, color, bg, fonts, dy - 1) + Row(x, y, c, color, bg, fonts, dy - 1, 8)
  }

  /** The first `dy` rows are the first `k = dy * 8` cells. */
  lemma {:induction false} RowsAreCells(x: nat, y: nat, c: bv8, color: Writer.PixelColor, bg: Option<Writer.PixelColor>,
                                        fonts: seq<seq<bv8>>, dy: nat, k: nat)
    requires FontOk(fonts) && dy <= 16 && k == dy * 8
    ensures Rows(x, y, c, color, bg, fonts, dy) == Cells(x, y, c, color, bg, fonts, k)
  {
    if dy > 0 {
      RowsAreCells(x, y, c, color, bg, fonts, dy - 1, k - 8);
      RowIsCells(x, y, c, color, bg, fonts, dy - 1, 8, k);
    }
  }

  /** A whole row drawn after the rows above it: the rows up to the next one. */
  lemma RowDone(config: FrameBufferConfig, m0: seq<bv8>, mr: seq<bv8>, after: seq<bv8>, x: nat, y: nat, c: bv8,
                color: Writer.PixelColor, bg: Option<Writer.PixelColor>, fonts: seq<seq<bv8>>, dy: nat)
    requires Writer.Screen(config, m0) && FontOk(fonts) && dy < 16
    requires mr == ApplyAll(config, m0, Rows(x, y, c, color, bg, fonts, dy))
    requires after == ApplyAll(config, mr, Row(x, y, c, color, bg, fonts, dy, 8))
    ensures after == ApplyAll(config, m0, Rows(x, y, c, color, bg, fonts, dy + 1))
  {
    ApplyAllAppend(config, m0, Rows(x, y, c, color, bg, fonts, dy), Row(x, y, c, color, bg, fonts, dy, 8));
  }

  /** One visible-or-not pixel write is `ApplyAll` of that write. */
  lemma WrittenCell(config: FrameBufferConfig, before: seq<bv8>, after: seq<bv8>, w: PixelWrite)
    requires Writer.Screen(config, before)
    requires after == Writer.AfterWrite(config, before, w.x, w.y, w.color)
    ensures after == ApplyAll(config, before, [w])
  {
    ApplyOne(config, before, [w]);
  }

  /** Cell `k` of a glyph box: row `k / 8`, column `k % 8`. */
  function CellX(x: nat, k: nat): nat { x + k % 8 }
  function CellY(y: nat, k: nat): nat { y + k / 8 }

  /**
   * The colour `write_ascii` gives pixel (dx, dy) of a glyph box: the
   * foreground for a set glyph bit; for a clear one the background when
   * there is one, otherwise none.
   */
  function CellColor(c: bv8, color: Writer.PixelColor, bg: Option<Writer.PixelColor>,
                     fonts: seq<seq<bv8>>, dx: nat, dy: nat): Option<Writer.PixelColor>
    requires FontOk(fonts) && dx < 8 && dy < 16
  {
    if GlyphBit(fonts[c][dy], dx) then Some(color) else bg
  }

  /** The write, if any, for cell `k` of `write_ascii`'s loops. */
  function CellWrite(x: nat, y: nat, c: bv8, color: Writer.PixelColor, bg: Option<Writer.PixelColor>,
                     fonts: seq<seq<bv8>>, k: nat): (ws: seq<PixelWrite>)
    requires FontOk(fonts) && k < 128
    ensures |ws| <= 1
  {
    var cc := CellColor(c, color, bg, fonts, k % 8, k / 8);
    if cc.Some? then [PixelWrite(CellX(x, k), CellY(y, k), cc.value)] else []
  }

  /** The write, if any, for pixel (dx, dy) of the glyph box. */
  function CellAt(x: nat, y: nat, c: bv8, color: Writer.PixelColor, bg: Option<Writer.PixelColor>,
                  fonts: seq<seq<bv8>>, dx: nat, dy: nat): seq<PixelWrite>
    requires FontOk(fonts) && dx < 8 && dy < 16
  {
    var cc := CellColor(c, color, bg, fonts, dx, dy);
    if cc.Some? then [PixelWrite(x + dx, y + dy, cc.value)] else []
  }

  /** Cell `k = dy * 8 + dx` is pixel (dx, dy). */
  lemma CellWriteAt(x: nat, y: nat, c: bv8, color: Writer.PixelColor, bg: Option<Writer.PixelColor>,
                    fonts: seq<seq<bv8>>, k: nat, dx: nat, dy: nat)
    requires FontOk(fonts) && dx < 8 && dy < 16 && k == dy * 8 + dx
    ensures CellWrite(x, y, c, color, bg, fonts, k) == CellAt(x, y, c, color, bg, fonts, dx, dy)
  {
    Allocator.DivModUnique(k, 8, dy, dx);
  }

  /** The write of pixel (dx, dy), case by case as `write_ascii` tests it. */
  lemma CellAtIs(x: nat, y: nat, c: bv8, color: Writer.PixelColor, bg: Option<Writer.PixelColor>,
                 fonts: seq<seq<bv8>>, dx: nat, dy: nat)
    requires FontOk(fonts) && dx < 8 && dy < 16
    ensures GlyphBit(fonts[c][dy], dx) ==> CellAt(x, y, c, color, bg, fonts, dx, dy) == [PixelWrite(x + dx, y + dy, color)]
    ensures !GlyphBit(fonts[c][dy], dx) && bg.Some? ==>
      CellAt(x, y, c, color, bg, fonts, dx, dy) == [PixelWrite(x + dx, y + dy, bg.value)]
    ensures !GlyphBit(fonts[c][dy], dx) && bg.None? ==> CellAt(x, y, c, color, bg, fonts, dx, dy) == []
  {
  }

  /** The writes of cells `0..n`, row by row. */
  function Cells(x: nat, y: nat, c: bv8, color: Writer.PixelColor, bg: Option<Writer.PixelColor>,
                 fonts: seq<seq<bv8>>, n: nat): seq<PixelWrite>
    requires FontOk(fonts) && n <= 128
  {
    if n == 0 then [] else Cells(x, y, c, color, bg, fonts, n - 1) + CellWrite(x, y, c, color, bg, fonts, n - 1)
  }

  /** The writes of `write_ascii(x, y, c, color)`: none unless `c` is printable. */
  function GlyphWrites(x: nat, y: nat, c: bv8, color: Writer.PixelColor, bg: Option<Writer.PixelColor>,
                       fonts: seq<seq<bv8>>): (ws: seq<PixelWrite>)
    requires FontOk(fonts)
    ensures !Printable(c) ==> ws == []
  {
    if Printable(c) then Cells(x, y, c, color, bg, fonts, 128) else []
  }

  /** The four bytes of pixel (x, y). */
  function PixelBytes(config: FrameBufferConfig, mem: seq<bv8>, x: nat, y: nat): (b: seq<bv8>)
    requires Writer.Screen(config, mem) && x < config.pixelsPerScanLine && y < config.verticalResolution
    ensures |b| == 4
  {
    Writer.PixelInBounds(config.pixelsPerScanLine, config.verticalResolution, x, y);
    var off := Writer.PixelAt(config.pixelsPerScanLine, x, y);
    mem[off..off + 4]
  }

  /** The colour a display shows for pixel (x, y). */
  function Shown(config: FrameBufferConfig, mem: seq<bv8>, x: nat, y: nat): (bv8, bv8, bv8)
    requires Writer.Screen(config, mem) && x < config.pixelsPerScanLine && y < config.verticalResolution
  {
    Writer.Decode(config.pixelFormat, PixelBytes(config, mem, x, y)[..3])
  }

  function Rgb(c: Writer.PixelColor): (bv8, bv8, bv8) { (c.r, c.g, c.b) }

  /** A write to another pixel, or one off the screen, leaves the four bytes of pixel (px, py) alone. */
  lemma ApplyElsewhere(config: FrameBufferConfig, mem: seq<bv8>, w: PixelWrite, px: nat, py: nat)
    requires Writer.Screen(config, mem) && px < config.pixelsPerScanLine && py < config.verticalResolution
    requires (w.x, w.y) != (px, py)
    ensures PixelBytes(config, Apply(config, mem, w), px, py) == PixelBytes(config, mem, px, py)
  {
    var ppsl, vres := config.pixelsPerScanLine, config.verticalResolution;
    if w.x < config.horizontalResolution && w.y < vres {
      Writer.PixelInBounds(ppsl, vres, w.x, w.y);
      Writer.PixelInBounds(ppsl, vres, px, py);
      Writer.PixelsApart(ppsl, w.x, w.y, px, py);
      var s := Writer.Encode(config.pixelFormat, w.color.r, w.color.g, w.color.b);
      var offW := Writer.PixelAt(ppsl, w.x, w.y);
      var off := Writer.PixelAt(ppsl, px, py);
      UnchangedOutside(mem, offW, s, off);
    }
  }

  lemma UnchangedOutside(mem: seq<bv8>, offW: nat, s: seq<bv8>, off: nat)
    requires |s| == 3 && offW + 3 <= |mem| && off + 4 <= |mem|
    requires offW + 4 <= off || off + 4 <= offW
    ensures Writer.Store(mem, offW, s)[off..off + 4] == mem[off..off + 4]
  {
    var m := Writer.Store(mem, offW, s);
    assert forall i :: off <= i < off + 4 ==> m[i] == mem[i];
  }

  /** A visible write reads back as its colour. */
  lemma ApplyHere(config: FrameBufferConfig, mem: seq<bv8>, w: PixelWrite)
    requires Writer.Screen(config, mem) && w.x < config.horizontalResolution && w.y < config.verticalResolution
    ensures Shown(config, Apply(config, mem, w), w.x, w.y) == Rgb(w.color)
  {
    var ppsl, vres := config.pixelsPerScanLine, config.verticalResolution;
    Writer.WriteReadsBack(config.pixelFormat, ppsl, vres, mem, w.x, w.y, w.color);
  }

  /** Cells of one glyph box lie on distinct pixels, and a pixel of the box is the cell of its offsets. */
  lemma CellPosition(x: nat, y: nat, px: nat, py: nat, k: nat)
    requires k < 128
    ensures (CellX(x, k), CellY(y, k)) == (px, py)
        <==> x <= px < x + 8 && y <= py < y + 16 && k == (py - y) * 8 + (px - x)
  {
    if x <= px < x + 8 && y <= py < y + 16 && k == (py - y) * 8 + (px - x) {
      Allocator.DivModUnique(k, 8, py - y, px - x);
    }
    if (CellX(x, k), CellY(y, k)) == (px, py) {
      Allocator.DivModUnique(k, 8, k / 8, k % 8);
    }
  }

  /** Pixel (px, py) lies in the box at (x, y) and its cell comes before `n` with a colour to take. */
  predicate Painted(x: nat, y: nat, c: bv8, color: Writer.PixelColor, bg: Option<Writer.PixelColor>,
                    fonts: seq<seq<bv8>>, n: nat, px: nat, py: nat)
    requires FontOk(fonts)
  {
    && x <= px < x + 8 && y <= py < y + 16
    && (py - y) * 8 + (px - x) < n
    && CellColor(c, color, bg, fonts, px - x, py - y).Some?
  }

  /**
   * The pixels after the first `n` cells: a painted pixel shows its
   * cell's colour; every other pixel keeps its bytes.
   */
  lemma {:induction false} CellsPixel(config: FrameBufferConfig, mem: seq<bv8>, x: nat, y: nat, c: bv8,
                                      color: Writer.PixelColor, bg: Option<Writer.PixelColor>,
                                      fonts: seq<seq<bv8>>, n: nat, px: nat, py: nat)
    requires Writer.Screen(config, mem) && FontOk(fonts) && n <= 128
    requires px < config.horizontalResolution && py < config.verticalResolution
    ensures CellsShown(config, mem, x, y, c, color, bg, fonts, n, px, py)
    decreases n
  {
    if n > 0 {
      CellsPixel(config, mem, x, y, c, color, bg, fonts, n - 1, px, py);
      CellsPixelStep(config, mem, x, y, c, color, bg, fonts, n - 1, px, py);
      assert n - 1 + 1 == n;
    }
  }

  /** What the first `n` cells leave at pixel (px, py), as `CellsPixel` states it. */
  predicate CellsShown(config: FrameBufferConfig, mem: seq<bv8>, x: nat, y: nat, c: bv8,
                       color: Writer.PixelColor, bg: Option<Writer.PixelColor>,
                       fonts: seq<seq<bv8>>, n: nat, px: nat, py: nat)
    requires Writer.Screen(config, mem) && FontOk(fonts) && n <= 128
    requires px < config.horizontalResolution && py < config.verticalResolution
  {
    var m := ApplyAll(config, mem, Cells(x, y, c, color, bg, fonts, n));
    && (Painted(x, y, c, color, bg, fonts, n, px, py) ==>
          Shown(config, m, px, py) == Rgb(CellColor(c, color, bg, fonts, px - x, py - y).value))
    && (!Painted(x, y, c, color, bg, fonts, n, px, py) ==>
          PixelBytes(config, m, px, py) == PixelBytes(config, mem, px, py))
  }

  /** One more cell keeps `CellsShown`. */
  lemma CellsPixelStep(config: FrameBufferConfig, mem: seq<bv8>, x: nat, y: nat, c: bv8,
                       color: Writer.PixelColor, bg: Option<Writer.PixelColor>,
                       fonts: seq<seq<bv8>>, k: nat, px: nat, py: nat)
    requires Writer.Screen(config, mem) && FontOk(fonts) && k < 128
    requires px < config.horizontalResolution && py < config.verticalResolution
    requires CellsShown(config, mem, x, y, c, color, bg, fonts, k, px, py)
    ensures CellsShown(config, mem, x, y, c, color, bg, fonts, k + 1, px, py)
  {
    if (CellX(x, k), CellY(y, k)) == (px, py) && CellColor(c, color, bg, fonts, k % 8, k / 8).Some? {
      StepHere(config, mem, x, y, c, color, bg, fonts, k, px, py);
    } else {
      StepElsewhere(config, mem, x, y, c, color, bg, fonts, k, px, py);
    }
  }

  /** Cell `k` is pixel (px, py) and has a colour: the pixel shows it. */
  lemma StepHere(config: FrameBufferConfig, mem: seq<bv8>, x: nat, y: nat, c: bv8,
                 color: Writer.PixelColor, bg: Option<Writer.PixelColor>,
                 fonts: seq<seq<bv8>>, k: nat, px: nat, py: nat)
    requires Writer.Screen(config, mem) && FontOk(fonts) && k < 128
    requires px < config.horizontalResolution && py < config.verticalResolution
    requires (CellX(x, k), CellY(y, k)) == (px, py) && CellColor(c, color, bg, fonts, k % 8, k / 8).Some?
    ensures CellsShown(config, mem, x, y, c, color, bg, fonts, k + 1, px, py)
  {
    var prev := Cells(x, y, c, color, bg, fonts, k);
    var cw := CellWrite(x, y, c, color, bg, fonts, k);
    ApplyAllAppend(config, mem, prev, cw);
    var m0 := ApplyAll(config, mem, prev);
    CellStep(config, m0, x, y, c, color, bg, fonts, k, px, py);
    PaintedStep(x, y, c, color, bg, fonts, k, px, py);
    CellPosition(x, y, px, py, k);
    assert px - x == k % 8 && py - y == k / 8;
  }

  /** Cell `k` does not paint pixel (px, py): the pixel keeps what the first `k` cells left. */
  lemma StepElsewhere(config: FrameBufferConfig, mem: seq<bv8>, x: nat, y: nat, c: bv8,
                      color: Writer.PixelColor, bg: Option<Writer.PixelColor>,
                      fonts: seq<seq<bv8>>, k: nat, px: nat, py: nat)
    requires Writer.Screen(config, mem) && FontOk(fonts) && k < 128
    requires px < config.horizontalResolution && py < config.verticalResolution
    requires CellsShown(config, mem, x, y, c, color, bg, fonts, k, px, py)
    requires !((CellX(x, k), CellY(y, k)) == (px, py) && CellColor(c, color, bg, fonts, k % 8, k / 8).Some?)
    ensures CellsShown(config, mem, x, y, c, color, bg, fonts, k + 1, px, py)
  {
    var prev := Cells(x, y, c, color, bg, fonts, k);
    var cw := CellWrite(x, y, c, color, bg, fonts, k);
    ApplyAllAppend(config, mem, prev, cw);
    var m0 := ApplyAll(config, mem, prev);
    var m1 := ApplyAll(config, mem, Cells(x, y, c, color, bg, fonts, k + 1));
    CellStep(config, m0, x, y, c, color, bg, fonts, k, px, py);
    PaintedStep(x, y, c, color, bg, fonts, k, px, py);
    assert PixelBytes(config, m1, px, py) == PixelBytes(config, m0, px, py);
  }

  /** Cell `k` adds pixel (px, py) to the painted ones exactly when it is that pixel's cell and has a colour. */
  lemma PaintedStep(x: nat, y: nat, c: bv8, color: Writer.PixelColor, bg: Option<Writer.PixelColor>,
                    fonts: seq<seq<bv8>>, k: nat, px: nat, py: nat)
    requires FontOk(fonts) && k < 128
    ensures var cc := CellColor(c, color, bg, fonts, k % 8, k / 8);
      if (CellX(x, k), CellY(y, k)) == (px, py) then
        !Painted(x, y, c, color, bg, fonts, k, px, py) && Painted(x, y, c, color, bg, fonts, k + 1, px, py) == cc.Some?
      else
        Painted(x, y, c, color, bg, fonts, k + 1, px, py) == Painted(x, y, c, color, bg, fonts, k, px, py)
  {
    CellPosition(x, y, px, py, k);
    if (CellX(x, k), CellY(y, k)) == (px, py) {
      assert px - x == k % 8 && py - y == k / 8;
    }
  }

  /** One cell's write: it paints its own pixel, when it has a colour, and no other. */
  lemma CellStep(config: FrameBufferConfig, m0: seq<bv8>, x: nat, y: nat, c: bv8,
                 color: Writer.PixelColor, bg: Option<Writer.PixelColor>, fonts: seq<seq<bv8>>, k: nat, px: nat, py: nat)
    requires Writer.Screen(config, m0) && FontOk(fonts) && k < 128
    requires px < config.horizontalResolution && py < config.verticalResolution
    ensures var cc := CellColor(c, color, bg, fonts, k % 8, k / 8);
      var here := (CellX(x, k), CellY(y, k)) == (px, py) && cc.Some?;
      var m1 := ApplyAll(config, m0, CellWrite(x, y, c, color, bg, fonts, k));
      && (here ==> Shown(config, m1, px, py) == Rgb(cc.value))
      && (!here ==> PixelBytes(config, m1, px, py) == PixelBytes(config, m0, px, py))
  {
    var cw := CellWrite(x, y, c, color, bg, fonts, k);
    if cw == [] {
      assert ApplyAll(config, m0, cw) == m0;
    } else {
      assert ApplyAll(config, m0, cw) == Apply(config, m0, cw[0]) by {
        assert cw[..0] == [];
      }
      if (cw[0].x, cw[0].y) == (px, py) {
        ApplyHere(config, m0, cw[0]);
      } else {
        ApplyElsewhere(config, m0, cw[0], px, py);
      }
    }
  }

  /**
   * `write_ascii` pixel by pixel: for a printable byte, each visible pixel
   * of the 8x16 box shows the foreground where the glyph bit is set and
   * the background (when there is one) where it is clear; pixels with no
   * colour to take, every pixel outside the box, and every pixel for a
   * byte that is not printable, keep their bytes.
   */
  lemma GlyphPixel(config: FrameBufferConfig, mem: seq<bv8>, x: nat, y: nat, c: bv8,
                   color: Writer.PixelColor, bg: Option<Writer.PixelColor>, fonts: seq<seq<bv8>>, px: nat, py: nat)
    requires Writer.Screen(config, mem) && FontOk(fonts)
    requires px < config.horizontalResolution && py < config.verticalResolution
    ensures Printable(c) && Painted(x, y, c, color, bg, fonts, 128, px, py) ==>
      Shown(config, ApplyAll(config, mem, GlyphWrites(x, y, c, color, bg, fonts)), px, py)
        == Rgb(CellColor(c, color, bg, fonts, px - x, py - y).value)
    ensures !(Printable(c) && Painted(x, y, c, color, bg, fonts, 128, px, py)) ==>
      PixelBytes(config, ApplyAll(config, mem, GlyphWrites(x, y, c, color, bg, fonts)), px, py)
        == PixelBytes(config, mem, px, py)
  {
    if Printable(c) {
      CellsPixel(config, mem, x, y, c, color, bg, fonts, 128, px, py);
    }
  }

  /** Every pixel of the box has a cell index below 128. */
  lemma BoxCellsBelow(x: nat, y: nat, px: nat, py: nat)
    requires x <= px < x + 8 && y <= py < y + 16
    ensures (py - y) * 8 + (px - x) < 128
  {
  }

  /** The writes of `write_`: each byte's glyph at the cursor in force before it. */
  function TextWrites(initialX: nat, start: Cursor, s: seq<bv8>, color: Writer.PixelColor,
                      bg: Option<Writer.PixelColor>, fonts: seq<seq<bv8>>): seq<PixelWrite>
    requires FontOk(fonts)
  {
    if s == [] then []
    else
      var at := CursorAfter(initialX, start, s[..|s| - 1]);
      TextWrites(initialX, start, s[..|s| - 1], color, bg, fonts) + GlyphWrites(at.x, at.y, s[|s| - 1], color, bg, fonts)
  }

  /** `TextWriter`: a pixel writer, the initial and current cursor, the colours. */
  class TextWriter {
    const writer: Writer.PixelWriter
    const initialX: nat
    const initialY: nat
    var currentX: nat
    var currentY: nat
    const color: Writer.PixelColor
    const bg: Option<Writer.PixelColor>

    /** `TextWriter::new`: the cursor starts at (x, y). */
    constructor (writer: Writer.PixelWriter, x: nat, y: nat, color: Writer.PixelColor, bg: Option<Writer.PixelColor>)
      ensures this.writer == writer && this.color == color && this.bg == bg
      ensures initialX == x && initialY == y && currentX == x && currentY == y
    {
      this.writer := writer;
      initialX, initialY := x, y;
      currentX, currentY := x, y;
      this.color, this.bg := color, bg;
    }

    /**
     * `write_ascii`: true exactly for a newline; the glyph's writes for a
     * printable byte; nothing otherwise.
     */
    method WriteAscii(x: nat, y: nat, c: bv8, color: Writer.PixelColor, fonts: seq<seq<bv8>>) returns (newline: bool)
      requires writer.Valid() && FontOk(fonts)
      modifies writer.mem
      ensures newline <==> c == NEWLINE
      ensures Writer.Screen(writer.config, old(writer.mem[..]))
      ensures writer.mem[..] == ApplyAll(writer.config, old(writer.mem[..]), GlyphWrites(x, y, c, color, bg, fonts))
    {
      if c == NEWLINE {
        return true;
      }
      if Printable(c) {
        DrawCells(x, y, c, color, fonts);
      }
      return false;
    }

    /** The two loops of `write_ascii` over the 16 rows and 8 columns. */
    method DrawCells(x: nat, y: nat, c: bv8, color: Writer.PixelColor, fonts: seq<seq<bv8>>)
      requires writer.Valid() && FontOk(fonts)
      modifies writer.mem
      ensures Writer.Screen(writer.config, old(writer.mem[..]))
      ensures writer.mem[..] == ApplyAll(writer.config, old(writer.mem[..]), Cells(x, y, c, color, bg, fonts, 128))
    {
      ghost var m0 := writer.mem[..];
      for dy := 0 to 16
        invariant writer.mem[..] == ApplyAll(writer.config, m0, Rows(x, y, c, color, bg, fonts, dy))
      {
        DrawRow(x, y, c, color, fonts, dy, m0);
      }
      RowsAreCells(x, y, c, color, bg, fonts, 16, 128);
    }

    /** The inner loop of `write_ascii`: the 8 pixels of glyph row `dy`. */
    method DrawRow(x: nat, y: nat, c: bv8, color: Writer.PixelColor, fonts: seq<seq<bv8>>, dy: nat, ghost m0: seq<bv8>)
      requires writer.Valid() && FontOk(fonts) && dy < 16 && Writer.Screen(writer.config, m0)
      requires writer.mem[..] == ApplyAll(writer.config, m0, Rows(x, y, c, color, bg, fonts, dy))
      modifies writer.mem
      ensures writer.mem[..] == ApplyAll(writer.config, m0, Rows(x, y, c, color, bg, fonts, dy + 1))
    {
      ghost var mr := writer.mem[..];
      for dx := 0 to 8
        invariant Writer.Screen(writer.config, mr)
        invariant writer.mem[..] == ApplyAll(writer.config, mr, Row(x, y, c, color, bg, fonts, dy, dx))
      {
        DrawCell(x, y, c, color, fonts, dy, dx, mr);
      }
      RowDone(writer.config, m0, mr, writer.mem[..], x, y, c, color, bg, fonts, dy);
    }

    /** One pass of the inner loop, pixel (dx, dy): the glyph bit decides between the two colours. */
    method DrawCell(x: nat, y: nat, c: bv8, color: Writer.PixelColor, fonts: seq<seq<bv8>>, dy: nat, dx: nat,
                    ghost mr: seq<bv8>)
      requires writer.Valid() && FontOk(fonts) && dy < 16 && dx < 8 && Writer.Screen(writer.config, mr)
      requires writer.mem[..] == ApplyAll(writer.config, mr, Row(x, y, c, color, bg, fonts, dy, dx))
      modifies writer.mem
      ensures writer.mem[..] == ApplyAll(writer.config, mr, Row(x, y, c, color, bg, fonts, dy, dx + 1))
    {
      ghost var before := writer.mem[..];
      var back := bg;
      CellAtIs(x, y, c, color, back, fonts, dx, dy);
      if GlyphBit(fonts[c][dy], dx) {
        Plot(x + dx, y + dy, color);
      } else if back.Some? {
        Plot(x + dx, y + dy, back.value);
      } else {
        ApplyOne(writer.config, before, []);
      }
      RowStep(writer.config, mr, before, writer.mem[..], x, y, c, color, back, fonts, dy, dx);
    }

    /** `writer.write(x, y, c)`, as one pixel write. */
    method Plot(x: nat, y: nat, c: Writer.PixelColor)
      requires writer.Valid()
      modifies writer.mem
      ensures Writer.Screen(writer.config, old(writer.mem[..]))
      ensures writer.mem[..] == ApplyAll(writer.config, old(writer.mem[..]), [PixelWrite(x, y, c)])
    {
      writer.Write(x, y, c);
      WrittenCell(writer.config, old(writer.mem[..]), writer.mem[..], PixelWrite(x, y, c));
    }

    /**
     * `write_` (and so `write_str`, which always returns Ok): each byte is
     * drawn at the cursor, which then advances.
     */
    method Write(s: seq<bv8>, fonts: seq<seq<bv8>>)
      requires writer.Valid() && FontOk(fonts)
      modifies this, writer.mem
      ensures Cursor(currentX, currentY) == CursorAfter(initialX, Cursor(old(currentX), old(currentY)), s)
      ensures Writer.Screen(writer.config, old(writer.mem[..]))
      ensures writer.mem[..] == ApplyAll(writer.config, old(writer.mem[..]),
                                         TextWrites(initialX, Cursor(old(currentX), old(currentY)), s, color, bg, fonts))
    {
      var start := Cursor(currentX, currentY);
      var m0 := writer.mem[..];
      for i := 0 to |s|
        invariant writer.Valid()
        invariant Cursor(currentX, currentY) == CursorAfter(initialX, start, s[..i])
        invariant writer.mem[..] == ApplyAll(writer.config, m0, TextWrites(initialX, start, s[..i], color, bg, fonts))
      {
        assert s[..i + 1][..i] == s[..i];
        ApplyAllAppend(writer.config, m0, TextWrites(initialX, start, s[..i], color, bg, fonts),
                       GlyphWrites(currentX, currentY, s[i], color, bg, fonts));
        var newline := WriteAscii(currentX, currentY, s[i], color, fonts);
        if newline {
          currentX := initialX;
          currentY := currentY + 16;
        } else {
          currentX := currentX + 8;
        }
      }
      assert s[..|s|] == s;
    }
  }
}
