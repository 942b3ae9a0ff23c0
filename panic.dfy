// kernel/src/panic.rs: the panic writer, which draws text straight into
// the frame buffer with almost nothing initialised. It keeps only a pointer
// to the frame buffer configuration (null until `init_default_panic_print`)
// and a cursor. Each printable byte is an 8x16 glyph of 32-bit words, white
// (0xffffffff) for set bits and 0 for clear ones; a newline, or a glyph that
// would pass the right edge, moves to column 2 sixteen pixels down, and a
// glyph that would pass the bottom edge stops the current `write_str`.

module Panic {
  import opened Common
  import Writer
  import Font
  import Allocator

  // ---- the cursor ----------------------------------------------------------------

  datatype Pos = Pos(x: nat, y: nat)

  /** A glyph drawn by `write_str`: byte `c` with its top left word at (x, y). */
  datatype Glyph = Glyph(x: nat, y: nat, c: bv8)

  /** The outcome of the byte loop: the cursor, the glyphs drawn in order, and whether it hit `break`. */
  datatype Run = Run(pos: Pos, glyphs: seq<Glyph>, stopped: bool)

  /** The wrap before a byte other than a newline: past the right edge, column 2 of the next line. */
  function Wrap(hres: nat, p: Pos): (q: Pos)
    ensures q == p || (q.x == 2 && q.y == p.y + 16)
    ensures hres < p.x + 8 <==> q != p
  {
    if hres < p.x + 8 then Pos(2, p.y + 16) else p
  }

  /** Glyph `g` lies at or after the cursor `p`: further along its line, or on a later line. */
  predicate AtOrAfter(p: Pos, g: Glyph)
  {
    g.y >= p.y + 16 || (g.y == p.y && g.x >= p.x)
  }

  /**
   * The byte loop of `write_str` from cursor `p`: a newline moves to
   * (2, y + 16) and draws nothing; another byte first wraps, then stops
   * the loop when its glyph would pass the bottom edge (`vres < y + 16`),
   * else draws its glyph when it is printable and moves 8 right.
   */
  function RunBytes(hres: nat, vres: nat, p: Pos, s: seq<bv8>): (r: Run)
    ensures r.pos.y >= p.y
    ensures forall g :: g in r.glyphs ==> Font.Printable(g.c) && g.y + 16 <= vres
    ensures forall g :: g in r.glyphs ==> 10 <= hres ==> g.x + 8 <= hres
    ensures forall g :: g in r.glyphs ==> AtOrAfter(p, g)
    decreases |s|
  {
    if s == [] then Run(p, [], false)
    else if s[0] == Font.NEWLINE then RunBytes(hres, vres, Pos(2, p.y + 16), s[1..])
    else
      var q := Wrap(hres, p);
      if vres < q.y + 16 then Run(q, [], true)
      else
        var rest := RunBytes(hres, vres, Pos(q.x + 8, q.y), s[1..]);
        Run(rest.pos, (if Font.Printable(s[0]) then [Glyph(q.x, q.y, s[0])] else []) + rest.glyphs, rest.stopped)
  }

  /** Glyph `b` is drawn clear of glyph `a`: 8 or more to the right on the same line, or on a line 16 or more further down. */
  predicate Apart(a: Glyph, b: Glyph)
  {
    b.y >= a.y + 16 || (b.y == a.y && b.x >= a.x + 8)
  }

  /** Every glyph is clear of all glyphs drawn before it. */
  predicate Ordered(gs: seq<Glyph>)
  {
    forall i, j :: 0 <= i < j < |gs| ==> Apart(gs[i], gs[j])
  }

  /** One `write_str` never draws a glyph over another glyph of the same call. */
  lemma {:induction false} RunOrdered(hres: nat, vres: nat, p: Pos, s: seq<bv8>)
    ensures Ordered(RunBytes(hres, vres, p, s).glyphs)
    decreases |s|
  {
    if s != [] {
      if s[0] == Font.NEWLINE {
        RunOrdered(hres, vres, Pos(2, p.y + 16), s[1..]);
      } else {
        var q := Wrap(hres, p);
        if q.y + 16 <= vres {
          var rest := RunBytes(hres, vres, Pos(q.x + 8, q.y), s[1..]);
          RunOrdered(hres, vres, Pos(q.x + 8, q.y), s[1..]);
          if Font.Printable(s[0]) {
            ConsOrdered(Glyph(q.x, q.y, s[0]), rest.glyphs);
            assert RunBytes(hres, vres, p, s).glyphs == [Glyph(q.x, q.y, s[0])] + rest.glyphs;
          } else {
            assert RunBytes(hres, vres, p, s).glyphs == [] + rest.glyphs;
          }
        }
      }
    }
  }

  /** A glyph followed by ordered glyphs that all lie at or after the cursor just past it. */
  lemma ConsOrdered(g: Glyph, rest: seq<Glyph>)
    requires Ordered(rest) && forall h :: h in rest ==> AtOrAfter(Pos(g.x + 8, g.y), h)
    ensures Ordered([g] + rest)
  {
    var gs := [g] + rest;
    forall i, j | 0 <= i < j < |gs| ensures Apart(gs[i], gs[j]) {
      assert gs[j] == rest[j - 1];
      if i == 0 {
        assert rest[j - 1] in rest;
      } else {
        assert gs[i] == rest[i - 1];
      }
    }
  }

  /**
   * Text without newlines that fits on the current line (and above the
   * bottom edge) draws its printable bytes 8 pixels apart from the
   * cursor on, and leaves the cursor just after it.
   */
  lemma {:induction false} RunOneLine(hres: nat, vres: nat, p: Pos, s: seq<bv8>)
    requires forall i :: 0 <= i < |s| ==> s[i] != Font.NEWLINE
    requires p.x + 8 * |s| <= hres && p.y + 16 <= vres
    ensures var r := RunBytes(hres, vres, p, s);
      && r.pos == Pos(p.x + 8 * |s|, p.y)
      && !r.stopped
      && r.glyphs == LineGlyphs(p, s)
    decreases |s|
  {
    if s != [] {
      RunOneLine(hres, vres, Pos(p.x + 8, p.y), s[1..]);
      assert LineGlyphs(p, s) == (if Font.Printable(s[0]) then [Glyph(p.x, p.y, s[0])] else [])
        + LineGlyphs(Pos(p.x + 8, p.y), s[1..]);
    }
  }

  /** The printable bytes of `s`, byte `i` at column p.x + 8 * i of line p.y. */
  function LineGlyphs(p: Pos, s: seq<bv8>): (gs: seq<Glyph>)
    ensures forall g :: g in gs ==> g.y == p.y && Font.Printable(g.c)
    decreases |s|
  {
    if s == [] then []
    else (if Font.Printable(s[0]) then [Glyph(p.x, p.y, s[0])] else []) + LineGlyphs(Pos(p.x + 8, p.y), s[1..])
  }

  /**
   * `write!` may hand its text to `write_str` in pieces: while the first
   * piece does not stop, two calls do what one call on the joined text does.
   */
  lemma {:induction false} RunAppend(hres: nat, vres: nat, p: Pos, s: seq<bv8>, t: seq<bv8>)
    requires !RunBytes(hres, vres, p, s).stopped
    ensures var r1 := RunBytes(hres, vres, p, s);
      var r2 := RunBytes(hres, vres, r1.pos, t);
      RunBytes(hres, vres, p, s + t) == Run(r2.pos, r1.glyphs + r2.glyphs, r2.stopped)
    decreases |s|
  {
    if s != [] {
      assert (s + t)[0] == s[0] && (s + t)[1..] == s[1..] + t;
      if s[0] == Font.NEWLINE {
        RunAppend(hres, vres, Pos(2, p.y + 16), s[1..], t);
      } else {
        var q := Wrap(hres, p);
        RunAppend(hres, vres, Pos(q.x + 8, q.y), s[1..], t);
        var first: seq<Glyph> := if Font.Printable(s[0]) then [Glyph(q.x, q.y, s[0])] else [];
        var r1 := RunBytes(hres, vres, Pos(q.x + 8, q.y), s[1..]);
        var r2 := RunBytes(hres, vres, r1.pos, t);
        GlyphsAssoc(first, r1.glyphs, r2.glyphs);
      }
    } else {
      assert s + t == t;
    }
  }

  lemma GlyphsAssoc(a: seq<Glyph>, b: seq<Glyph>, c: seq<Glyph>)
    ensures a + (b + c) == (a + b) + c
  {
  }

  /** Once the cursor is below the last full line, no byte but a newline gets drawn: the first other byte stops the call. */
  lemma PastBottomStops(hres: nat, vres: nat, p: Pos, c: bv8, s: seq<bv8>)
    requires c != Font.NEWLINE && vres < p.y + 16
    ensures RunBytes(hres, vres, p, [c] + s) == Run(Wrap(hres, p), [], true)
  {
    assert ([c] + s)[0] == c;
  }

  // ---- the glyph words -----------------------------------------------------------

  /** Glyph `g` lies inside a frame buffer of `len` words with `ppsl` words per line. */
  predicate GlyphFits(ppsl: nat, len: nat, g: Glyph)
  {
    g.x + 8 <= ppsl && ppsl * (g.y + 16) <= len
  }

  /** The word of cell `k` of a glyph: row k / 8, column k % 8, at `ppsl * (y + dy) + x + dx`. */
  function CellIndex(ppsl: nat, g: Glyph, k: nat): nat
  {
    ppsl * (g.y + k / 8) + (g.x + k % 8)
  }

  /** The value written for cell `k`: white for a set glyph bit, 0 for a clear one. */
  function CellValue(fonts: seq<seq<bv8>>, g: Glyph, k: nat): bv32
    requires Font.FontOk(fonts) && k < 128
  {
    if Font.GlyphBit(fonts[g.c][k / 8], k % 8) then 0xffffffff else 0
  }

  lemma CellInBuffer(ppsl: nat, len: nat, g: Glyph, k: nat)
    requires GlyphFits(ppsl, len, g) && k < 128
    ensures CellIndex(ppsl, g, k) < len
    ensures CellIndex(ppsl, g, k) / ppsl == g.y + k / 8
    ensures CellIndex(ppsl, g, k) % ppsl == g.x + k % 8
  {
    Allocator.DivModUnique(CellIndex(ppsl, g, k), ppsl, g.y + k / 8, g.x + k % 8);
    Writer.MulLeMono(ppsl, g.y + k / 8 + 1, g.y + 16);
    assert ppsl * (g.y + k / 8 + 1) == ppsl * (g.y + k / 8) + ppsl;
  }

  /** The words after the first `n` cells of glyph `g`, in the loops' order (row by row, left to right). */
  function Words(m: seq<bv32>, ppsl: nat, fonts: seq<seq<bv8>>, g: Glyph, n: nat): (r: seq<bv32>)
    requires GlyphFits(ppsl, |m|, g) && Font.FontOk(fonts) && n <= 128
    ensures |r| == |m|
  {
    if n == 0 then m
    else
      CellInBuffer(ppsl, |m|, g, n - 1);
      Words(m, ppsl, fonts, g, n - 1)[CellIndex(ppsl, g, n - 1) := CellValue(fonts, g, n - 1)]
  }

  /** Cell `k` is word (dx, dy) of the box, and writing it extends the cells drawn by one. */
  lemma WordsStep(m: seq<bv32>, ppsl: nat, fonts: seq<seq<bv8>>, g: Glyph, dy: nat, dx: nat, k: nat)
    requires GlyphFits(ppsl, |m|, g) && Font.FontOk(fonts) && dy < 16 && dx < 8 && k == dy * 8 + dx
    ensures CellIndex(ppsl, g, k) == ppsl * (g.y + dy) + g.x + dx < |m|
    ensures CellValue(fonts, g, k) == if Font.GlyphBit(fonts[g.c][dy], dx) then 0xffffffff else 0
    ensures Words(m, ppsl, fonts, g, k + 1) == Words(m, ppsl, fonts, g, k)[CellIndex(ppsl, g, k) := CellValue(fonts, g, k)]
  {
    Allocator.DivModUnique(k, 8, dy, dx);
    CellInBuffer(ppsl, |m|, g, k);
  }

  /** Word `i` lies in the 8x16 box of glyph `g`. */
  predicate InBox(ppsl: nat, g: Glyph, i: nat)
  {
    ppsl > 0 && g.y <= i / ppsl < g.y + 16 && g.x <= i % ppsl < g.x + 8
  }

  /** The cell of the box that word `i` is. */
  function CellOf(ppsl: nat, g: Glyph, i: nat): nat
    requires InBox(ppsl, g, i)
  {
    (i / ppsl - g.y) * 8 + (i % ppsl - g.x)
  }

  /** What a drawn glyph shows at word `i` of its box. */
  function BoxValue(ppsl: nat, fonts: seq<seq<bv8>>, g: Glyph, i: nat): bv32
    requires Font.FontOk(fonts) && InBox(ppsl, g, i)
  {
    if Font.GlyphBit(fonts[g.c][i / ppsl - g.y], i % ppsl - g.x) then 0xffffffff else 0
  }

  /** Cell `k` is the word `CellIndex(k)`, and the other way round. */
  lemma CellRoundTrip(ppsl: nat, len: nat, fonts: seq<seq<bv8>>, g: Glyph, k: nat, i: nat)
    requires GlyphFits(ppsl, len, g) && Font.FontOk(fonts) && k < 128
    ensures i == CellIndex(ppsl, g, k) ==>
      InBox(ppsl, g, i) && CellOf(ppsl, g, i) == k && BoxValue(ppsl, fonts, g, i) == CellValue(fonts, g, k)
    ensures InBox(ppsl, g, i) && CellOf(ppsl, g, i) == k ==> i == CellIndex(ppsl, g, k)
  {
    CellInBuffer(ppsl, len, g, k);
    if InBox(ppsl, g, i) && CellOf(ppsl, g, i) == k {
      Allocator.DivModUnique(k, 8, i / ppsl - g.y, i % ppsl - g.x);
    }
  }

  /**
   * After the first `n` cells, a word of the box whose cell is among them
   * shows the glyph; every other word is as before.
   */
  lemma {:induction false} WordsAt(m: seq<bv32>, ppsl: nat, fonts: seq<seq<bv8>>, g: Glyph, n: nat)
    requires GlyphFits(ppsl, |m|, g) && Font.FontOk(fonts) && n <= 128
    ensures forall i :: 0 <= i < |m| ==>
      Words(m, ppsl, fonts, g, n)[i] == if InBox(ppsl, g, i) && CellOf(ppsl, g, i) < n then BoxValue(ppsl, fonts, g, i) else m[i]
  {
    if n > 0 {
      WordsAt(m, ppsl, fonts, g, n - 1);
      forall i | 0 <= i < |m|
        ensures Words(m, ppsl, fonts, g, n)[i]
          == if InBox(ppsl, g, i) && CellOf(ppsl, g, i) < n then BoxValue(ppsl, fonts, g, i) else m[i]
      {
        CellRoundTrip(ppsl, |m|, fonts, g, n - 1, i);
      }
    }
  }

  /** A glyph drawn in full: its 8x16 box shows the glyph, white on black, and nothing outside the box changes. */
  lemma GlyphDrawn(m: seq<bv32>, ppsl: nat, fonts: seq<seq<bv8>>, g: Glyph)
    requires GlyphFits(ppsl, |m|, g) && Font.FontOk(fonts)
    ensures forall i :: 0 <= i < |m| ==>
      Words(m, ppsl, fonts, g, 128)[i] == if InBox(ppsl, g, i) then BoxValue(ppsl, fonts, g, i) else m[i]
  {
    WordsAt(m, ppsl, fonts, g, 128);
  }

  /** Every glyph of `gs` fits the frame buffer. */
  predicate AllFit(ppsl: nat, len: nat, gs: seq<Glyph>)
  {
    forall g :: g in gs ==> GlyphFits(ppsl, len, g)
  }

  /** The glyphs drawn one after another. */
  function Draw(m: seq<bv32>, ppsl: nat, fonts: seq<seq<bv8>>, gs: seq<Glyph>): (r: seq<bv32>)
    requires AllFit(ppsl, |m|, gs) && Font.FontOk(fonts)
    ensures |r| == |m|
    decreases |gs|
  {
    if gs == [] then m
    else
      assert gs[0] in gs;
      Draw(Words(m, ppsl, fonts, gs[0], 128), ppsl, fonts, gs[1..])
  }

  /**
   * Glyphs clear of each other all stay visible: each word in a glyph's
   * box shows that glyph, and a word in no box keeps its value.
   */
  lemma {:induction false} DrawShows(m: seq<bv32>, ppsl: nat, fonts: seq<seq<bv8>>, gs: seq<Glyph>)
    requires AllFit(ppsl, |m|, gs) && Font.FontOk(fonts) && Ordered(gs)
    ensures forall k, i :: 0 <= k < |gs| && 0 <= i < |m| && InBox(ppsl, gs[k], i) ==>
      Draw(m, ppsl, fonts, gs)[i] == BoxValue(ppsl, fonts, gs[k], i)
    ensures forall i :: 0 <= i < |m| && (forall k :: 0 <= k < |gs| ==> !InBox(ppsl, gs[k], i)) ==>
      Draw(m, ppsl, fonts, gs)[i] == m[i]
    decreases |gs|
  {
    if gs != [] {
      assert gs[0] in gs;
      var w := Words(m, ppsl, fonts, gs[0], 128);
      var rest := gs[1..];
      assert forall k :: 0 <= k < |rest| ==> rest[k] == gs[k + 1];
      assert Ordered(rest);
      GlyphDrawn(m, ppsl, fonts, gs[0]);
      DrawShows(w, ppsl, fonts, rest);
      forall k, i | 0 <= k < |gs| && 0 <= i < |m| && InBox(ppsl, gs[k], i)
        ensures Draw(m, ppsl, fonts, gs)[i] == BoxValue(ppsl, fonts, gs[k], i)
      {
        if k == 0 {
          forall j | 0 <= j < |rest| ensures !InBox(ppsl, rest[j], i) {
            assert Apart(gs[0], gs[j + 1]);
          }
        }
      }
      forall i | 0 <= i < |m| && (forall k :: 0 <= k < |gs| ==> !InBox(ppsl, gs[k], i))
        ensures Draw(m, ppsl, fonts, gs)[i] == m[i]
      {
        assert !InBox(ppsl, gs[0], i);
        forall j | 0 <= j < |rest| ensures !InBox(ppsl, rest[j], i) {
          assert !InBox(ppsl, gs[j + 1], i);
        }
      }
    }
  }

  // ---- the writer ----------------------------------------------------------------

  /** The frame buffer can take every glyph a run may draw: at least 10 columns, rows of `ppsl` words, `vres` rows. */
  predicate BufferFits(config: FrameBufferConfig, len: nat)
  {
    Writer.Supported(config.pixelFormat) ==>
      && 10 <= config.horizontalResolution <= config.pixelsPerScanLine
      && config.pixelsPerScanLine * config.verticalResolution <= len
  }

  /** The glyphs of a run fit a buffer that `BufferFits`. */
  lemma RunFits(config: FrameBufferConfig, len: nat, p: Pos, s: seq<bv8>)
    requires Writer.Supported(config.pixelFormat) && BufferFits(config, len)
    ensures AllFit(config.pixelsPerScanLine, len,
      RunBytes(config.horizontalResolution, config.verticalResolution, p, s).glyphs)
  {
    var r := RunBytes(config.horizontalResolution, config.verticalResolution, p, s);
    forall g | g in r.glyphs ensures GlyphFits(config.pixelsPerScanLine, len, g) {
      Writer.MulLeMono(config.pixelsPerScanLine, g.y + 16, config.verticalResolution);
    }
  }

  /**
   * `write_str` as a function of the cursor and the frame buffer: nothing
   * at all for a pixel format without a pixel size, else the byte loop's
   * cursor and its glyphs drawn in order.
   */
  function WriteStrSpec(config: FrameBufferConfig, p: Pos, m: seq<bv32>, s: seq<bv8>, fonts: seq<seq<bv8>>): (Pos, seq<bv32>)
    requires BufferFits(config, |m|) && Font.FontOk(fonts)
  {
    if !Writer.Supported(config.pixelFormat) then (p, m)
    else
      var r := RunBytes(config.horizontalResolution, config.verticalResolution, p, s);
      RunFits(config, |m|, p, s);
      (r.pos, Draw(m, config.pixelsPerScanLine, fonts, r.glyphs))
  }

  /** The glyphs a `write_str` of `s` from `p` draws. */
  function RunGlyphs(config: FrameBufferConfig, p: Pos, s: seq<bv8>): seq<Glyph>
  {
    RunBytes(config.horizontalResolution, config.verticalResolution, p, s).glyphs
  }

  /**
   * What a call of `write_str` shows: every glyph of the run, white on
   * black in its own box, and every word outside those boxes as before.
   */
  lemma WriteStrShows(config: FrameBufferConfig, p: Pos, m: seq<bv32>, s: seq<bv8>, fonts: seq<seq<bv8>>)
    requires BufferFits(config, |m|) && Font.FontOk(fonts) && Writer.Supported(config.pixelFormat)
    ensures forall k, i :: 0 <= k < |RunGlyphs(config, p, s)| && 0 <= i < |m| && InBox(config.pixelsPerScanLine, RunGlyphs(config, p, s)[k], i) ==>
      WriteStrSpec(config, p, m, s, fonts).1[i] == BoxValue(config.pixelsPerScanLine, fonts, RunGlyphs(config, p, s)[k], i)
    ensures forall i :: 0 <= i < |m| && (forall k :: 0 <= k < |RunGlyphs(config, p, s)| ==> !InBox(config.pixelsPerScanLine, RunGlyphs(config, p, s)[k], i)) ==>
      WriteStrSpec(config, p, m, s, fonts).1[i] == m[i]
  {
    var gs := RunGlyphs(config, p, s);
    RunFits(config, |m|, p, s);
    RunOrdered(config.horizontalResolution, config.verticalResolution, p, s);
    var after := Draw(m, config.pixelsPerScanLine, fonts, gs);
    assert WriteStrSpec(config, p, m, s, fonts).1 == after;
    DrawShows(m, config.pixelsPerScanLine, fonts, gs);
    assert forall k, i :: 0 <= k < |gs| && 0 <= i < |m| && InBox(config.pixelsPerScanLine, gs[k], i) ==>
      after[i] == BoxValue(config.pixelsPerScanLine, fonts, gs[k], i);
    assert forall i :: 0 <= i < |m| && (forall k :: 0 <= k < |gs| ==> !InBox(config.pixelsPerScanLine, gs[k], i)) ==>
      after[i] == m[i];
  }

  /** A newline: the run goes on from column 2 of the next line. */
  lemma RunNewline(hres: nat, vres: nat, p: Pos, s: seq<bv8>, i: nat)
    requires i < |s| && s[i] == Font.NEWLINE
    ensures RunBytes(hres, vres, p, s[i..]) == RunBytes(hres, vres, Pos(2, p.y + 16), s[i + 1..])
  {
    assert s[i..][0] == s[i] && s[i..][1..] == s[i + 1..];
  }

  /** Another byte past the bottom edge, after the wrap: the run stops at the wrapped cursor. */
  lemma RunStop(hres: nat, vres: nat, p: Pos, s: seq<bv8>, i: nat)
    requires i < |s| && s[i] != Font.NEWLINE && vres < Wrap(hres, p).y + 16
    ensures RunBytes(hres, vres, p, s[i..]) == Run(Wrap(hres, p), [], true)
  {
    assert s[i..][0] == s[i];
  }

  /** Another byte above the bottom edge: its glyph, if printable, at the wrapped cursor, then the rest 8 further right. */
  lemma RunDraw(hres: nat, vres: nat, p: Pos, s: seq<bv8>, i: nat)
    requires i < |s| && s[i] != Font.NEWLINE && Wrap(hres, p).y + 16 <= vres
    ensures var q := Wrap(hres, p);
      var rest := RunBytes(hres, vres, Pos(q.x + 8, q.y), s[i + 1..]);
      RunBytes(hres, vres, p, s[i..])
        == Run(rest.pos, (if Font.Printable(s[i]) then [Glyph(q.x, q.y, s[i])] else []) + rest.glyphs, rest.stopped)
  {
    assert s[i..][0] == s[i] && s[i..][1..] == s[i + 1..];
  }

  /** Drawing a glyph and then the rest is drawing them all. */
  lemma DrawFirst(m: seq<bv32>, ppsl: nat, fonts: seq<seq<bv8>>, g: Glyph, rest: seq<Glyph>)
    requires AllFit(ppsl, |m|, [g] + rest) && Font.FontOk(fonts)
    ensures GlyphFits(ppsl, |m|, g) && AllFit(ppsl, |m|, rest)
    ensures Draw(m, ppsl, fonts, [g] + rest) == Draw(Words(m, ppsl, fonts, g, 128), ppsl, fonts, rest)
  {
    assert g in [g] + rest;
    assert ([g] + rest)[1..] == rest;
    assert forall h :: h in rest ==> h in [g] + rest;
  }

  /**
   * `PanicWriter`: the configuration pointer (`None` for null), the frame
   * buffer it points to as 32-bit words, and the cursor.
   */
  class PanicWriter {
    var config: Option<FrameBufferConfig>
    var buffer: array<bv32>
    var x: nat
    var y: nat

    ghost predicate Valid()
      reads this
    {
      config.Some? ==> BufferFits(config.value, buffer.Length)
    }

    /** The static `PANIC_WRITER`: a null pointer and the cursor at (0, 0). */
    constructor ()
      ensures Valid() && config == None && x == 0 && y == 0
    {
      config := None;
      buffer := new bv32[0];
      x, y := 0, 0;
    }

    /** `init_default_panic_print`: the pointer is set; the cursor stays where it is. */
    method InitDefaultPanicPrint(c: FrameBufferConfig, frameBuffer: array<bv32>)
      requires BufferFits(c, frameBuffer.Length)
      modifies this
      ensures Valid() && config == Some(c) && buffer == frameBuffer && x == old(x) && y == old(y)
    {
      config := Some(c);
      buffer := frameBuffer;
    }

    /**
     * `default_panic_print`: the text is written only when the pointer is set.
     * The formatted text is taken as one `write_str` call; `write!` makes one
     * call per `Display` piece, which gives the same pixels, and the same
     * cursor while no piece stops past the bottom (`RunAppend`).
     */
    method DefaultPanicPrint(text: seq<bv8>, fonts: seq<seq<bv8>>)
      requires Valid() && Font.FontOk(fonts)
      modifies this, buffer
      ensures Valid() && config == old(config) && buffer == old(buffer)
      ensures old(config).None? ==> x == old(x) && y == old(y) && buffer[..] == old(buffer[..])
      ensures old(config).Some? ==>
        (Pos(x, y), buffer[..]) == WriteStrSpec(old(config).value, old(Pos(x, y)), old(buffer[..]), text, fonts)
    {
      if config.Some? {
        WriteStr(text, fonts);
      }
    }

    /** `write_str`: see `WriteStrSpec`. */
    method WriteStr(s: seq<bv8>, fonts: seq<seq<bv8>>)
      requires Valid() && config.Some? && Font.FontOk(fonts)
      modifies this, buffer
      ensures Valid() && config == old(config) && buffer == old(buffer)
      ensures (Pos(x, y), buffer[..]) == WriteStrSpec(config.value, old(Pos(x, y)), old(buffer[..]), s, fonts)
    {
      var cfg := config.value;
      if !Writer.Supported(cfg.pixelFormat) {
        return;
      }
      var hres, vres, ppsl := cfg.horizontalResolution, cfg.verticalResolution, cfg.pixelsPerScanLine;
      // The cursor is kept in a local during the loop and stored when it ends.
      var p := Pos(x, y);
      ghost var m0 := buffer[..];
      ghost var r0 := RunBytes(hres, vres, p, s);
      RunFits(cfg, buffer.Length, p, s);
      ghost var stopped := false;
      var i := 0;
      while i < |s|
        modifies buffer
        invariant i <= |s|
        invariant AllFit(ppsl, buffer.Length, RunBytes(hres, vres, p, s[i..]).glyphs)
        invariant RunBytes(hres, vres, p, s[i..]).pos == r0.pos
        invariant Draw(buffer[..], ppsl, fonts, RunBytes(hres, vres, p, s[i..]).glyphs)
          == Draw(m0, ppsl, fonts, r0.glyphs)
        decreases |s| - i
      {
        var q, stop := WriteByte(cfg, fonts, p, s, i);
        p := q;
        if stop {
          stopped := true;
          break;
        }
        i := i + 1;
      }
      if !stopped {
        assert s[i..] == [];
      }
      x, y := p.x, p.y;
    }

    /**
     * One pass of the byte loop, for byte `s[i]` at cursor `p`: the cursor
     * after it and whether the loop breaks there; the run from `p` is this
     * pass followed by the run from the new cursor.
     */
    method WriteByte(cfg: FrameBufferConfig, fonts: seq<seq<bv8>>, p: Pos, s: seq<bv8>, i: nat) returns (q: Pos, stop: bool)
      requires Writer.Supported(cfg.pixelFormat) && BufferFits(cfg, buffer.Length) && Font.FontOk(fonts) && i < |s|
      modifies buffer
      ensures var before := RunBytes(cfg.horizontalResolution, cfg.verticalResolution, p, s[i..]);
        var after := RunBytes(cfg.horizontalResolution, cfg.verticalResolution, q, s[i + 1..]);
        && AllFit(cfg.pixelsPerScanLine, buffer.Length, before.glyphs)
        && AllFit(cfg.pixelsPerScanLine, buffer.Length, after.glyphs)
        && (stop ==> before == Run(q, [], true) && buffer[..] == old(buffer[..]))
        && (!stop ==>
              && before.pos == after.pos
              && Draw(old(buffer[..]), cfg.pixelsPerScanLine, fonts, before.glyphs)
                 == Draw(buffer[..], cfg.pixelsPerScanLine, fonts, after.glyphs))
    {
      var hres, vres, ppsl := cfg.horizontalResolution, cfg.verticalResolution, cfg.pixelsPerScanLine;
      RunFits(cfg, buffer.Length, p, s[i..]);
      var c := s[i];
      if c == Font.NEWLINE {
        RunNewline(hres, vres, p, s, i);
        q := Pos(2, p.y + 16);
        RunFits(cfg, buffer.Length, q, s[i + 1..]);
        return q, false;
      }
      var w := Wrap(hres, p);
      if vres < w.y + 16 {
        RunStop(hres, vres, p, s, i);
        RunFits(cfg, buffer.Length, w, s[i + 1..]);
        return w, true;
      }
      RunDraw(hres, vres, p, s, i);
      q := Pos(w.x + 8, w.y);
      RunFits(cfg, buffer.Length, q, s[i + 1..]);
      if Font.Printable(c) {
        var g := Glyph(w.x, w.y, c);
        DrawFirst(buffer[..], ppsl, fonts, g, RunBytes(hres, vres, q, s[i + 1..]).glyphs);
        DrawGlyph(g, ppsl, fonts);
      } else {
        assert RunBytes(hres, vres, p, s[i..]).glyphs == RunBytes(hres, vres, q, s[i + 1..]).glyphs;
      }
      stop := false;
    }

    /** The two loops that draw one glyph: 16 rows of 8 words. */
    method DrawGlyph(g: Glyph, ppsl: nat, fonts: seq<seq<bv8>>)
      requires GlyphFits(ppsl, buffer.Length, g) && Font.FontOk(fonts)
      modifies buffer
      ensures buffer[..] == Words(old(buffer[..]), ppsl, fonts, g, 128)
    {
      ghost var m0 := buffer[..];
      var dy, k := 0, 0;
      while dy < 16
        invariant dy <= 16 && k == dy * 8
        invariant buffer[..] == Words(m0, ppsl, fonts, g, k)
      {
        DrawGlyphRow(g, ppsl, fonts, dy, k, m0);
        dy, k := dy + 1, k + 8;
      }
    }

    /** Row `dy` of a glyph, cells `k0..k0 + 8`: words `ppsl * (y + dy) + x + dx` for dx in 0..8. */
    method DrawGlyphRow(g: Glyph, ppsl: nat, fonts: seq<seq<bv8>>, dy: nat, k0: nat, ghost m0: seq<bv32>)
      requires GlyphFits(ppsl, |m0|, g) && Font.FontOk(fonts) && dy < 16 && k0 == dy * 8
      requires buffer[..] == Words(m0, ppsl, fonts, g, k0)
      modifies buffer
      ensures buffer[..] == Words(m0, ppsl, fonts, g, k0 + 8)
    {
      var row := fonts[g.c][dy];
      var dx, k := 0, k0;
      while dx < 8
        invariant dx <= 8 && k == k0 + dx
        invariant buffer[..] == Words(m0, ppsl, fonts, g, k)
      {
        var index := ppsl * (g.y + dy) + g.x + dx;
        WordsStep(m0, ppsl, fonts, g, dy, dx, k);
        if Font.GlyphBit(row, dx) {
          buffer[index] := 0xffffffff;
        } else {
          buffer[index] := 0;
        }
        dx, k := dx + 1, k + 1;
      }
    }
  }
}
