// kernel/src/mouse.rs: the mouse cursor. Its 12x14 picture is stored as
// `MOUSE_CURSOR`, two bits per pixel, and drawn into the cursor's own
// window; `mouse_handler` takes a report (buttons and a signed move),
// clamps the cursor to the screen, drags a window with the left button,
// and moves the cursor's window.
//
// The colours BLACK, WHITE and TRANSPARENT are defined in a file that is
// not part of this model and appear here as a `Palette`. Finding the window
// under the cursor (and whether it is draggable) is a window-manager query
// that is not part of this model either; its answer is a parameter.

module Mouse {
  import opened Common
  import Math
  import Graphics
  import Window
  import Allocator

  /** The cursor picture: 14 rows of 3 bytes, 4 pixels per byte, the leftmost pixel in the top two bits. */
  const MOUSE_CURSOR: seq<seq<bv8>> := [
    [64, 0, 0],
    [80, 0, 0],
    [100, 0, 0],
    [105, 0, 0],
    [106, 64, 0],
    [106, 144, 0],
    [106, 164, 0],
    [106, 169, 0],
    [106, 170, 64],
    [106, 170, 144],
    [106, 170, 164],
    [106, 165, 85],
    [105, 80, 0],
    [84, 0, 0]
  ]

  const WIDTH: nat := 12
  const HEIGHT: nat := 14

  /** The three colours of the cursor picture. */
  datatype Shade = Black | White | Transparent

  /** The window colours BLACK, WHITE and TRANSPARENT. */
  datatype Palette = Palette(black: Graphics.PixelColor, white: Graphics.PixelColor, transparent: Graphics.PixelColor)

  function Color(p: Palette, s: Shade): Graphics.PixelColor
  {
    match s
    case Black => p.black
    case White => p.white
    case Transparent => p.transparent
  }

  /**
   * The shade for the top two bits of `v` (`v & 0xc0`): 0x40 black, 0x80
   * white, 0x00 transparent; 0xc0 writes nothing.
   */
  function TopShade(v: bv8): (s: Option<Shade>)
    ensures s.None? <==> v & 0xc0 == 0xc0
  {
    var top := v & 0xc0;
    if top == 0x40 then Some(Black)
    else if top == 0x80 then Some(White)
    else if top == 0x00 then Some(Transparent)
    else None
  }

  /** Byte `b` after `i` of `draw_mouse_cursor`'s shifts left by 2. */
  function Shifted(b: bv8, i: nat): bv8
    requires i <= 4
  {
    if i == 0 then b else if i == 1 then b << 2 else if i == 2 then b << 4 else if i == 3 then b << 6 else 0
  }

  /** Shifting by 2 once more moves on to the next pixel's bits. */
  lemma ShiftOnce(b: bv8, i: nat)
    requires i < 4
    ensures Shifted(b, i) << 2 == Shifted(b, i + 1)
  {
    if i == 1 {
      assert (b << 2) << 2 == b << 4;
    } else if i == 2 {
      assert (b << 4) << 2 == b << 6;
    } else if i == 3 {
      assert (b << 6) << 2 == 0;
    }
  }

  /** The shade of pixel `i` (0..4) of byte `b`: its two bits after `b` was shifted left by 2 for each pixel before it. */
  function ByteShade(b: bv8, i: nat): Option<Shade>
    requires i < 4
  {
    TopShade(Shifted(b, i))
  }

  /** The two-bit code of pixel `i` of byte `b`, counted from the top bits. */
  function Code(b: bv8, i: nat): nat
    requires i < 4
  {
    var bits := if i == 0 then b >> 6 else if i == 1 then b >> 4 else if i == 2 then b >> 2 else b;
    (bits & 3) as nat
  }

  /** Decoding by shifts reads the codes from the top: 1 black, 2 white, 0 transparent, 3 nothing. */
  lemma ByteShadeIsCode(b: bv8, i: nat)
    requires i < 4
    ensures Code(b, i) == 1 <==> ByteShade(b, i) == Some(Black)
    ensures Code(b, i) == 2 <==> ByteShade(b, i) == Some(White)
    ensures Code(b, i) == 0 <==> ByteShade(b, i) == Some(Transparent)
    ensures Code(b, i) == 3 <==> ByteShade(b, i).None?
  {
    if i == 0 {
    } else if i == 1 {
      assert ((b << 2) & 0xc0 == 0x40) == ((b >> 4) & 3 == 1);
      assert ((b << 2) & 0xc0 == 0x80) == ((b >> 4) & 3 == 2);
      assert ((b << 2) & 0xc0 == 0x00) == ((b >> 4) & 3 == 0);
    } else if i == 2 {
      assert ((b << 4) & 0xc0 == 0x40) == ((b >> 2) & 3 == 1);
      assert ((b << 4) & 0xc0 == 0x80) == ((b >> 2) & 3 == 2);
      assert ((b << 4) & 0xc0 == 0x00) == ((b >> 2) & 3 == 0);
    } else {
      assert ((b << 6) & 0xc0 == 0x40) == (b & 3 == 1);
      assert ((b << 6) & 0xc0 == 0x80) == (b & 3 == 2);
      assert ((b << 6) & 0xc0 == 0x00) == (b & 3 == 0);
    }
  }

  /** A picture table: HEIGHT rows of 3 bytes. */
  predicate TableOk(t: seq<seq<bv8>>)
  {
    |t| == HEIGHT && forall r :: 0 <= r < |t| ==> |t[r]| == 3
  }

  /** The shade of pixel (x, y) of a picture: pixel x % 4 of byte x / 4 of row y. */
  function CursorShade(t: seq<seq<bv8>>, x: nat, y: nat): Option<Shade>
    requires TableOk(t) && x < WIDTH && y < HEIGHT
  {
    ByteShade(t[y][x / 4], x % 4)
  }

  /** The picture: its left column is black, the rows start with the tip's outline and white inside, and no pixel has code 3. */
  lemma CursorShape()
    ensures forall y :: 0 <= y < HEIGHT ==> CursorShade(MOUSE_CURSOR, 0, y) == Some(Black)
    ensures CursorShade(MOUSE_CURSOR, 1, 0) == Some(Transparent) && CursorShade(MOUSE_CURSOR, 1, 1) == Some(Black)
    ensures CursorShade(MOUSE_CURSOR, 1, 2) == Some(White)
    ensures forall x, y :: 0 <= x < WIDTH && 0 <= y < HEIGHT ==> CursorShade(MOUSE_CURSOR, x, y).Some?
  {
    CursorNoPair();
    forall x, y | 0 <= x < WIDTH && 0 <= y < HEIGHT ensures CursorShade(MOUSE_CURSOR, x, y).Some? {
      NoPairSet(MOUSE_CURSOR[y][x / 4], x % 4);
    }
  }

  /** No pixel of byte `b` has both of its bits set. */
  predicate NoPair(b: bv8) { b & (b >> 1) & 0x55 == 0 }

  /** The picture's bytes have no pixel with code 3. */
  lemma CursorNoPair()
    ensures forall r, k :: 0 <= r < HEIGHT && 0 <= k < 3 ==> NoPair(MOUSE_CURSOR[r][k])
  {
    forall r, k | 0 <= r < HEIGHT && 0 <= k < 3 ensures NoPair(MOUSE_CURSOR[r][k]) {
      var row := MOUSE_CURSOR[r];
      assert row[0] in {64, 80, 100, 105, 106, 84};
      assert row[1] in {0, 64, 144, 164, 169, 170, 165, 80};
      assert row[2] in {0, 64, 144, 164, 85};
    }
  }

  /** Such a byte has a shade for every pixel. */
  lemma NoPairSet(b: bv8, i: nat)
    requires i < 4 && NoPair(b)
    ensures ByteShade(b, i).Some?
  {
    ByteShadeIsCode(b, i);
  }

  /**
   * The window's pixels after the first `n` pixels of the picture (row by
   * row, left to right) were drawn: each of them has its shade's colour, and
   * every other pixel is as in `d`.
   */
  function Painted(d: Window.Grid, t: seq<seq<bv8>>, p: Palette, n: nat): (r: Window.Grid)
    requires Window.Shaped(d, WIDTH, HEIGHT) && TableOk(t)
    ensures Window.Shaped(r, WIDTH, HEIGHT)
  {
    seq(HEIGHT, y requires 0 <= y < HEIGHT =>
      seq(WIDTH, x requires 0 <= x < WIDTH =>
        if y * 12 + x < n && CursorShade(t, x, y).Some? then Color(p, CursorShade(t, x, y).value) else d[y][x]))
  }

  /** Drawing pixel (x, y), the next one in order, adds it to the painted ones. */
  lemma PaintedStep(d: Window.Grid, t: seq<seq<bv8>>, p: Palette, x: nat, y: nat, n: nat)
    requires Window.Shaped(d, WIDTH, HEIGHT) && TableOk(t) && x < WIDTH && y < HEIGHT && n == y * 12 + x
    ensures var before := Painted(d, t, p, n);
      Painted(d, t, p, n + 1) == if CursorShade(t, x, y).Some? then before[y := before[y][x := Color(p, CursorShade(t, x, y).value)]] else before
  {
    var before := Painted(d, t, p, n);
    var after := Painted(d, t, p, n + 1);
    if CursorShade(t, x, y).Some? {
      var want := before[y := before[y][x := Color(p, CursorShade(t, x, y).value)]];
      forall j | 0 <= j < HEIGHT ensures after[j] == want[j] {
        forall i | 0 <= i < WIDTH ensures after[j][i] == want[j][i] {
          PixelOrder(i, j, x, y);
        }
      }
    } else {
      forall j | 0 <= j < HEIGHT ensures after[j] == before[j] {
        forall i | 0 <= i < WIDTH ensures after[j][i] == before[j][i] {
          PixelOrder(i, j, x, y);
        }
      }
    }
  }

  /** Pixel (i, j) comes before, at or after pixel (x, y) in row-by-row order. */
  lemma PixelOrder(i: nat, j: nat, x: nat, y: nat)
    requires i < WIDTH && x < WIDTH
    ensures j * 12 + i == y * 12 + x <==> i == x && j == y
    ensures j * 12 + i < y * 12 + x <==> j < y || (j == y && i < x)
  {
    if j < y {
      assert j * 12 + 12 <= y * 12;
    } else if j > y {
      assert y * 12 + 12 <= j * 12;
    }
  }

  /** Before the first pixel nothing is painted. */
  lemma PaintedNone(d: Window.Grid, t: seq<seq<bv8>>, p: Palette)
    requires Window.Shaped(d, WIDTH, HEIGHT) && TableOk(t)
    ensures Painted(d, t, p, 0) == d
  {
    forall j | 0 <= j < HEIGHT ensures Painted(d, t, p, 0)[j] == d[j] {
      assert forall i :: 0 <= i < WIDTH ==> Painted(d, t, p, 0)[j][i] == d[j][i];
    }
  }

  /** The cursor drawn in full: each pixel of the window shows its shade's colour. */
  lemma CursorDrawn(d: Window.Grid, p: Palette)
    requires Window.Shaped(d, WIDTH, HEIGHT)
    ensures forall x, y :: 0 <= x < WIDTH && 0 <= y < HEIGHT ==>
      Painted(d, MOUSE_CURSOR, p, WIDTH * HEIGHT)[y][x] == Color(p, CursorShade(MOUSE_CURSOR, x, y).value)
  {
    CursorShape();
  }

  // ---- the report ----------------------------------------------------------------

  /** `Modifire`: bit 0 the left button, bit 1 the right one, bit 2 the centre one. */
  predicate LeftPressed(m: bv8) { m & 0x01 != 0 }
  predicate RightPressed(m: bv8) { m & 0x02 != 0 }
  predicate CenterPressed(m: bv8) { m & 0x04 != 0 }

  lemma ModifireBits(m: bv8)
    ensures LeftPressed(m) <==> m % 2 == 1
    ensures m & 0xf8 == 0 ==> (m == 0 <==> !LeftPressed(m) && !RightPressed(m) && !CenterPressed(m))
    ensures LeftPressed(1) && !RightPressed(1) && RightPressed(2) && !LeftPressed(2) && CenterPressed(4) && !LeftPressed(4)
  {
  }

  /** A signed 8-bit move. */
  type I8 = v: int | -128 <= v < 128

  /** The clamp of `mouse_handler`: below 0 becomes 0, at or past `limit` becomes `limit - 1`. */
  function Clamp(v: int, limit: nat): (r: nat)
    requires limit > 0
    ensures r < limit
    ensures 0 <= v < limit ==> r == v
    ensures v < 0 ==> r == 0
    ensures v >= limit ==> r == limit - 1
  {
    if v < 0 then 0 else if v >= limit then limit - 1 else v
  }

  /** The clamped position is the nearest one on the screen: no on-screen position is closer. */
  lemma ClampNearest(v: int, limit: nat, w: int)
    requires limit > 0 && 0 <= w < limit
    ensures var r := Clamp(v, limit);
      (if v >= r then v - r else r - v) <= (if v >= w then v - w else w - v)
  {
  }

  /**
   * The window being dragged after a report: on a press of the left
   * button the window found under the cursor, if it is draggable; while
   * the button is held the same one; on its release none.
   */
  function NextDrag<T>(prevLeft: bool, left: bool, dragging: Option<T>, found: Option<T>, draggable: bool): Option<T>
  {
    if !prevLeft && left then (if found.Some? && draggable then found else dragging)
    else if prevLeft && left then dragging
    else if prevLeft && !left then None
    else dragging
  }

  /** While the left button is up nothing is dragged, and a window is dragged only after a press that found a draggable one. */
  lemma NextDragKeeps<T>(prevLeft: bool, left: bool, dragging: Option<T>, found: Option<T>, draggable: bool)
    requires !prevLeft ==> dragging.None?
    ensures var next := NextDrag(prevLeft, left, dragging, found, draggable);
      && (!left ==> next.None?)
      && (!prevLeft && left ==> next == (if found.Some? && draggable then found else None))
      && (prevLeft && left ==> next == dragging)
  {
  }

  /** `MouseCursor`: the position, the screen size, the cursor's window, the last report and the window being dragged. */
  class MouseCursor {
    var posX: nat
    var posY: nat
    const screenX: nat
    const screenY: nat
    const window: Window.Window
    const windowId: nat
    var prevModifire: bv8
    var dragging: Option<Window.Window>

    /** On the screen; a window is dragged only with the left button down, and it is never the cursor's own window. */
    ghost predicate Valid()
      reads this
    {
      && posX < screenX && posY < screenY
      && (!LeftPressed(prevModifire) ==> dragging.None?)
      && (dragging.Some? ==> dragging.value != window)
    }

    /**
     * `MouseCursor::new`: the cursor's window (12x14, made by the window
     * manager) at (0, 0) on a screen of the given resolution, no buttons
     * down, nothing dragged, and the picture drawn.
     */
    constructor (window: Window.Window, screenX: nat, screenY: nat, p: Palette)
      requires window.Valid() && Window.Shaped(window.data, WIDTH, HEIGHT) && screenX > 0 && screenY > 0
      modifies window, window.shadow.bytes
      ensures Valid() && posX == 0 && posY == 0 && prevModifire == 0 && dragging == None
      ensures this.window == window && windowId == window.id && this.screenX == screenX && this.screenY == screenY
      ensures window.Valid() && window.data == Painted(old(window.data), MOUSE_CURSOR, p, WIDTH * HEIGHT)
    {
      posX, posY := 0, 0;
      this.screenX, this.screenY := screenX, screenY;
      this.window := window;
      windowId := window.id;
      prevModifire := 0;
      dragging := None;
      new;
      DrawMouseCursor(p);
    }

    /** `draw_mouse_cursor`: every pixel of the picture is written into the window, row by row. */
    method DrawMouseCursor(p: Palette)
      requires window.Valid() && Window.Shaped(window.data, WIDTH, HEIGHT)
      modifies window, window.shadow.bytes
      ensures window.Valid() && window.data == Painted(old(window.data), MOUSE_CURSOR, p, WIDTH * HEIGHT)
    {
      ghost var d0 := window.data;
      var t := MOUSE_CURSOR;
      PaintedNone(d0, t, p);
      ghost var n := 0;
      for col := 0 to HEIGHT
        invariant n == col * 12
        invariant window.Valid() && window.data == Painted(d0, t, p, n)
      {
        DrawLine(t, p, col, n, d0);
        n := n + 12;
      }
    }

    /** The middle loop: the 3 bytes of line `col`, pixels `n .. n + 12` in order. */
    method DrawLine(t: seq<seq<bv8>>, p: Palette, col: nat, ghost n: nat, ghost d0: Window.Grid)
      requires TableOk(t) && col < HEIGHT && n == col * 12 && Window.Shaped(d0, WIDTH, HEIGHT)
      requires window.Valid() && window.data == Painted(d0, t, p, n)
      modifies window, window.shadow.bytes
      ensures window.Valid() && window.data == Painted(d0, t, p, n + 12)
    {
      ghost var m := n;
      for row := 0 to 3
        invariant m == n + row * 4
        invariant window.Valid() && window.data == Painted(d0, t, p, m)
      {
        DrawByte(t, p, col, row, m, d0);
        m := m + 4;
      }
    }

    /** The innermost loop: the 4 pixels of byte `row` of line `col`, taken from the top bits as `v` shifts left. */
    method DrawByte(t: seq<seq<bv8>>, p: Palette, col: nat, row: nat, ghost n: nat, ghost d0: Window.Grid)
      requires TableOk(t) && col < HEIGHT && row < 3 && n == col * 12 + row * 4 && Window.Shaped(d0, WIDTH, HEIGHT)
      requires window.Valid() && window.data == Painted(d0, t, p, n)
      modifies window, window.shadow.bytes
      ensures window.Valid() && window.data == Painted(d0, t, p, n + 4)
    {
      var v := t[col][row];
      var i := 0;
      ghost var m := n;
      while i < 4
        invariant i <= 4 && m == n + i
        invariant window.Valid() && window.data == Painted(d0, t, p, m)
        invariant v == Shifted(t[col][row], i)
      {
        DrawPixel(t, p, row, i, col, v, m, d0);
        ShiftOnce(t[col][row], i);
        v := v << 2;
        i, m := i + 1, m + 1;
      }
    }

    /** One pass of the innermost loop: pixel (row * 4 + i, y), whose two bits are the top ones of `v`. */
    method DrawPixel(t: seq<seq<bv8>>, p: Palette, row: nat, i: nat, y: nat, v: bv8, ghost n: nat, ghost d0: Window.Grid)
      requires TableOk(t) && row < 3 && i < 4 && y < HEIGHT && n == y * 12 + row * 4 + i
      requires Window.Shaped(d0, WIDTH, HEIGHT) && v == Shifted(t[y][row], i)
      requires window.Valid() && window.data == Painted(d0, t, p, n)
      modifies window, window.shadow.bytes
      ensures window.Valid() && window.data == Painted(d0, t, p, n + 1)
    {
      var x := row * 4 + i;
      Allocator.DivModUnique(x, 4, row, i);
      PaintedStep(d0, t, p, x, y, n);
      assert CursorShade(t, x, y) == TopShade(v);
      if v & 0xc0 == 0x40 {
        window.Write(x, y, p.black);
      }
      if v & 0xc0 == 0x80 {
        window.Write(x, y, p.white);
      }
      if v & 0xc0 == 0x00 {
        window.Write(x, y, p.transparent);
      }
    }

    /**
     * `mouse_handler(modifire, move_x, move_y)`: the cursor moves by the
     * report, clamped to the screen; `diff` is the move actually made. The
     * left button's edges pick, move or drop the dragged window (`found`
     * and `draggable` are what the window manager answers for the window
     * under the new position, leaving out the cursor's own window). The
     * report is kept, and the cursor's window moves to the new position.
     */
    method MouseHandler(modifire: bv8, moveX: I8, moveY: I8, found: Option<Window.Window>, draggable: bool)
      requires Valid() && (found.Some? ==> found.value != window)
      modifies this, window, if dragging.Some? then {dragging.value} else {}
      ensures Valid()
      ensures posX == Clamp(old(posX) + moveX, screenX) && posY == Clamp(old(posY) + moveY, screenY)
      ensures prevModifire == modifire
      ensures dragging == NextDrag(LeftPressed(old(prevModifire)), LeftPressed(modifire), old(dragging), found, draggable)
      ensures window.area == Math.Rectangle(Math.Vector2D(posX, posY), old(window.area.size))
      ensures window.data == old(window.data)
      ensures old(dragging).Some? ==>
        var w := old(dragging).value;
        && (LeftPressed(old(prevModifire)) && LeftPressed(modifire) ==>
              w.area == Math.Rectangle(Math.Add(old(w.area).pos, Math.Vector2D(posX - old(posX), posY - old(posY))), old(w.area.size)))
        && (!(LeftPressed(old(prevModifire)) && LeftPressed(modifire)) ==> w.area == old(w.area))
        && w.data == old(w.data)
    {
      var x := Clamp(posX + moveX, screenX);
      var y := Clamp(posY + moveY, screenY);
      var diffX := x - posX;
      var diffY := y - posY;
      posX := x;
      posY := y;

      NextDragKeeps(LeftPressed(prevModifire), LeftPressed(modifire), dragging, found, draggable);
      UpdateDrag(LeftPressed(prevModifire), LeftPressed(modifire), diffX, diffY, found, draggable);
      prevModifire := modifire;
      var oldArea := window.MoveTo(x, y);
    }

    /**
     * The left button's part of `mouse_handler`: a press picks the window
     * found if it is draggable, holding the button moves the dragged window
     * by the cursor's move, a release drops it.
     */
    method UpdateDrag(prevLeft: bool, left: bool, diffX: int, diffY: int, found: Option<Window.Window>, draggable: bool)
      modifies this`dragging, if dragging.Some? then {dragging.value} else {}
      ensures dragging == NextDrag(prevLeft, left, old(dragging), found, draggable)
      ensures old(dragging).Some? ==>
        var w := old(dragging).value;
        && (prevLeft && left ==> w.area == Math.Rectangle(Math.Add(old(w.area).pos, Math.Vector2D(diffX, diffY)), old(w.area.size)))
        && (!(prevLeft && left) ==> w.area == old(w.area))
        && w.data == old(w.data)
    {
      if !prevLeft && left {
        if found.Some? && draggable {
          dragging := found;
        }
      } else if prevLeft && left {
        if dragging.Some? {
          dragging.value.MoveRelative(diffX, diffY);
        }
      } else if prevLeft && !left {
        dragging := None;
      }
    }
  }
}
