// kernel/src/console.rs: the kernel console, a grid of ROW x COL
// characters with a cursor. Bytes are stored in `buf` at the cursor; a
// newline, or a byte past the last column, moves to the next line, and on
// the last line the grid scrolls up by one row. Each stored byte is also
// drawn into the console's window; that drawing (glyph and background
// cells through `write_ascii` and `Window::write`) is not part of this
// model, which follows the grid and the cursor.

module Console {

  const ROW: nat := 45
  const COL: nat := 100
  const LAST_ROW: nat := ROW - 1
  /** The pixel margin around the text, used only by the drawing. */
  const MARGIN: nat := 4

  const NEWLINE: bv8 := 0x0a

  /** The character grid and the cursor (`cursor_row`, `cursor_col`). */
  datatype State = State(grid: seq<seq<bv8>>, row: nat, col: nat)

  /** ROW rows of COL characters. */
  predicate Shaped(g: seq<seq<bv8>>)
  {
    |g| == ROW && forall i :: 0 <= i < |g| ==> |g[i]| == COL
  }

  /** The console's invariant: the cursor is on a row of the grid, at most one past the last column. */
  predicate Ok(s: State)
  {
    Shaped(s.grid) && s.row < ROW && s.col <= COL
  }

  /** A row of `'\0'` characters. */
  function BlankRow(): (r: seq<bv8>)
    ensures |r| == COL && forall j :: 0 <= j < COL ==> r[j] == 0
  {
    seq(COL, _ => 0)
  }

  /** The grid scrolled up by one row: rows 1.. move up and the last row is blank. */
  function Scroll(g: seq<seq<bv8>>): (r: seq<seq<bv8>>)
    requires Shaped(g)
    ensures Shaped(r)
    ensures forall i :: 0 <= i < ROW - 1 ==> r[i] == g[i + 1]
    ensures r[ROW - 1] == BlankRow()
  {
    g[1..] + [BlankRow()]
  }

  /**
   * `new_line`: the column goes back to 0; below the last row the cursor
   * moves down a row, on the last row the grid scrolls instead.
   */
  function NewLineState(s: State): State
    requires Ok(s)
  {
    if s.row < ROW - 1 then State(s.grid, s.row + 1, 0)
    else State(Scroll(s.grid), s.row, 0)
  }

  /** `write_ascii_with_update`'s update of the grid: the byte at the cursor, which moves right. */
  function WriteAt(s: State, c: bv8): State
    requires Ok(s) && s.col < COL
  {
    State(s.grid[s.row := s.grid[s.row][s.col := c]], s.row, s.col + 1)
  }

  /**
   * One byte of `put_string`: a newline starts a new line; another byte is
   * written at the cursor, after a new line when the row is full.
   */
  function Put(s: State, c: bv8): (r: State)
    requires Ok(s)
    ensures Ok(r)
  {
    if c == NEWLINE then NewLineState(s)
    else if s.col < COL then WriteAt(s, c)
    else WriteAt(NewLineState(s), c)
  }

  /** The state after `put_string(str)`: one `Put` per byte. */
  function PutAll(s: State, str: seq<bv8>): (r: State)
    requires Ok(s)
    ensures Ok(r)
  {
    if str == [] then s else Put(PutAll(s, str[..|str| - 1]), str[|str| - 1])
  }

  /** A byte other than a newline can be read back just left of the new cursor. */
  lemma PutReadsBack(s: State, c: bv8)
    requires Ok(s) && c != NEWLINE
    ensures var r := Put(s, c);
      r.col >= 1 && r.grid[r.row][r.col - 1] == c
  {
  }

  /** A newline always ends at column 0, and moves down a row unless on the last row. */
  lemma NewLineMoves(s: State)
    requires Ok(s)
    ensures var r := Put(s, NEWLINE);
      && r.col == 0
      && r.row == (if s.row < ROW - 1 then s.row + 1 else ROW - 1)
      && (s.row < ROW - 1 ==> r.grid == s.grid)
  {
  }

  /**
   * Text written from the start of a line that fits on it (no newline, at
   * most COL bytes) lands on the cursor's row, byte for byte, and leaves
   * the cursor just after it.
   */
  lemma {:induction false} PutLine(s: State, str: seq<bv8>)
    requires Ok(s) && s.col == 0 && |str| <= COL
    requires forall i :: 0 <= i < |str| ==> str[i] != NEWLINE
    ensures var r := PutAll(s, str);
      && r.row == s.row && r.col == |str|
      && r.grid[r.row][..|str|] == str
      && r.grid[r.row][|str|..] == s.grid[s.row][|str|..]
      && forall i :: 0 <= i < ROW && i != s.row ==> r.grid[i] == s.grid[i]
  {
    if str != [] {
      var pre := str[..|str| - 1];
      PutLine(s, pre);
      var p := PutAll(s, pre);
      assert p.grid[p.row][..|pre|] == pre;
      var r := PutAll(s, str);
      assert r == WriteAt(p, str[|str| - 1]);
      assert r.grid[r.row][..|str|] == p.grid[p.row][..|pre|] + [str[|str| - 1]];
    }
  }

  /** The grid of a `[[char; COL]; ROW]` buffer, row by row. */
  function GridOf(buf: array2<bv8>): (g: seq<seq<bv8>>)
    reads buf
    ensures |g| == buf.Length0 && forall i :: 0 <= i < |g| ==> |g[i]| == buf.Length1
    ensures forall i, j :: 0 <= i < buf.Length0 && 0 <= j < buf.Length1 ==> g[i][j] == buf[i, j]
  {
    seq(buf.Length0, i requires 0 <= i < buf.Length0 reads buf =>
      seq(buf.Length1, j requires 0 <= j < buf.Length1 reads buf => buf[i, j]))
  }

  /** Two grids of the same shape that agree everywhere are equal. */
  lemma GridsEqual(a: seq<seq<bv8>>, b: seq<seq<bv8>>)
    requires |a| == |b| && forall i :: 0 <= i < |a| ==> |a[i]| == |b[i]|
    requires forall i, j :: 0 <= i < |a| && 0 <= j < |a[i]| ==> a[i][j] == b[i][j]
    ensures a == b
  {
    forall i | 0 <= i < |a| ensures a[i] == b[i] {
    }
  }

  /** `Console`: the character buffer and the cursor. */
  class Console {
    const buf: array2<bv8>
    var cursorRow: nat
    var cursorCol: nat

    ghost predicate Valid()
      reads this, buf
    {
      buf.Length0 == ROW && buf.Length1 == COL && Ok(StateOf())
    }

    function StateOf(): State
      reads this, buf
    {
      State(GridOf(buf), cursorRow, cursorCol)
    }

    /** `Console::new`: a grid of `'\0'` and the cursor at the top left. */
    constructor ()
      ensures Valid() && fresh(buf)
      ensures StateOf() == State(seq(ROW, _ => BlankRow()), 0, 0)
    {
      buf := new bv8[ROW, COL]((_, _) => 0);
      cursorRow, cursorCol := 0, 0;
      new;
      GridsEqual(GridOf(buf), seq(ROW, _ => BlankRow()));
    }

    /** `put_string`: the bytes one by one, see `Put`. */
    method PutString(s: seq<bv8>)
      requires Valid()
      modifies this, buf
      ensures Valid() && StateOf() == PutAll(old(StateOf()), s)
    {
      ghost var s0 := StateOf();
      for i := 0 to |s|
        invariant Valid() && StateOf() == PutAll(s0, s[..i])
      {
        assert s[..i + 1][..i] == s[..i];
        if s[i] == NEWLINE {
          NewLine();
        } else if cursorCol < COL {
          WriteAsciiWithUpdate(s[i]);
        } else {
          NewLine();
          WriteAsciiWithUpdate(s[i]);
        }
      }
      assert s[..|s|] == s;
    }

    /** `write_ascii_with_update`: the byte is stored at the cursor, which moves right. */
    method WriteAsciiWithUpdate(c: bv8)
      requires Valid() && cursorCol < COL
      modifies this, buf
      ensures Valid() && StateOf() == WriteAt(old(StateOf()), c)
    {
      ghost var g0 := GridOf(buf);
      buf[cursorRow, cursorCol] := c;
      GridsEqual(GridOf(buf), g0[cursorRow := g0[cursorRow][cursorCol := c]]);
      cursorCol := cursorCol + 1;
    }

    /**
     * `new_line`: back to column 0; down a row, or on the last row shift
     * rows 1.. up by one, in place, and blank the last row.
     */
    method NewLine()
      requires Valid()
      modifies this, buf
      ensures Valid() && StateOf() == NewLineState(old(StateOf()))
    {
      cursorCol := 0;
      if cursorRow < ROW - 1 {
        cursorRow := cursorRow + 1;
        return;
      }
      ghost var g0 := GridOf(buf);
      ShiftRows();
      ClearLastRow();
      GridsEqual(GridOf(buf), Scroll(g0));
    }

    /** The loops over rows 0..ROW-1: each row takes the next row's bytes. */
    method ShiftRows()
      requires buf.Length0 == ROW && buf.Length1 == COL
      modifies buf
      ensures forall i, j :: 0 <= i < ROW - 1 && 0 <= j < COL ==> buf[i, j] == old(buf[i + 1, j])
      ensures forall j :: 0 <= j < COL ==> buf[LAST_ROW, j] == old(buf[LAST_ROW, j])
    {
      for i := 0 to ROW - 1
        invariant forall r, j :: 0 <= r < i && 0 <= j < COL ==> buf[r, j] == old(buf[r + 1, j])
        invariant forall r, j :: i <= r < ROW && 0 <= j < COL ==> buf[r, j] == old(buf[r, j])
      {
        for j := 0 to COL
          invariant forall r, j' :: 0 <= r < i && 0 <= j' < COL ==> buf[r, j'] == old(buf[r + 1, j'])
          invariant forall j' :: 0 <= j' < j ==> buf[i, j'] == old(buf[i + 1, j'])
          invariant forall r, j' :: i < r < ROW && 0 <= j' < COL ==> buf[r, j'] == old(buf[r, j'])
          invariant forall j' :: j <= j' < COL ==> buf[i, j'] == old(buf[i, j'])
        {
          buf[i, j] := buf[i + 1, j];
        }
      }
    }

    /** The last loop of `new_line`: the last row becomes `'\0'`. */
    method ClearLastRow()
      requires buf.Length0 == ROW && buf.Length1 == COL
      modifies buf
      ensures forall i, j :: 0 <= i < ROW - 1 && 0 <= j < COL ==> buf[i, j] == old(buf[i, j])
      ensures forall j :: 0 <= j < COL ==> buf[LAST_ROW, j] == 0
    {
      for j := 0 to COL
        invariant forall i, j' :: 0 <= i < ROW - 1 && 0 <= j' < COL ==> buf[i, j'] == old(buf[i, j'])
        invariant forall j' :: 0 <= j' < j ==> buf[LAST_ROW, j'] == 0
      {
        buf[LAST_ROW, j] := 0;
      }
    }
  }
}
