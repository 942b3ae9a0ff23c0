// tools/mouse.py: the script that turns the cursor picture, drawn as text,
// into the table of the kernel's mouse cursor. Each row becomes three
// integers: character i of the row adds its code (' ' 0, '@' 1, anything
// else 2) to element i // 4 as `op << 2 | code`, which for the non-negative
// integers here is `op * 4 + code`. Printing the result is left out.

module MouseTool {
  import opened Common
  import Mouse
  import Allocator

  /** The picture in the script: '@' the outline, '.' the inside, ' ' see-through. */
  const GLYPH: seq<string> := [
    "@           ",
    "@@          ",
    "@.@         ",
    "@..@        ",
    "@...@       ",
    "@....@      ",
    "@.....@     ",
    "@......@    ",
    "@.......@   ",
    "@........@  ",
    "@.........@ ",
    "@.....@@@@@@",
    "@..@@@      ",
    "@@@         "
  ]

  /** The code of a character: ' ' 0, '@' 1, any other 2; 3 is never produced. */
  function CharCode(ch: char): (c: nat)
    ensures c < 3
    ensures c == 0 <==> ch == ' '
    ensures c == 1 <==> ch == '@'
  {
    if ch == ' ' then 0 else if ch == '@' then 1 else 2
  }

  /** The codes of `u` read as a base-4 number, the first character in the top digit. */
  function Digits(u: string): nat
  {
    if u == [] then 0 else Digits(u[..|u| - 1]) * 4 + CharCode(u[|u| - 1])
  }

  /** `op` after the first |s| characters of a row (at most 12). */
  function Ops(s: string): (op: seq<int>)
    requires |s| <= 12
    ensures |op| == 3
  {
    if s == [] then [0, 0, 0]
    else
      var o := Ops(s[..|s| - 1]);
      var k := (|s| - 1) / 4;
      o[k := o[k] * 4 + CharCode(s[|s| - 1])]
  }

  /** The script's output: a row longer than 12 characters indexes `op[3]` and raises IndexError. */
  function EncodeAll(rows: seq<string>): (r: Option<seq<seq<int>>>)
    ensures r.Some? <==> forall j :: 0 <= j < |rows| ==> |rows[j]| <= 12
    ensures r.Some? ==> |r.value| == |rows|
  {
    if forall j :: 0 <= j < |rows| ==> |rows[j]| <= 12 then
      Some(seq(|rows|, j requires 0 <= j < |rows| => Ops(rows[j])))
    else None
  }

  /** The loops of the script: `op` starts as [0, 0, 0] for each row and is appended to the output. */
  method Encode(rows: seq<string>) returns (output: Option<seq<seq<int>>>)
    ensures output == EncodeAll(rows)
  {
    var out: seq<seq<int>> := [];
    for r := 0 to |rows|
      invariant forall j :: 0 <= j < r ==> |rows[j]| <= 12
      invariant |out| == r && forall j :: 0 <= j < r ==> out[j] == Ops(rows[j])
    {
      var s := rows[r];
      var op := [0, 0, 0];
      for i := 0 to |s|
        invariant i <= 12 && op == Ops(s[..i])
      {
        var idx := i / 4;
        if idx >= 3 {
          assert !(|rows[r]| <= 12);
          return None;
        }
        assert s[..i + 1][..i] == s[..i];
        op := op[idx := op[idx] * 4 + CharCode(s[i])];
      }
      assert s[..|s|] == s;
      out := out + [op];
    }
    assert out == seq(|rows|, j requires 0 <= j < |rows| => Ops(rows[j]));
    output := Some(out);
  }

  /** The characters of group `k` of `s`: indices 4k up to 4k + 4, as far as `s` goes. */
  function Group(s: string, k: nat): string
  {
    var lo := if 4 * k <= |s| then 4 * k else |s|;
    var hi := if 4 * k + 4 <= |s| then 4 * k + 4 else |s|;
    s[lo..hi]
  }

  /** Element k of `op` is the base-4 number of group k: the leftmost character of each group ends in the top bits. */
  lemma {:induction false} OpsGroups(s: string)
    requires |s| <= 12
    ensures forall k :: 0 <= k < 3 ==> Ops(s)[k] == Digits(Group(s, k))
  {
    if s != [] {
      var pre := s[..|s| - 1];
      OpsGroups(pre);
      var last := (|s| - 1) / 4;
      forall k | 0 <= k < 3 ensures Ops(s)[k] == Digits(Group(s, k)) {
        GroupStep(s, k);
        if k == last {
          var u := Group(s, k);
          assert u[..|u| - 1] == Group(pre, k);
        }
      }
    }
  }

  /** One more character joins the last group and leaves the others as they were. */
  lemma GroupStep(s: string, k: nat)
    requires 0 < |s| <= 12 && k < 3
    ensures var pre := s[..|s| - 1];
      && (k == (|s| - 1) / 4 ==> Group(s, k) == Group(pre, k) + [s[|s| - 1]])
      && (k != (|s| - 1) / 4 ==> Group(s, k) == Group(pre, k))
  {
    var n := |s| - 1;
    var pre := s[..n];
    var last := n / 4;
    assert 4 * last <= n < 4 * last + 4;
    if k == last {
      assert Group(s, k) == s[4 * k..n + 1];
      assert Group(pre, k) == s[4 * k..n];
    } else if k < last {
      assert Group(s, k) == s[4 * k..4 * k + 4] == Group(pre, k);
    } else {
      assert |Group(s, k)| == 0 && |Group(pre, k)| == 0;
    }
  }

  /** A number of n base-4 digits is below 4^n; with at most 4 digits it fits a byte. */
  lemma {:induction false} DigitsBound(u: string)
    requires |u| <= 4
    ensures Digits(u) < Pow4(|u|) <= 256
  {
    if u != [] {
      DigitsBound(u[..|u| - 1]);
    }
  }

  function Pow4(n: nat): nat
  {
    if n == 0 then 1 else 4 * Pow4(n - 1)
  }

  /** For rows of at most 12 characters each element of the output is a byte, below 256. */
  lemma EncodeBytes(rows: seq<string>)
    requires EncodeAll(rows).Some?
    ensures forall j, k :: 0 <= j < |rows| && 0 <= k < 3 ==> 0 <= EncodeAll(rows).value[j][k] < 256
  {
    forall j, k | 0 <= j < |rows| && 0 <= k < 3 ensures 0 <= EncodeAll(rows).value[j][k] < 256 {
      OpsGroups(rows[j]);
      DigitsBound(Group(rows[j], k));
    }
  }

  /** Four characters as one byte's value. */
  lemma DigitsFour(u: string)
    requires |u| == 4
    ensures Digits(u) == CharCode(u[0]) * 64 + CharCode(u[1]) * 16 + CharCode(u[2]) * 4 + CharCode(u[3])
  {
    assert u[..1][..0] == [];
    assert Digits(u[..1]) == CharCode(u[0]);
    assert u[..2][..1] == u[..1];
    assert Digits(u[..2]) == CharCode(u[0]) * 4 + CharCode(u[1]);
    assert u[..3][..2] == u[..2];
    assert Digits(u[..3]) == CharCode(u[0]) * 16 + CharCode(u[1]) * 4 + CharCode(u[2]);
    assert u[..4][..3] == u[..3];
    assert u[..4] == u;
  }

  /** A full row: element k is the byte made of characters 4k..4k+4. */
  lemma FullRow(s: string)
    requires |s| == 12
    ensures forall k :: 0 <= k < 3 ==>
      Ops(s)[k] == CharCode(s[4 * k]) * 64 + CharCode(s[4 * k + 1]) * 16 + CharCode(s[4 * k + 2]) * 4 + CharCode(s[4 * k + 3])
  {
    OpsGroups(s);
    forall k | 0 <= k < 3
      ensures Ops(s)[k] == CharCode(s[4 * k]) * 64 + CharCode(s[4 * k + 1]) * 16 + CharCode(s[4 * k + 2]) * 4 + CharCode(s[4 * k + 3])
    {
      DigitsFour(Group(s, k));
    }
  }

  /** Two example rows: one with only the tip, and one with the outline coming back. */
  lemma EncodeExamples()
    ensures Ops("            ") == [0, 0, 0]
    ensures Ops("@           ") == [64, 0, 0]
    ensures Ops("@.....@@@@@@") == [106, 165, 85]
  {
    FullRow("            ");
    FullRow("@           ");
    FullRow("@.....@@@@@@");
  }

  /** The kernel's table, as integers. */
  function CursorTable(): (t: seq<seq<int>>)
    ensures |t| == Mouse.HEIGHT
  {
    seq(Mouse.HEIGHT, j requires 0 <= j < Mouse.HEIGHT => Widen(Mouse.MOUSE_CURSOR[j]))
  }

  /** Three bytes as integers. */
  function Widen(t: seq<bv8>): (r: seq<int>)
    requires |t| == 3
    ensures |r| == 3 && forall k :: 0 <= k < 3 ==> r[k] == t[k] as int
  {
    [t[0] as int, t[1] as int, t[2] as int]
  }

  /** A full row whose characters spell out the values in `t` encodes to `t`. */
  lemma RowEncodes(s: string, t: seq<int>)
    requires |s| == 12 && |t| == 3
    requires t[0] == CharCode(s[0]) * 64 + CharCode(s[1]) * 16 + CharCode(s[2]) * 4 + CharCode(s[3])
    requires t[1] == CharCode(s[4]) * 64 + CharCode(s[5]) * 16 + CharCode(s[6]) * 4 + CharCode(s[7])
    requires t[2] == CharCode(s[8]) * 64 + CharCode(s[9]) * 16 + CharCode(s[10]) * 4 + CharCode(s[11])
    ensures Ops(s) == t
  {
    FullRow(s);
    assert Ops(s)[0] == t[0] && Ops(s)[1] == t[1] && Ops(s)[2] == t[2];
  }

  /** Rows 0 to 4 of the picture encode to the kernel's rows. */
  lemma GlyphRowsTop()
    ensures forall j :: 0 <= j < 5 ==> |GLYPH[j]| == 12 && Ops(GLYPH[j]) == CursorTable()[j]
  {
    assert |GLYPH[0]| == 12 && Ops(GLYPH[0]) == CursorTable()[0] by {
      assert GLYPH[0] == "@           " && CursorTable()[0] == [64, 0, 0];
      RowEncodes("@           ", [64, 0, 0]);
    }
    assert |GLYPH[1]| == 12 && Ops(GLYPH[1]) == CursorTable()[1] by {
      assert GLYPH[1] == "@@          " && CursorTable()[1] == [80, 0, 0];
      RowEncodes("@@          ", [80, 0, 0]);
    }
    assert |GLYPH[2]| == 12 && Ops(GLYPH[2]) == CursorTable()[2] by {
      assert GLYPH[2] == "@.@         " && CursorTable()[2] == [100, 0, 0];
      RowEncodes("@.@         ", [100, 0, 0]);
    }
    assert |GLYPH[3]| == 12 && Ops(GLYPH[3]) == CursorTable()[3] by {
      assert GLYPH[3] == "@..@        " && CursorTable()[3] == [105, 0, 0];
      RowEncodes("@..@        ", [105, 0, 0]);
    }
    assert |GLYPH[4]| == 12 && Ops(GLYPH[4]) == CursorTable()[4] by {
      assert GLYPH[4] == "@...@       " && CursorTable()[4] == [106, 64, 0];
      RowEncodes("@...@       ", [106, 64, 0]);
    }
  }

  /** Rows 5 to 9. */
  lemma GlyphRowsMiddle()
    ensures forall j :: 5 <= j < 10 ==> |GLYPH[j]| == 12 && Ops(GLYPH[j]) == CursorTable()[j]
  {
    assert |GLYPH[5]| == 12 && Ops(GLYPH[5]) == CursorTable()[5] by {
      assert GLYPH[5] == "@....@      " && CursorTable()[5] == [106, 144, 0];
      RowEncodes("@....@      ", [106, 144, 0]);
    }
    assert |GLYPH[6]| == 12 && Ops(GLYPH[6]) == CursorTable()[6] by {
      assert GLYPH[6] == "@.....@     " && CursorTable()[6] == [106, 164, 0];
      RowEncodes("@.....@     ", [106, 164, 0]);
    }
    assert |GLYPH[7]| == 12 && Ops(GLYPH[7]) == CursorTable()[7] by {
      assert GLYPH[7] == "@......@    " && CursorTable()[7] == [106, 169, 0];
      RowEncodes("@......@    ", [106, 169, 0]);
    }
    assert |GLYPH[8]| == 12 && Ops(GLYPH[8]) == CursorTable()[8] by {
      assert GLYPH[8] == "@.......@   " && CursorTable()[8] == [106, 170, 64];
      RowEncodes("@.......@   ", [106, 170, 64]);
    }
    assert |GLYPH[9]| == 12 && Ops(GLYPH[9]) == CursorTable()[9] by {
      assert GLYPH[9] == "@........@  " && CursorTable()[9] == [106, 170, 144];
      RowEncodes("@........@  ", [106, 170, 144]);
    }
  }

  /** Rows 10 to 13. */
  lemma GlyphRowsBottom()
    ensures forall j :: 10 <= j < 14 ==> |GLYPH[j]| == 12 && Ops(GLYPH[j]) == CursorTable()[j]
  {
    assert |GLYPH[10]| == 12 && Ops(GLYPH[10]) == CursorTable()[10] by {
      assert GLYPH[10] == "@.........@ " && CursorTable()[10] == [106, 170, 164];
      RowEncodes("@.........@ ", [106, 170, 164]);
    }
    assert |GLYPH[11]| == 12 && Ops(GLYPH[11]) == CursorTable()[11] by {
      assert GLYPH[11] == "@.....@@@@@@" && CursorTable()[11] == [106, 165, 85];
      RowEncodes("@.....@@@@@@", [106, 165, 85]);
    }
    assert |GLYPH[12]| == 12 && Ops(GLYPH[12]) == CursorTable()[12] by {
      assert GLYPH[12] == "@..@@@      " && CursorTable()[12] == [105, 80, 0];
      RowEncodes("@..@@@      ", [105, 80, 0]);
    }
    assert |GLYPH[13]| == 12 && Ops(GLYPH[13]) == CursorTable()[13] by {
      assert GLYPH[13] == "@@@         " && CursorTable()[13] == [84, 0, 0];
      RowEncodes("@@@         ", [84, 0, 0]);
    }
  }

  /** The script's output for its picture is the kernel's `MOUSE_CURSOR`, row for row. */
  lemma GlyphIsCursorTable()
    ensures EncodeAll(GLYPH) == Some(CursorTable())
  {
    GlyphRowsTop();
    GlyphRowsMiddle();
    GlyphRowsBottom();
    assert EncodeAll(GLYPH).value == CursorTable();
  }

  /** The shade the cursor picture means by a character. */
  function CharShade(ch: char): Mouse.Shade
  {
    if ch == ' ' then Mouse.Transparent else if ch == '@' then Mouse.Black else Mouse.White
  }

  /** The decoder's two-bit code of pixel i of a byte: digit i of its value in base 4, from the top. */
  lemma CodeOfValue(b: bv8, c0: nat, c1: nat, c2: nat, c3: nat)
    requires c0 < 4 && c1 < 4 && c2 < 4 && c3 < 4
    requires b as int == c0 * 64 + c1 * 16 + c2 * 4 + c3
    ensures Mouse.Code(b, 0) == c0 && Mouse.Code(b, 1) == c1 && Mouse.Code(b, 2) == c2 && Mouse.Code(b, 3) == c3
  {
    Base4(c0, c1, c2, c3);
    Digit0(b);
    Digit1(b);
    Digit2(b);
    Digit3(b);
  }

  /** The base-4 digits of a byte value, by integer division. */
  lemma Base4(c0: nat, c1: nat, c2: nat, c3: nat)
    requires c0 < 4 && c1 < 4 && c2 < 4 && c3 < 4
    ensures var v := c0 * 64 + c1 * 16 + c2 * 4 + c3;
      v / 64 == c0 && v / 16 % 4 == c1 && v / 4 % 4 == c2 && v % 4 == c3
  {
    var v := c0 * 64 + c1 * 16 + c2 * 4 + c3;
    Allocator.DivModUnique(v, 64, c0, c1 * 16 + c2 * 4 + c3);
    Allocator.DivModUnique(v, 16, c0 * 4 + c1, c2 * 4 + c3);
    Allocator.DivModUnique(c0 * 4 + c1, 4, c0, c1);
    Allocator.DivModUnique(v, 4, c0 * 16 + c1 * 4 + c2, c3);
    Allocator.DivModUnique(c0 * 16 + c1 * 4 + c2, 4, c0 * 4 + c1, c2);
  }

  lemma Digit0(b: bv8)
    ensures ((b >> 6) & 3) as int == (b as int) / 64
  {
  }

  lemma Digit1(b: bv8)
    ensures ((b >> 4) & 3) as int == (b as int) / 16 % 4
  {
    ShiftDivides4(b);
    LowBits(b >> 4);
  }

  lemma Digit2(b: bv8)
    ensures ((b >> 2) & 3) as int == (b as int) / 4 % 4
  {
    ShiftDivides2(b);
    LowBits(b >> 2);
  }

  lemma Digit3(b: bv8)
    ensures (b & 3) as int == (b as int) % 4
  {
    LowBits(b);
  }

  lemma ShiftDivides2(b: bv8)
    ensures (b >> 2) as int == (b as int) / 4
  {
  }

  lemma ShiftDivides4(b: bv8)
    ensures (b >> 4) as int == (b as int) / 16
  {
  }

  lemma LowBits(b: bv8)
    ensures (b & 3) as int == (b as int) % 4
  {
  }

  /**
   * The round trip: each element of a full row's output fits a byte, and
   * decoding that byte the way `draw_mouse_cursor` does gives back the
   * picture, '@' black, ' ' transparent, and any other character white.
   */
  lemma RoundTrip(s: string)
    requires |s| == 12
    ensures forall k :: 0 <= k < 3 ==> 0 <= Ops(s)[k] < 256
    ensures forall x, b: bv8 :: 0 <= x < 12 && b as int == Ops(s)[x / 4] ==>
      Mouse.ByteShade(b, x % 4) == Some(CharShade(s[x]))
  {
    forall k | 0 <= k < 3 ensures 0 <= Ops(s)[k] < 256 {
      FullRow(s);
    }
    forall x, b: bv8 | 0 <= x < 12 && b as int == Ops(s)[x / 4]
      ensures Mouse.ByteShade(b, x % 4) == Some(CharShade(s[x]))
    {
      PixelRoundTrip(s, x / 4, x % 4, b);
    }
  }

  /** One pixel of the round trip: pixel i of byte k, whose value is `b`. */
  lemma PixelRoundTrip(s: string, k: nat, i: nat, b: bv8)
    requires |s| == 12 && k < 3 && i < 4 && b as int == Ops(s)[k]
    ensures Mouse.ByteShade(b, i) == Some(CharShade(s[4 * k + i]))
  {
    CodesAt(s, k, b);
    if i == 0 {
      Mouse.ByteShadeIsCode(b, 0);
    } else if i == 1 {
      Mouse.ByteShadeIsCode(b, 1);
    } else if i == 2 {
      Mouse.ByteShadeIsCode(b, 2);
    } else {
      Mouse.ByteShadeIsCode(b, 3);
    }
  }

  /** The decoder's codes for the four pixels of byte k of a full row are the codes of characters 4k..4k+4. */
  lemma CodesAt(s: string, k: nat, b: bv8)
    requires |s| == 12 && k < 3 && b as int == Ops(s)[k]
    ensures && Mouse.Code(b, 0) == CharCode(s[4 * k])
            && Mouse.Code(b, 1) == CharCode(s[4 * k + 1])
            && Mouse.Code(b, 2) == CharCode(s[4 * k + 2])
            && Mouse.Code(b, 3) == CharCode(s[4 * k + 3])
  {
    var c0, c1, c2, c3 := CharCode(s[4 * k]), CharCode(s[4 * k + 1]), CharCode(s[4 * k + 2]), CharCode(s[4 * k + 3]);
    assert Ops(s)[k] == c0 * 64 + c1 * 16 + c2 * 4 + c3 by {
      FullRow(s);
    }
    CodeOfValue(b, c0, c1, c2, c3);
  }

  /** The round trip needs full rows: a shorter row's last group sits in the low bits, so "@@" decodes as see-through first. */
  lemma ShortRowShifts()
    ensures Ops("@@") == [5, 0, 0]
    ensures Mouse.ByteShade(5, 0) == Some(Mouse.Transparent) && CharShade('@') == Mouse.Black
  {
    assert "@@"[..1] == "@";
    assert "@"[..0] == "";
  }
}
