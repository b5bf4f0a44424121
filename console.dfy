/**
  The screen as a value: the cursor column and the 25 x 80 grid of cells,
  and the effect of each writer operation on it. The `Writer` class in
  writer.dfy is proved to change its array exactly as these functions say.
 */
module Console {
  import opened Cell

  const Height: nat := 25
  const Width: nat := 80
  /** The row every byte is written to (`BUFFER_HEIGHT - 1`). */
  const Bottom: nat := Height - 1

  const Newline: byte := 0x0A
  const Space: byte := 0x20
  /** The glyph shown for a byte the screen cannot display (a solid block). */
  const Placeholder: byte := 0xFE

  type Row = seq<ScreenChar>
  type Grid = seq<Row>

  predicate IsGrid(g: Grid)
  {
    |g| == Height && forall r :: 0 <= r < |g| ==> |g[r]| == Width
  }

  /** What the writer owns: the column cursor on the bottom row and the grid. */
  datatype Screen = Screen(column: nat, rows: Grid)

  /** The cursor never passes the right edge, so every write lands inside the grid. */
  predicate WellFormed(s: Screen)
  {
    IsGrid(s.rows) && s.column <= Width
  }

  function Blank(color: ColorCode): ScreenChar
  {
    ScreenChar(Space, color)
  }

  function BlankRow(color: ColorCode): (row: Row)
    ensures |row| == Width
    ensures forall c :: 0 <= c < Width ==> row[c] == Blank(color)
  {
    seq(Width, _ => Blank(color))
  }

  /** Printable ASCII, 0x20 through 0x7E. */
  predicate Printable(b: byte)
  {
    0x20 <= b <= 0x7E
  }

  /**
    The substitution policy of `write_string`: printable ASCII and newline
    pass, any other byte is shown as the placeholder.
   */
  function Filter(b: byte): (r: byte)
    ensures r == b <==> Printable(b) || b == Newline || b == Placeholder
    ensures r != b ==> r == Placeholder
    ensures r == Newline <==> b == Newline
  {
    if Printable(b) || b == Newline then b else Placeholder
  }

  /** The bytes `write_string` hands to `write_byte`, in order. */
  function Sanitize(text: seq<byte>): (r: seq<byte>)
    ensures |r| == |text|
    ensures forall i :: 0 <= i < |r| ==> Printable(r[i]) || r[i] == Newline || r[i] == Placeholder
  {
    seq(|text|, i requires 0 <= i < |text| => Filter(text[i]))
  }

  /** `clear_row`: row `row` becomes blanks in the given colour. */
  function ClearRow(g: Grid, row: nat, color: ColorCode): (r: Grid)
    requires IsGrid(g) && row < Height
    ensures IsGrid(r)
    ensures r[row] == BlankRow(color)
    ensures forall i :: 0 <= i < Height && i != row ==> r[i] == g[i]
  {
    g[row := BlankRow(color)]
  }

  /**
    The copying loop of `new_line`: row r-1 receives row r for r = 1..24 in
    increasing order, so each row is read before it is overwritten; the
    bottom row keeps its old contents.
   */
  function Shifted(g: Grid): (r: Grid)
    requires IsGrid(g)
    ensures IsGrid(r)
    ensures forall i :: 0 <= i < Height - 1 ==> r[i] == g[i + 1]
    ensures r[Bottom] == g[Bottom]
  {
    g[1..] + [g[Bottom]]
  }

  /** `new_line`: scroll up by one row, blank the bottom row, column 0. */
  function NewLine(s: Screen, color: ColorCode): (r: Screen)
    requires IsGrid(s.rows)
    ensures WellFormed(r)
    ensures r.column == 0
    ensures forall i :: 0 <= i < Height - 1 ==> r.rows[i] == s.rows[i + 1]
    ensures r.rows[Bottom] == BlankRow(color)
  {
    Screen(0, ClearRow(Shifted(s.rows), Bottom, color))
  }

  /** The grid with one cell replaced. */
  function Put(g: Grid, row: nat, col: nat, ch: ScreenChar): (r: Grid)
    requires IsGrid(g) && row < Height && col < Width
    ensures IsGrid(r)
    ensures r[row][col] == ch
    ensures forall i, c :: 0 <= i < Height && 0 <= c < Width && (i, c) != (row, col) ==> r[i][c] == g[i][c]
  {
    g[row := g[row][col := ch]]
  }

  /**
    `write_byte`: a newline scrolls; any other byte first wraps (scrolls)
    when the row is full, then lands at the bottom row and the cursor
    column, and the cursor advances.
   */
  function WriteByte(s: Screen, color: ColorCode, b: byte): (r: Screen)
    requires WellFormed(s)
    ensures WellFormed(r)
    ensures b == Newline ==>
      r.column == 0 &&
      (forall i :: 0 <= i < Height - 1 ==> r.rows[i] == s.rows[i + 1]) &&
      r.rows[Bottom] == BlankRow(color)
    ensures b != Newline && s.column < Width ==>
      r.column == s.column + 1 &&
      r.rows[Bottom][s.column] == ScreenChar(b, color) &&
      forall i, c :: 0 <= i < Height && 0 <= c < Width && (i, c) != (Bottom, s.column) ==>
        r.rows[i][c] == s.rows[i][c]
    ensures b != Newline && s.column >= Width ==>
      r.column == 1 &&
      (forall i :: 0 <= i < Height - 1 ==> r.rows[i] == s.rows[i + 1]) &&
      r.rows[Bottom][0] == ScreenChar(b, color) &&
      forall c :: 1 <= c < Width ==> r.rows[Bottom][c] == Blank(color)
  {
    if b == Newline then
      NewLine(s, color)
    else
      var t := if s.column >= Width then NewLine(s, color) else s;
      Screen(t.column + 1, Put(t.rows, Bottom, t.column, ScreenChar(b, color)))
  }

  /** The bytes handed to `write_byte` one after the other. */
  function WriteBytes(s: Screen, color: ColorCode, bs: seq<byte>): (r: Screen)
    requires WellFormed(s)
    ensures WellFormed(r)
    decreases |bs|
  {
    if bs == [] then s
    else WriteByte(WriteBytes(s, color, bs[..|bs| - 1]), color, bs[|bs| - 1])
  }

  /** `write_string`: every byte, filtered, in order, through `write_byte`. */
  function WriteString(s: Screen, color: ColorCode, text: seq<byte>): (r: Screen)
    requires WellFormed(s)
    ensures WellFormed(r)
  {
    WriteBytes(s, color, Sanitize(text))
  }

  /** Writing two pieces one after the other is writing their concatenation. */
  lemma {:induction false} WriteBytesAppend(s: Screen, color: ColorCode, a: seq<byte>, b: seq<byte>)
    requires WellFormed(s)
    ensures WriteBytes(s, color, a + b) == WriteBytes(WriteBytes(s, color, a), color, b)
    decreases |b|
  {
    if b == [] {
      assert a + b == a;
    } else {
      assert (a + b)[..|a + b| - 1] == a + b[..|b| - 1];
      WriteBytesAppend(s, color, a, b[..|b| - 1]);
    }
  }

  /** `write_string` of a concatenation is `write_string` of each piece in turn. */
  lemma WriteStringAppend(s: Screen, color: ColorCode, a: seq<byte>, b: seq<byte>)
    requires WellFormed(s)
    ensures WriteString(s, color, a + b) == WriteString(WriteString(s, color, a), color, b)
  {
    assert Sanitize(a + b) == Sanitize(a) + Sanitize(b);
    WriteBytesAppend(s, color, Sanitize(a), Sanitize(b));
  }

  /** `write_string` hands each byte, filtered, to `write_byte` after the bytes before it. */
  lemma WriteStringSnoc(s: Screen, color: ColorCode, text: seq<byte>, x: byte)
    requires WellFormed(s)
    ensures WriteString(s, color, text + [x]) == WriteByte(WriteString(s, color, text), color, Filter(x))
  {
    WriteStringAppend(s, color, text, [x]);
    assert Sanitize([x]) == [Filter(x)];
    assert [Filter(x)][..0] == [];
    var t := WriteString(s, color, text);
    assert WriteBytes(t, color, [Filter(x)]) == WriteByte(WriteBytes(t, color, []), color, Filter(x));
  }

  /**
    Bytes other than newline written while the row has room fill the bottom
    row left to right from the cursor; no other cell changes and nothing
    scrolls.
   */
  lemma {:induction false} FillRow(s: Screen, color: ColorCode, bs: seq<byte>)
    requires WellFormed(s)
    requires s.column + |bs| <= Width
    requires forall j :: 0 <= j < |bs| ==> bs[j] != Newline
    ensures WriteBytes(s, color, bs).column == s.column + |bs|
    ensures forall j :: 0 <= j < |bs| ==>
      WriteBytes(s, color, bs).rows[Bottom][s.column + j] == ScreenChar(bs[j], color)
    ensures forall i, c ::
      (0 <= i < Height && 0 <= c < Width && !(i == Bottom && s.column <= c < s.column + |bs|)) ==>
        WriteBytes(s, color, bs).rows[i][c] == s.rows[i][c]
    decreases |bs|
  {
    if bs != [] {
      var n := |bs|;
      var front := bs[..n - 1];
      FillRow(s, color, front);
      var t := WriteBytes(s, color, front);
      var r := WriteByte(t, color, bs[n - 1]);
      assert r == WriteBytes(s, color, bs);
      forall j | 0 <= j < n
        ensures r.rows[Bottom][s.column + j] == ScreenChar(bs[j], color)
      {
        if j < n - 1 {
          assert front[j] == bs[j];
        }
      }
    }
  }

  /**
    From column 0, 80 bytes fill the bottom row without scrolling; the 81st
    scrolls exactly once and lands at column 0 of the fresh bottom row.
   */
  lemma WrapOnFullRow(s: Screen, color: ColorCode, bs: seq<byte>)
    requires WellFormed(s) && s.column == 0
    requires |bs| == Width + 1
    requires forall j :: 0 <= j < |bs| ==> bs[j] != Newline
    ensures WriteBytes(s, color, bs[..Width]).column == Width
    ensures forall i :: 0 <= i < Height - 1 ==> WriteBytes(s, color, bs[..Width]).rows[i] == s.rows[i]
    ensures WriteBytes(s, color, bs).column == 1
    ensures forall i :: 0 <= i < Height - 2 ==> WriteBytes(s, color, bs).rows[i] == s.rows[i + 1]
    ensures forall c :: 0 <= c < Width ==> WriteBytes(s, color, bs).rows[Height - 2][c] == ScreenChar(bs[c], color)
    ensures WriteBytes(s, color, bs).rows[Bottom][0] == ScreenChar(bs[Width], color)
    ensures forall c :: 1 <= c < Width ==> WriteBytes(s, color, bs).rows[Bottom][c] == Blank(color)
  {
    var front := bs[..Width];
    FillRow(s, color, front);
    var t := WriteBytes(s, color, front);
    forall i | 0 <= i < Height - 1
      ensures t.rows[i] == s.rows[i]
    {
      assert forall c :: 0 <= c < Width ==> t.rows[i][c] == s.rows[i][c];
    }
    assert bs[..|bs| - 1] == front;
    forall c | 0 <= c < Width
      ensures t.rows[Bottom][c] == ScreenChar(bs[c], color)
    {
      assert front[c] == bs[c];
    }
  }

  /**
    Reaching column 80 does not scroll by itself: 80 bytes from column 0
    ended by a newline scroll exactly once, so the full row moves to row 23
    and row 24 is blank.
   */
  lemma FullRowThenNewline(s: Screen, color: ColorCode, bs: seq<byte>)
    requires WellFormed(s) && s.column == 0
    requires |bs| == Width
    requires forall j :: 0 <= j < |bs| ==> bs[j] != Newline
    ensures WriteBytes(s, color, bs + [Newline]).column == 0
    ensures forall i :: 0 <= i < Height - 2 ==> WriteBytes(s, color, bs + [Newline]).rows[i] == s.rows[i + 1]
    ensures forall c :: 0 <= c < Width ==> WriteBytes(s, color, bs + [Newline]).rows[Height - 2][c] == ScreenChar(bs[c], color)
    ensures WriteBytes(s, color, bs + [Newline]).rows[Bottom] == BlankRow(color)
  {
    FillRow(s, color, bs);
    var t := WriteBytes(s, color, bs);
    assert (bs + [Newline])[..|bs + [Newline]| - 1] == bs;
    forall i | 0 <= i < Height - 1
      ensures t.rows[i] == s.rows[i]
    {
      assert forall c :: 0 <= c < Width ==> t.rows[i][c] == s.rows[i][c];
    }
  }

  function Newlines(k: nat): seq<byte>
  {
    seq(k, _ => Newline)
  }

  /** k newlines scroll the screen up by k rows and leave k blank rows below. */
  lemma {:induction false} NewlinesScroll(s: Screen, color: ColorCode, k: nat)
    requires WellFormed(s) && k <= Height
    ensures k > 0 ==> WriteBytes(s, color, Newlines(k)).column == 0
    ensures forall i :: 0 <= i < Height - k ==> WriteBytes(s, color, Newlines(k)).rows[i] == s.rows[i + k]
    ensures forall i :: Height - k <= i < Height ==> WriteBytes(s, color, Newlines(k)).rows[i] == BlankRow(color)
  {
    if k == 0 {
      assert Newlines(0) == [];
    } else {
      assert Newlines(k)[..k - 1] == Newlines(k - 1);
      NewlinesScroll(s, color, k - 1);
    }
  }

  /** 25 newlines scroll every old row off the top: the whole grid is blank. */
  lemma ScrollOffAll(s: Screen, color: ColorCode)
    requires WellFormed(s)
    ensures WriteBytes(s, color, Newlines(Height)).column == 0
    ensures forall i :: 0 <= i < Height ==> WriteBytes(s, color, Newlines(Height)).rows[i] == BlankRow(color)
  {
    NewlinesScroll(s, color, Height);
  }

  /**
    A line written from column 0 and ended by a newline is not scrolled off
    by its own newline: it moves to row 23 and row 24 is blank.
   */
  lemma LastLineSurvives(s: Screen, color: ColorCode, line: seq<byte>)
    requires WellFormed(s) && s.column == 0
    requires |line| <= Width
    requires forall j :: 0 <= j < |line| ==> Printable(line[j])
    ensures WriteString(s, color, line + [Newline]).column == 0
    ensures forall j :: 0 <= j < |line| ==>
      WriteString(s, color, line + [Newline]).rows[Height - 2][j] == ScreenChar(line[j], color)
    ensures WriteString(s, color, line + [Newline]).rows[Bottom] == BlankRow(color)
  {
    assert Sanitize(line + [Newline]) == line + [Newline];
    var t := WriteBytes(s, color, line);
    FillRow(s, color, line);
    assert (line + [Newline])[..|line|] == line;
  }

  /**
    The first of 25 newline-ended lines scrolls off the top: a printable
    line of at most 80 bytes, written from column 0 and followed by 24
    empty lines, leaves every row blank.
   */
  lemma FirstLineScrollsOff(s: Screen, color: ColorCode, line: seq<byte>)
    requires WellFormed(s) && s.column == 0
    requires |line| <= Width
    requires forall j :: 0 <= j < |line| ==> Printable(line[j])
    ensures WriteString(s, color, line + [Newline] + Newlines(Bottom)).column == 0
    ensures forall i :: 0 <= i < Height ==>
      WriteString(s, color, line + [Newline] + Newlines(Bottom)).rows[i] == BlankRow(color)
  {
    LastLineSurvives(s, color, line);
    var t := WriteString(s, color, line + [Newline]);
    WriteStringAppend(s, color, line + [Newline], Newlines(Bottom));
    assert Sanitize(Newlines(Bottom)) == Newlines(Bottom);
    NewlinesScroll(t, color, Bottom);
  }

  /** Any text at all, from any screen, followed by 25 newlines leaves every row blank. */
  lemma AnyTextScrollsOff(s: Screen, color: ColorCode, text: seq<byte>)
    requires WellFormed(s)
    ensures WriteString(s, color, text + Newlines(Height)).column == 0
    ensures forall i :: 0 <= i < Height ==>
      WriteString(s, color, text + Newlines(Height)).rows[i] == BlankRow(color)
  {
    WriteStringAppend(s, color, text, Newlines(Height));
    assert Sanitize(Newlines(Height)) == Newlines(Height);
    ScrollOffAll(WriteString(s, color, text), color);
  }

  /** "X" and a newline, then 24 empty lines: every row ends up blank. */
  lemma TwentyFiveLinesScenario(s: Screen, color: ColorCode)
    requires WellFormed(s) && s.column == 0
    ensures forall i :: 0 <= i < Height ==>
      WriteString(s, color, [0x58, Newline] + Newlines(Bottom)).rows[i] == BlankRow(color)
  {
    assert [0x58, Newline] == [0x58 as byte] + [Newline];
    FirstLineScrollsOff(s, color, [0x58]);
  }

  /**
    What `write_string` stores, cell by cell, for text without a newline
    that fits on the row: a byte is kept exactly when it is printable ASCII
    (or already the placeholder); every other byte is stored as 0xFE.
   */
  lemma StoredGlyphs(s: Screen, color: ColorCode, text: seq<byte>)
    requires WellFormed(s)
    requires s.column + |text| <= Width
    requires forall j :: 0 <= j < |text| ==> text[j] != Newline
    ensures WriteString(s, color, text).column == s.column + |text|
    ensures forall j :: 0 <= j < |text| ==>
      WriteString(s, color, text).rows[Bottom][s.column + j] == ScreenChar(Filter(text[j]), color)
    ensures forall j :: 0 <= j < |text| ==>
      (WriteString(s, color, text).rows[Bottom][s.column + j].glyph == text[j] <==>
         Printable(text[j]) || text[j] == Placeholder)
    ensures forall i, c ::
      (0 <= i < Height && 0 <= c < Width && !(i == Bottom && s.column <= c < s.column + |text|)) ==>
        WriteString(s, color, text).rows[i][c] == s.rows[i][c]
  {
    var bs := Sanitize(text);
    FillRow(s, color, bs);
    forall j | 0 <= j < |text|
      ensures WriteString(s, color, text).rows[Bottom][s.column + j] == ScreenChar(Filter(text[j]), color)
    {
      assert bs[j] == Filter(text[j]);
    }
  }

  const Hello: seq<byte> := [0x48, 0x65, 0x6C, 0x6C, 0x6F, 0x21]  // "Hello!"

  /** "Hello!" from column 0 lands in columns 0..5 of row 24; the cursor is at 6. */
  lemma HelloScenario(s: Screen, color: ColorCode)
    requires WellFormed(s) && s.column == 0
    ensures WriteString(s, color, Hello).column == 6
    ensures forall j :: 0 <= j < 6 ==> WriteString(s, color, Hello).rows[Bottom][j].glyph == Hello[j]
    ensures forall i :: 0 <= i < Height - 1 ==> WriteString(s, color, Hello).rows[i] == s.rows[i]
  {
    StoredGlyphs(s, color, Hello);
    var r := WriteString(s, color, Hello);
    forall i | 0 <= i < Height - 1
      ensures r.rows[i] == s.rows[i]
    {
      assert forall c :: 0 <= c < Width ==> r.rows[i][c] == s.rows[i][c];
    }
  }

  /**
    A control byte (0x01) and both bytes of the UTF-8 encoding of U+00E9
    (0xC3 0xA9) are each stored as the placeholder glyph.
   */
  lemma UnprintableScenario(s: Screen, color: ColorCode)
    requires WellFormed(s) && s.column + 3 <= Width
    ensures WriteString(s, color, [0x01, 0xC3, 0xA9]).column == s.column + 3
    ensures forall c :: s.column <= c < s.column + 3 ==>
      WriteString(s, color, [0x01, 0xC3, 0xA9]).rows[Bottom][c] == ScreenChar(Placeholder, color)
  {
    var text: seq<byte> := [0x01, 0xC3, 0xA9];
    StoredGlyphs(s, color, text);
    forall c | s.column <= c < s.column + 3
      ensures WriteString(s, color, text).rows[Bottom][c] == ScreenChar(Placeholder, color)
    {
      assert Filter(text[c - s.column]) == Placeholder;
    }
  }
}
