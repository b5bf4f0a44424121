/**
  The VGA text-mode writer: a column cursor, a fixed colour and a 25 x 80
  grid of cells updated in place. Each method is proved to leave the grid
  and cursor exactly as the matching function of module Console says.
 */
module VgaBuffer {
  import opened Cell
  import C = Console

  /** The grid of an array, row by row. */
  ghost function Grid(a: array2<ScreenChar>): (g: C.Grid)
    reads a
    ensures |g| == a.Length0
    ensures forall r :: 0 <= r < a.Length0 ==> |g[r]| == a.Length1
    ensures forall r, c :: 0 <= r < a.Length0 && 0 <= c < a.Length1 ==> g[r][c] == a[r, c]
  {
    seq(a.Length0, r requires 0 <= r < a.Length0 reads a =>
      seq(a.Length1, c requires 0 <= c < a.Length1 reads a => a[r, c]))
  }

  /** An array shows a grid when they agree cell by cell. */
  lemma ShowsGrid(a: array2<ScreenChar>, g: C.Grid)
    requires |g| == a.Length0
    requires forall r :: 0 <= r < |g| ==> |g[r]| == a.Length1
    requires forall r, c :: 0 <= r < a.Length0 && 0 <= c < a.Length1 ==> a[r, c] == g[r][c]
    ensures Grid(a) == g
  {
    var h := Grid(a);
    forall r | 0 <= r < |g|
      ensures h[r] == g[r]
    {
      assert forall c :: 0 <= c < a.Length1 ==> h[r][c] == g[r][c];
    }
  }

  /** Result of `fmt::Write::write_str`: this writer never fails. */
  datatype FmtResult = Ok | Err

  class Writer {
    var column: nat
    const color: ColorCode
    const buffer: array2<ScreenChar>

    ghost predicate Valid()
      reads this
    {
      buffer.Length0 == C.Height && buffer.Length1 == C.Width && column <= C.Width
    }

    /** The cursor and the grid as a value. */
    ghost function State(): (s: C.Screen)
      reads this, buffer
      requires Valid()
      ensures C.WellFormed(s)
    {
      C.Screen(column, Grid(buffer))
    }

    /**
      A writer over the cells already in `screen`, which are not cleared:
      column 0, yellow on black.
     */
    constructor (screen: array2<ScreenChar>)
      requires screen.Length0 == C.Height && screen.Length1 == C.Width
      ensures Valid() && buffer == screen
      ensures column == 0
      ensures color == NewColorCode(Yellow, Black) && color.value == 0x0E
    {
      column := 0;
      color := NewColorCode(Yellow, Black);
      buffer := screen;
    }

    /** `clear_row`: blanks one row in the current colour. */
    method ClearRow(row: nat)
      requires Valid() && row < C.Height
      modifies buffer
      ensures Valid()
      ensures column == old(column)
      ensures Grid(buffer) == C.ClearRow(old(Grid(buffer)), row, color)
    {
      var blank := ScreenChar(C.Space, color);
      for col := 0 to C.Width
        invariant forall j :: 0 <= j < col ==> buffer[row, j] == blank
        invariant forall i, j :: 0 <= i < C.Height && 0 <= j < C.Width && (i != row || col <= j) ==>
          buffer[i, j] == old(buffer[i, j])
      {
        buffer[row, col] := blank;
      }
      ShowsGrid(buffer, C.ClearRow(old(Grid(buffer)), row, color));
    }

    /** `new_line`: copies rows 1..24 up by one, blanks row 24, resets the column. */
    method NewLine()
      requires Valid()
      modifies this`column, buffer
      ensures Valid()
      ensures State() == C.NewLine(old(State()), color)
    {
      ghost var g := Grid(buffer);
      for row := 1 to C.Height
        invariant column == old(column)
        invariant forall i, j :: 0 <= i < row - 1 && 0 <= j < C.Width ==> buffer[i, j] == g[i + 1][j]
        invariant forall i, j :: row - 1 <= i < C.Height && 0 <= j < C.Width ==> buffer[i, j] == g[i][j]
      {
        for col := 0 to C.Width
          invariant column == old(column)
          invariant forall j :: 0 <= j < col ==> buffer[row - 1, j] == g[row][j]
          invariant forall i, j :: 0 <= i < row - 1 && 0 <= j < C.Width ==> buffer[i, j] == g[i + 1][j]
          invariant forall i, j :: row - 1 <= i < C.Height && 0 <= j < C.Width && (i != row - 1 || col <= j) ==>
            buffer[i, j] == g[i][j]
        {
          var character := buffer[row, col];
          buffer[row - 1, col] := character;
        }
      }
      ShowsGrid(buffer, C.Shifted(g));
      ClearRow(C.Bottom);
      column := 0;
    }

    /** `write_byte`: newline scrolls; any other byte wraps if the row is full, then is stored. */
    method WriteByte(b: byte)
      requires Valid()
      modifies this`column, buffer
      ensures Valid()
      ensures State() == C.WriteByte(old(State()), color, b)
    {
      if b == C.Newline {
        NewLine();
      } else {
        if column >= C.Width {
          NewLine();
        }
        var row := C.Bottom;
        var col := column;
        ghost var g := Grid(buffer);
        buffer[row, col] := ScreenChar(b, color);
        column := column + 1;
        ShowsGrid(buffer, C.Put(g, row, col, ScreenChar(b, color)));
      }
    }

    /** `write_string`: each byte, filtered, through `WriteByte` in order. */
    method WriteString(text: seq<byte>)
      requires Valid()
      modifies this`column, buffer
      ensures Valid()
      ensures State() == C.WriteString(old(State()), color, text)
    {
      for i := 0 to |text|
        invariant Valid()
        invariant State() == C.WriteBytes(old(State()), color, C.Sanitize(text[..i]))
      {
        assert C.Sanitize(text[..i + 1])[..i] == C.Sanitize(text[..i]);
        WriteByte(C.Filter(text[i]));
      }
      assert text[..|text|] == text;
    }

    /** `fmt::Write::write_str`: writes the text and reports success. */
    method WriteStr(text: seq<byte>) returns (r: FmtResult)
      requires Valid()
      modifies this`column, buffer
      ensures Valid()
      ensures State() == C.WriteString(old(State()), color, text)
      ensures r == Ok
    {
      WriteString(text);
      r := Ok;
    }
  }
}
