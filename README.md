# VGA text-mode console writer, in Dafny

This project models the VGA text-buffer writer of a small bare-metal kernel
(`src/vga_buffer.rs`). It covers two parts and proves properties of both.

- **Cell model.** There are sixteen colours. `ColorCode::new` packs a
  foreground and a background colour into one attribute byte: the
  foreground goes in the low nibble, the background in the high nibble. A
  character cell is a glyph byte plus an attribute byte.
- **Writer.** The writer has a column cursor, a fixed colour, and a
  25 x 80 grid of cells that it updates in place. It always writes on the
  bottom row (row 24). A newline scrolls the grid up one row, blanks row 24
  and sets the column to 0. When a byte other than a newline arrives while
  the cursor is at column 80, the writer first wraps in the same way and
  then stores the byte at column 0. Reaching column 80 does not scroll by
  itself, so an 80-byte line ended by a newline scrolls once.
  `write_string` passes printable ASCII (0x20..0x7E) and newline through
  unchanged and replaces every other byte with 0xFE.

The model has three files.

- `cell.dfy` (module `Cell`) holds the colours, the attribute byte and the
  cell. Bytes are `bv8` values, so the packing uses the same shift and `|`
  as the source.
- `console.dfy` (module `Console`) describes the screen as a value:
  `Screen(column, rows)`. It has one function per writer operation, and the
  lemmas about those functions.
- `writer.dfy` (module `VgaBuffer`) holds the class `Writer`. Its fields are
  `column`, `color` and `buffer: array2<ScreenChar>`. Each method changes
  the array in place, with the source's loops. Each method is proved to
  leave `State()` (the cursor and the grid read back as a value) equal to
  the matching `Console` function of the old state. `ClearRow` is the one
  exception: it is stated on the grid alone, and it keeps the column. The
  colour is a `const` field, so no method can change it.

The writer is built over whatever the array already holds: the constructor
does not clear the grid. Its colour is yellow on black, attribute 0x0E, as
in the static `WRITER`.

Suppose 25 newline-ended lines are written from column 0, each at most 80
bytes. Each newline scrolls once, so the first line scrolls off the top
(`FirstLineScrollsOff`, for a printable first line). Lines 2..25 end up on rows 0..23, and row 24 is
blank. A line ended by a newline sits on row 23 (`LastLineSurvives`). So the
screen ends up blank only when lines 2..25 are each empty or all spaces.
`TwentyFiveLinesScenario` shows one such case: "X" followed by 24 empty
lines. 25 bare newlines always clear everything (`ScrollOffAll`), whatever was
written before them (`AnyTextScrollsOff`).

## Model

| member | source | states |
|---|---|---|
| `Cell.Code` | src/vga_buffer.rs:4-21 | every colour has a code below 16 |
| `Cell.ColorOf` | src/vga_buffer.rs:4-21 | each code 0..15 names the colour whose code it is |
| `Cell.CodeRoundTrip` | src/vga_buffer.rs:4-21 | decoding a colour's code gives that colour back, so the 16 codes are distinct |
| `Cell.NewColorCode` | src/vga_buffer.rs:28-30 | the low nibble of the attribute is the foreground's code and the high nibble the background's; decoding either nibble gives the colour back |
| `Cell.NewColorCodeInjective` | src/vga_buffer.rs:28-30 | two colour pairs with the same attribute byte are the same pair |
| `Console.Sanitize` | src/vga_buffer.rs:87-95 | the bytes handed to `write_byte` are as many as the input bytes, and each is printable ASCII, a newline or 0xFE |
| `Console.Filter` | src/vga_buffer.rs:88-94 | a byte is kept exactly when it is printable ASCII, a newline or already 0xFE; otherwise it becomes 0xFE; the result is a newline exactly when the input is |
| `Console.BlankRow` | src/vga_buffer.rs:145-148 | a blank row is 80 cells, each a space in the given colour |
| `Console.ClearRow` | src/vga_buffer.rs:144-152 | the given row becomes 80 blanks in the writer's colour; every other row is unchanged |
| `Console.Shifted` | src/vga_buffer.rs:128-136 | after the copying loop, row r holds old row r+1 for r in 0..23, and row 24 still holds its old contents |
| `Console.NewLine` | src/vga_buffer.rs:127-142 | new row r is old row r+1 for r in 0..23; row 24 is all blanks in the current colour; the column is 0 |
| `Console.Put` | src/vga_buffer.rs:116-119 | one cell takes the new value and every other cell keeps its old one |
| `Console.WriteByte` | src/vga_buffer.rs:98-125 | a newline only scrolls and resets the column, writing no glyph; another byte with column < 80 lands at row 24 and the cursor column, the column goes up by one and every other cell is unchanged; another byte with column >= 80 scrolls once, lands at row 24 column 0, leaves the rest of row 24 blank and sets the column to 1; the column never passes 80 |
| `Console.WriteBytes` | src/vga_buffer.rs:87-95 | any run of bytes through `write_byte` keeps the grid 25 x 80 and the column at most 80 |
| `Console.WriteString` | src/vga_buffer.rs:86-96 | `write_string` keeps the column bound and sends each filtered byte, in order, to `write_byte` |
| `Console.WriteStringSnoc` | src/vga_buffer.rs:87-95 | for every text and byte x, writing text + [x] equals writing text and then handing `Filter(x)` to `write_byte` |
| `Console.WriteBytesAppend` | src/vga_buffer.rs:87-95 | writing a then b is the same as writing a + b |
| `Console.WriteStringAppend` | src/vga_buffer.rs:86-96 | `write_string(a)` then `write_string(b)` is the same as `write_string(a + b)` |
| `Console.FillRow` | src/vga_buffer.rs:104-123 | non-newline bytes that fit on the row fill row 24 left to right from the cursor; the column advances by their count; no other cell changes and nothing scrolls |
| `Console.WrapOnFullRow` | src/vga_buffer.rs:105-122 | from column 0, 80 bytes fill row 24 with no scroll; the 81st scrolls exactly once, so the full row moves to row 23, and it lands at row 24 column 0 with the column at 1 |
| `Console.FullRowThenNewline` | src/vga_buffer.rs:102-107 | 80 bytes from column 0 then a newline scroll exactly once: the bytes sit on row 23, rows 0..22 hold old rows 1..23, row 24 is blank, the column is 0 |
| `Console.NewlinesScroll` | src/vga_buffer.rs:127-142 | k <= 25 newlines move row r+k to row r, blank the bottom k rows and leave the column at 0 |
| `Console.ScrollOffAll` | src/vga_buffer.rs:102 | after 25 newlines every row is blank and the column is 0 |
| `Console.LastLineSurvives` | src/vga_buffer.rs:86-96 | a printable line written from column 0 and ended by a newline sits on row 23; row 24 is blank and the column is 0 |
| `Console.FirstLineScrollsOff` | src/vga_buffer.rs:127-142 | a printable line written from column 0, ended by a newline and followed by 24 empty lines, has scrolled off: every row is blank and the column is 0 |
| `Console.AnyTextScrollsOff` | src/vga_buffer.rs:127-142 | any text written from any screen and followed by 25 newlines leaves every row blank and the column at 0 |
| `Console.TwentyFiveLinesScenario` | src/vga_buffer.rs:127-142 | "X" and a newline, then 24 newlines, leave every row blank |
| `Console.StoredGlyphs` | src/vga_buffer.rs:86-96 | for text without newlines that fits on the row, each stored cell holds the filtered byte; the stored glyph equals the input byte exactly when that byte is printable ASCII or 0xFE; no other cell changes |
| `Console.HelloScenario` | src/vga_buffer.rs:86-96 | "Hello!" from column 0 puts its six glyphs in columns 0..5 of row 24, leaves the cursor at 6, and leaves rows 0..23 unchanged |
| `Console.UnprintableScenario` | src/vga_buffer.rs:93 | the bytes 0x01, 0xC3 and 0xA9 (a control byte and the two UTF-8 bytes of U+00E9) are each stored as 0xFE |
| `VgaBuffer.Writer.constructor` | src/vga_buffer.rs:74-78 | column 0, colour yellow on black (0x0E), buffer contents untouched |
| `VgaBuffer.Writer.ClearRow` | src/vga_buffer.rs:144-152 | the array's grid becomes `Console.ClearRow` of the old grid, written in place column by column; the column is unchanged |
| `VgaBuffer.Writer.NewLine` | src/vga_buffer.rs:127-142 | the nested copying loops followed by `clear_row(24)` leave the state equal to `Console.NewLine` of the old state |
| `VgaBuffer.Writer.WriteByte` | src/vga_buffer.rs:98-125 | the state becomes `Console.WriteByte` of the old state; every array index is in bounds |
| `VgaBuffer.Writer.WriteString` | src/vga_buffer.rs:86-96 | the loop leaves the state equal to `Console.WriteString` of the old state |
| `VgaBuffer.Writer.WriteStr` | src/vga_buffer.rs:157-162 | writes the text as `write_string` does and returns `Ok` |

## Left out

- The physical memory layout is not modelled: `#[repr(C)]`, `#[repr(transparent)]`, the buffer at address 0xb8000 and the unsafe cast to it. A cell is a value pair, and the grid is an owned `array2`.
- Volatile access is not modelled. `Volatile::read` and `write` are plain array reads and writes, so the guarantee against reordering and elision is not captured.
- The global `lazy_static!` `WRITER` and its `spin::Mutex` are not modelled, since they concern one-time initialisation and locking. The constructor creates the writer that `WRITER` would hold.
- The `print!` and `println!` macros, `_print` and `write_fmt` are not modelled. Formatting belongs to `core::fmt`. Only `write_str`, which receives the formatted text, is modelled.
- A `&str` is taken as its UTF-8 bytes (`seq<byte>`). The model does not require those bytes to be valid UTF-8.
- `column_position` is a `usize` in the source and a `nat` here. The column never exceeds 80, so wrap-around cannot arise.
- Console.ClearRow and VgaBuffer.Writer.ClearRow require `row < 25`. In the source a larger row would panic on out-of-bounds indexing at src/vga_buffer.rs:150. `clear_row` is private, and its one caller passes `BUFFER_HEIGHT - 1` (src/vga_buffer.rs:139), so no call is excluded.
- `FmtResult.Err` is never produced, because `write_str` always returns `Ok`.
- The stale draft `Projects/div-os/src/vga_buffer.rs` and both `main.rs` files (boot entry point and panic handler) are not part of this model.
