/**
  The cell model of the VGA text buffer: the sixteen colours, the packed
  colour attribute byte and the two-byte character cell.
 */
module Cell {

  /** A raw byte (the source's `u8`). */
  type byte = bv8

  /** The sixteen VGA colours; `Code` gives each its fixed number 0..15. */
  datatype Color =
    | Black | Blue | Green | Cyan | Red | Magenta | Brown | LightGray
    | DarkGray | LightBlue | LightGreen | LightCyan | LightRed | Pink | Yellow | White

  /** The numeric code of a colour (`color as u8`). */
  function Code(c: Color): (n: byte)
    ensures n < 16
  {
    match c
    case Black => 0
    case Blue => 1
    case Green => 2
    case Cyan => 3
    case Red => 4
    case Magenta => 5
    case Brown => 6
    case LightGray => 7
    case DarkGray => 8
    case LightBlue => 9
    case LightGreen => 10
    case LightCyan => 11
    case LightRed => 12
    case Pink => 13
    case Yellow => 14
    case White => 15
  }

  /** The colour with a given code: the inverse of `Code`. */
  function ColorOf(n: byte): (c: Color)
    requires n < 16
    ensures Code(c) == n
  {
    match n as int
    case 0 => Black
    case 1 => Blue
    case 2 => Green
    case 3 => Cyan
    case 4 => Red
    case 5 => Magenta
    case 6 => Brown
    case 7 => LightGray
    case 8 => DarkGray
    case 9 => LightBlue
    case 10 => LightGreen
    case 11 => LightCyan
    case 12 => LightRed
    case 13 => Pink
    case 14 => Yellow
    case _ => White
  }

  /** Distinct colours have distinct codes, so `ColorOf` undoes `Code`. */
  lemma CodeRoundTrip(c: Color)
    ensures ColorOf(Code(c)) == c
  {
  }

  /** The attribute byte of a cell: foreground in bits 0-3, background in bits 4-7. */
  datatype ColorCode = ColorCode(value: byte)

  function Foreground(cc: ColorCode): Color
  {
    ColorOf(cc.value & 0x0F)
  }

  function Background(cc: ColorCode): Color
  {
    ColorOf(cc.value >> 4)
  }

  /** Packs two colours into one attribute byte (`ColorCode::new`). */
  function NewColorCode(foreground: Color, background: Color): (cc: ColorCode)
    ensures cc.value & 0x0F == Code(foreground)
    ensures (cc.value >> 4) & 0x0F == Code(background)
    ensures Foreground(cc) == foreground && Background(cc) == background
  {
    CodeRoundTrip(foreground);
    CodeRoundTrip(background);
    ColorCode((Code(background) << 4) | Code(foreground))
  }

  /** Different colour pairs never share an attribute byte. */
  lemma NewColorCodeInjective(f1: Color, b1: Color, f2: Color, b2: Color)
    requires NewColorCode(f1, b1) == NewColorCode(f2, b2)
    ensures f1 == f2 && b1 == b2
  {
  }

  /** One character cell: a glyph byte and its attribute byte. */
  datatype ScreenChar = ScreenChar(glyph: byte, color: ColorCode)
}
