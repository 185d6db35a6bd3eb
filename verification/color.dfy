/**
 * The colour model: the 16 logical console colours of the logging layer,
 * the 16-entry VGA text-mode palette, the map between them, and the packed
 * attribute byte `(bg << 4) | fg` stored beside every glyph.
 */
module Color {

  /** The logical console colours, in ANSI order. */
  datatype ConsoleColor =
    | Black | Red | Green | Yellow | Blue | Magenta | Cyan | White
    | BrightBlack | BrightRed | BrightGreen | BrightYellow
    | BrightBlue | BrightMagenta | BrightCyan | BrightWhite

  /** The VGA text-mode palette; `Index` gives each entry's hardware number. */
  datatype VgaColor =
    | Black | Blue | Green | Cyan | Red | Purple | Brown | Gray
    | DarkGray | LightBlue | LightGreen | LightCyan | LightRed | LightPurple | Yellow | White

  /** The hardware number of a palette entry (the enum's `repr(u8)` value). */
  function Index(c: VgaColor): (i: bv8)
    ensures i < 16
  {
    match c
    case Black => 0
    case Blue => 1
    case Green => 2
    case Cyan => 3
    case Red => 4
    case Purple => 5
    case Brown => 6
    case Gray => 7
    case DarkGray => 8
    case LightBlue => 9
    case LightGreen => 10
    case LightCyan => 11
    case LightRed => 12
    case LightPurple => 13
    case Yellow => 14
    case White => 15
  }

  /** The palette entry with hardware number `i`. */
  function FromIndex(i: bv8): (c: VgaColor)
    requires i < 16
    ensures Index(c) == i
  {
    if i == 0 then VgaColor.Black
    else if i == 1 then VgaColor.Blue
    else if i == 2 then VgaColor.Green
    else if i == 3 then VgaColor.Cyan
    else if i == 4 then VgaColor.Red
    else if i == 5 then VgaColor.Purple
    else if i == 6 then VgaColor.Brown
    else if i == 7 then VgaColor.Gray
    else if i == 8 then VgaColor.DarkGray
    else if i == 9 then VgaColor.LightBlue
    else if i == 10 then VgaColor.LightGreen
    else if i == 11 then VgaColor.LightCyan
    else if i == 12 then VgaColor.LightRed
    else if i == 13 then VgaColor.LightPurple
    else if i == 14 then VgaColor.Yellow
    else VgaColor.White
  }

  /**
   * The map from logical colours to the palette. Two historical quirks are
   * kept: Yellow is shown as Brown, and White and BrightBlack both become
   * Gray, so DarkGray is never produced.
   */
  function FromConsoleColor(c: ConsoleColor): (v: VgaColor)
    ensures v != VgaColor.DarkGray
    ensures v == VgaColor.Gray <==> c == ConsoleColor.White || c == ConsoleColor.BrightBlack
    ensures c == ConsoleColor.Yellow ==> v == VgaColor.Brown
  {
    match c
    case Black => VgaColor.Black
    case Red => VgaColor.Red
    case Green => VgaColor.Green
    case Yellow => VgaColor.Brown
    case Blue => VgaColor.Blue
    case Magenta => VgaColor.Purple
    case Cyan => VgaColor.Cyan
    case White => VgaColor.Gray
    case BrightBlack => VgaColor.Gray
    case BrightRed => VgaColor.LightRed
    case BrightGreen => VgaColor.LightGreen
    case BrightYellow => VgaColor.Yellow
    case BrightBlue => VgaColor.LightBlue
    case BrightMagenta => VgaColor.LightPurple
    case BrightCyan => VgaColor.LightCyan
    case BrightWhite => VgaColor.White
  }

  /** White and BrightBlack are the only two logical colours the map merges. */
  lemma FromConsoleColorCollisions(a: ConsoleColor, b: ConsoleColor)
    ensures FromConsoleColor(a) == FromConsoleColor(b) <==>
              a == b || {a, b} == {ConsoleColor.White, ConsoleColor.BrightBlack}
  {
  }

  /** The attribute byte of a cell (`VgaTextColorCode`). */
  datatype ColorCode = ColorCode(bits: bv8)

  /** `VgaTextColorCode::new(fg, bg)`: background in the high nibble, foreground in the low one. */
  function Pack(fg: VgaColor, bg: VgaColor): (code: ColorCode)
    ensures code.bits & 0x0F == Index(fg)
    ensures code.bits >> 4 == Index(bg)
  {
    ColorCode((Index(bg) << 4) | Index(fg))
  }

  /** The foreground palette entry an attribute byte encodes. */
  function Foreground(code: ColorCode): VgaColor
  {
    FromIndex(code.bits & 0x0F)
  }

  /** The background palette entry an attribute byte encodes. */
  function Background(code: ColorCode): VgaColor
  {
    FromIndex(code.bits >> 4)
  }

  lemma IndexInjective(a: VgaColor, b: VgaColor)
    requires Index(a) == Index(b)
    ensures a == b
  {
  }

  /** Both halves of a packed pair are recovered from the byte. */
  lemma PackRoundTrip(fg: VgaColor, bg: VgaColor)
    ensures Foreground(Pack(fg, bg)) == fg
    ensures Background(Pack(fg, bg)) == bg
  {
    IndexInjective(Foreground(Pack(fg, bg)), fg);
    IndexInjective(Background(Pack(fg, bg)), bg);
  }

  /** Every attribute byte is the packing of the pair it decodes to. */
  lemma UnpackRoundTrip(code: ColorCode)
    ensures Pack(Foreground(code), Background(code)) == code
  {
    var lo := code.bits & 0x0F;
    var hi := code.bits >> 4;
    assert (hi << 4) | lo == code.bits;
  }

  /** The console's default attribute: White on Black (`VgaTextMode::new`, `set_color(None)`). */
  const DefaultColor: ColorCode := Pack(VgaColor.White, VgaColor.Black)
}
