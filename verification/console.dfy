/**
 * The console device (`VgaTextMode`): cursor, current colour, interpreter
 * state and the bound text surface, with the raw cursor/grid step
 * (`VgaTextMode::putchar`), scrolling, the per-byte entry point that runs
 * the interpreter first (free `putchar`), and string output (`write_str`).
 */
module Console {
  import opened Base
  import opened Color
  import opened Escape
  import opened Grid

  const CarriageReturn: Byte := 0x0D
  const LineFeed: Byte := 0x0A
  const Backspace: Byte := 0x08

  /** Bytes the raw step draws as a glyph rather than treating as carriage control. */
  predicate IsGlyph(ch: Byte)
  {
    ch != CarriageReturn && ch != LineFeed && ch != Backspace
  }

  /** `VgaTextMode`; `grid` is the surface the buffer pointer is bound to. */
  datatype TextMode = TextMode(x: nat, y: nat, color: ColorCode, state: EscState, grid: Rows)

  /** The device invariant between operations: a full surface and the cursor on it. */
  predicate Valid(c: TextMode)
  {
    Shaped(c.grid) && c.x < Width && c.y < Height
  }

  /**
   * `VgaTextMode::new`: cursor at the origin, White on Black, printing.
   * The buffer is not bound yet; a surface with no rows stands for that.
   */
  function New(): (c: TextMode)
    ensures c.x == 0 && c.y == 0 && c.state == PutChar && c.grid == []
    ensures Foreground(c.color) == VgaColor.White && Background(c.color) == VgaColor.Black
  {
    PackRoundTrip(VgaColor.White, VgaColor.Black);
    TextMode(0, 0, DefaultColor, PutChar, [])
  }

  /**
   * The clearing loop of `init_early`: the buffer is bound to the hardware
   * surface `screen`, whatever it holds, and every cell becomes a space in
   * the current colour; nothing else changes.
   */
  method InitEarly(c: TextMode, screen: Rows) returns (r: TextMode)
    requires Shaped(screen)
    ensures r.x == c.x && r.y == c.y && r.color == c.color && r.state == c.state
    ensures Shaped(r.grid)
    ensures forall i, j :: 0 <= i < Height && 0 <= j < Width ==> r.grid[i][j] == Cell(Space, c.color)
  {
    var g := screen;
    var y := 0;
    while y < Height
      invariant 0 <= y <= Height && Shaped(g)
      invariant forall i, j :: 0 <= i < y && 0 <= j < Width ==> g[i][j] == Cell(Space, c.color)
    {
      var x := 0;
      while x < Width
        invariant 0 <= x <= Width && Shaped(g)
        invariant forall i, j :: 0 <= i < y && 0 <= j < Width ==> g[i][j] == Cell(Space, c.color)
        invariant forall j :: 0 <= j < x ==> g[y][j] == Cell(Space, c.color)
      {
        g := SetCell(g, y, x, Cell(Space, c.color));
        x := x + 1;
      }
      y := y + 1;
    }
    r := c.(grid := g);
  }

  /**
   * `scroll_up(line)`, with the row shift it is meant to perform (see
   * `Grid.ScrollCopyAsWritten` for the copy as written). More than `Height`
   * lines is a no-op; otherwise the rows move up by `line`, the bottom rows
   * stay stale and the cursor row drops by `line`, which must not underflow.
   * With `line == Height` the source indexes `buffer[25]` and panics; the
   * model follows the intended shift there (nothing moves), and `putchar`
   * only ever scrolls by one row.
   */
  function ScrollUp(c: TextMode, line: nat): (r: TextMode)
    requires Shaped(c.grid)
    requires line <= Height ==> line <= c.y
    ensures line > Height ==> r == c
    ensures line <= Height ==>
              r.y + line == c.y && r.x == c.x && r.color == c.color && r.state == c.state &&
              Shaped(r.grid) &&
              (forall row :: 0 <= row < Height - line ==> r.grid[row] == c.grid[row + line]) &&
              (forall row :: Height - line <= row < Height ==> r.grid[row] == c.grid[row])
  {
    if line > Height then c
    else c.(y := c.y - line, grid := ScrollRows(c.grid, line))
  }

  /** The tail of `VgaTextMode::putchar`: wrap at the right edge, then scroll a row past the bottom back into view. */
  function Settle(c: TextMode): (r: TextMode)
    requires Shaped(c.grid) && c.x <= Width && c.y <= Height
    requires c.x == Width ==> c.y < Height
    ensures Valid(r) && r.color == c.color && r.state == c.state
  {
    var w := if c.x >= Width then c.(x := 0, y := c.y + 1) else c;
    if w.y >= Height then ScrollUp(w, w.y - Height + 1) else w
  }

  /**
   * `VgaTextMode::putchar`: carriage return, line feed as CR LF, backspace
   * (which blanks the cell left of the cursor; at column 0 the `usize`
   * decrement panics, `None`), and any other byte drawn at the cursor in
   * the current colour; then wrap and scroll.
   */
  function PutRaw(c: TextMode, ch: Byte): (r: Option<TextMode>)
    requires Valid(c)
    ensures r.None? <==> ch == Backspace && c.x == 0
    ensures r.Some? ==> Valid(r.value) && r.value.color == c.color && r.value.state == c.state
    ensures ch == CarriageReturn ==> r == Some(c.(x := 0))
    ensures ch == LineFeed ==>
              (r.Some? && r.value.x == 0 &&
               if c.y + 1 < Height then r.value == c.(x := 0, y := c.y + 1)
               else r.value.y == c.y && r.value.grid == ScrollRows(c.grid, 1))
    ensures ch == Backspace && c.x > 0 ==>
              r.Some? && r.value.x == c.x - 1 && r.value.y == c.y &&
              OnlyChanged(c.grid, r.value.grid, c.y, c.x - 1, Cell(Space, c.color))
    ensures IsGlyph(ch) && c.x + 1 < Width ==>
              r.Some? && r.value.x == c.x + 1 && r.value.y == c.y &&
              OnlyChanged(c.grid, r.value.grid, c.y, c.x, Cell(ch, c.color))
    ensures IsGlyph(ch) && c.x + 1 == Width && c.y + 1 < Height ==>
              r.Some? && r.value.x == 0 && r.value.y == c.y + 1 &&
              OnlyChanged(c.grid, r.value.grid, c.y, c.x, Cell(ch, c.color))
    ensures IsGlyph(ch) && c.x + 1 == Width && c.y + 1 == Height ==>
              r.Some? && r.value.x == 0 && r.value.y == c.y &&
              r.value.grid == ScrollRows(SetCell(c.grid, c.y, c.x, Cell(ch, c.color)), 1)
  {
    if ch == Backspace && c.x == 0 then None
    else if ch == CarriageReturn then Some(Settle(c.(x := 0)))
    else if ch == LineFeed then Some(Settle(c.(x := 0, y := c.y + 1)))
    else if ch == Backspace then
      Some(Settle(c.(x := c.x - 1, grid := SetCell(c.grid, c.y, c.x - 1, Cell(Space, c.color)))))
    else
      Some(Settle(c.(x := c.x + 1, grid := SetCell(c.grid, c.y, c.x, Cell(ch, c.color)))))
  }

  /**
   * The free `putchar`: the interpreter sees the byte first, and the byte
   * is drawn only when the interpreter comes back to `PutChar`. A byte
   * that continues a sequence leaves cursor and surface untouched; one that
   * does not is drawn in the colour in force, with the interpreter reset.
   */
  function PutByte(c: TextMode, ch: Byte, decode: Decoder): (r: Option<TextMode>)
    requires Valid(c)
    ensures r.None? <==> !Continues(c.state, ch) && ch == Backspace && c.x == 0
    ensures r.Some? ==> Valid(r.value)
    ensures Continues(c.state, ch) ==>
              r.Some? && r.value.x == c.x && r.value.y == c.y && r.value.grid == c.grid &&
              !r.value.state.PutChar?
    ensures !Continues(c.state, ch) ==> r == PutRaw(c.(state := PutChar), ch)
  {
    var d := Step(c.state, c.color, ch, decode);
    var next := c.(state := d.state, color := d.color);
    if d.state.PutChar? then PutRaw(next, ch) else Some(next)
  }

  /**
   * `write_str`: every byte through `PutByte`, in order; a panic stops the
   * output. The screen never feeds back into the interpreter: state and
   * colour afterwards are those of the interpreter run on the bytes alone.
   */
  function WriteStr(c: TextMode, bytes: seq<Byte>, decode: Decoder): (r: Option<TextMode>)
    requires Valid(c)
    ensures r.Some? ==> Valid(r.value)
    ensures r.Some? ==> r.value.state == Feed(c.state, c.color, bytes, decode).state &&
                        r.value.color == Feed(c.state, c.color, bytes, decode).color
    decreases |bytes|
  {
    if |bytes| == 0 then Some(c)
    else
      match PutByte(c, bytes[0], decode)
      case None => None
      case Some(next) => WriteStr(next, bytes[1..], decode)
  }

  /** Writing `a + b` is writing `a` and then, unless that panicked, `b`. */
  lemma {:induction false} WriteStrAppend(c: TextMode, a: seq<Byte>, b: seq<Byte>, decode: Decoder)
    requires Valid(c)
    ensures WriteStr(c, a + b, decode) ==
              (var m := WriteStr(c, a, decode); if m.None? then None else WriteStr(m.value, b, decode))
    decreases |a|
  {
    if |a| == 0 {
      assert a + b == b;
    } else {
      assert (a + b)[0] == a[0];
      assert (a + b)[1..] == a[1..] + b;
      var p := PutByte(c, a[0], decode);
      if p.Some? {
        WriteStrAppend(p.value, a[1..], b, decode);
      }
    }
  }

  /**
   * Bytes the interpreter swallows never reach the surface: cursor and
   * cells are unchanged, only the interpreter state and colour move.
   */
  lemma {:induction false} SwallowedLeavesScreen(c: TextMode, bytes: seq<Byte>, decode: Decoder)
    requires Valid(c) && Swallowed(c.state, c.color, bytes, decode)
    ensures WriteStr(c, bytes, decode) ==
              Some(c.(state := Feed(c.state, c.color, bytes, decode).state,
                      color := Feed(c.state, c.color, bytes, decode).color))
    decreases |bytes|
  {
    if |bytes| > 0 {
      var d := Step(c.state, c.color, bytes[0], decode);
      var next := c.(state := d.state, color := d.color);
      assert PutByte(c, bytes[0], decode) == Some(next);
      SwallowedLeavesScreen(next, bytes[1..], decode);
    }
  }

  /**
   * Writing `ESC '[' ds 'm'` where a sequence may start changes only the
   * interpreter (now `End`) and the colour: the decoded colour on Black,
   * or White on Black for an empty or undecodable number.
   */
  lemma SgrSelectsColor(c: TextMode, ds: seq<Byte>, decode: Decoder)
    requires Valid(c) && Ready(c.state) && AllDigits(ds)
    ensures WriteStr(c, Sgr(ds), decode) ==
              Some(c.(state := SetColor(End),
                      color := if |ds| == 0 then DefaultColor else ColorOf(decode(Decimal(ds) % 256))))
  {
    WellFormedSequence(c.state, c.color, ds, decode);
    SwallowedLeavesScreen(c, Sgr(ds), decode);
  }

  /**
   * A sequence cut short: after swallowed bytes, the first byte that does
   * not continue the grammar is drawn exactly as a plain byte would be, in
   * the colour in force, with the interpreter back at `PutChar`.
   */
  lemma AbortPrintsOffender(c: TextMode, bytes: seq<Byte>, bad: Byte, decode: Decoder)
    requires Valid(c) && Swallowed(c.state, c.color, bytes, decode)
    requires !Continues(Feed(c.state, c.color, bytes, decode).state, bad)
    ensures WriteStr(c, bytes + [bad], decode) ==
              PutRaw(c.(state := PutChar, color := Feed(c.state, c.color, bytes, decode).color), bad)
  {
    SwallowedLeavesScreen(c, bytes, decode);
    WriteStrAppend(c, bytes, [bad], decode);
    var f := Feed(c.state, c.color, bytes, decode);
    var m := c.(state := f.state, color := f.color);
    var p := PutByte(m, bad, decode);
    if p.Some? {
      assert WriteStr(p.value, [bad][1..], decode) == p;
    }
  }

  /** Composing a one-cell write with a row write just right of it. */
  lemma ComposeRow(g: Rows, g1: Rows, g2: Rows, row: nat, col: nat, text: seq<Byte>, attr: ColorCode)
    requires Shaped(g) && Shaped(g1) && Shaped(g2) && |text| > 0
    requires OnlyChanged(g, g1, row, col, Cell(text[0], attr))
    requires RowWritten(g1, g2, row, col + 1, text[1..], attr)
    ensures RowWritten(g, g2, row, col, text, attr)
  {
    forall i, j | 0 <= i < Height && 0 <= j < Width
      ensures g2[i][j] == (if i == row && col <= j < col + |text| then Cell(text[j - col], attr) else g[i][j])
    {
      if i == row && col + 1 <= j < col + |text| {
        assert text[1..][j - (col + 1)] == text[j - col];
      }
    }
  }

  /**
   * Plain text that fits on the cursor's row is laid out left to right in
   * the current colour and nothing else changes; filling the row to the
   * right edge wraps the cursor to the start of the next row.
   */
  lemma {:induction false} WriteRow(c: TextMode, text: seq<Byte>, decode: Decoder)
    requires Valid(c) && Ready(c.state)
    requires forall i :: 0 <= i < |text| ==> IsGlyph(text[i]) && text[i] != Esc
    requires c.x + |text| <= Width
    requires c.x + |text| == Width ==> c.y + 1 < Height
    ensures WriteStr(c, text, decode).Some?
    ensures var r := WriteStr(c, text, decode).value;
              r.color == c.color &&
              r.state == (if |text| == 0 then c.state else PutChar) &&
              (if c.x + |text| < Width then r.x == c.x + |text| && r.y == c.y
               else r.x == 0 && r.y == c.y + 1) &&
              RowWritten(c.grid, r.grid, c.y, c.x, text, c.color)
    decreases |text|
  {
    if |text| > 0 {
      var ch := text[0];
      assert !Continues(c.state, ch);
      var p := PutByte(c, ch, decode);
      assert p == PutRaw(c.(state := PutChar), ch);
      var next := p.value;
      assert OnlyChanged(c.grid, next.grid, c.y, c.x, Cell(ch, c.color));
      if |text| == 1 {
        assert WriteStr(c, text, decode) == Some(next);
        ComposeRow(c.grid, next.grid, next.grid, c.y, c.x, text, c.color);
      } else {
        assert next.x == c.x + 1 && next.y == c.y;
        WriteRow(next, text[1..], decode);
        ComposeRow(c.grid, next.grid, WriteStr(next, text[1..], decode).value.grid, c.y, c.x, text, c.color);
      }
    }
  }

  /** Only a drawn backspace can panic, so text without one is always written. */
  lemma {:induction false} NoBackspaceNoPanic(c: TextMode, bytes: seq<Byte>, decode: Decoder)
    requires Valid(c)
    requires forall i :: 0 <= i < |bytes| ==> bytes[i] != Backspace
    ensures WriteStr(c, bytes, decode).Some?
    decreases |bytes|
  {
    if |bytes| > 0 {
      var p := PutByte(c, bytes[0], decode);
      NoBackspaceNoPanic(p.value, bytes[1..], decode);
    }
  }
}
