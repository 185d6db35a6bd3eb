/**
 * The level-gated print entry point: `set_max_level` and the gate and tag
 * of `print_debug`. The formatted body is an opaque byte string.
 */
module Debug {
  import opened Base
  import opened Color
  import opened Escape
  import opened Grid
  import opened Console

  /** `LEVEL_DEBUG` at start-up: every level is shown. */
  const InitialMaxLevel: Byte := 3

  /** `set_max_level`: a level above 3 panics (`None`); any other becomes the new maximum. */
  function SetMaxLevel(level: Byte): (max: Option<Byte>)
    ensures max.Some? <==> level <= 3
    ensures max.Some? ==> max.value == level
  {
    if level > 3 then None else Some(level)
  }

  /** The levels `print_debug` has a tag for: 1 info, 2 dev, 3 debug. */
  predicate HasTag(level: Byte)
  {
    1 <= level <= 3
  }

  /** The tag printed before the body, padded to eight columns. */
  function Tag(level: Byte): (tag: seq<Byte>)
    requires HasTag(level)
    ensures |tag| == 8
    ensures forall i :: 0 <= i < |tag| ==> IsGlyph(tag[i]) && tag[i] != Esc
  {
    if level == 1 then Ascii("[INFO]  ")
    else if level == 2 then Ascii("[DEV]   ")
    else Ascii("[DEBUG] ")
  }

  /** The foreground the tag is drawn in, always on Black. */
  function TagColor(level: Byte): VgaColor
    requires HasTag(level)
  {
    if level == 1 then VgaColor.LightGreen
    else if level == 2 then VgaColor.LightBlue
    else VgaColor.Yellow
  }

  /** The tag written in its colour, after which White on Black is restored. */
  function TagStage(c: TextMode, level: Byte, decode: Decoder): (r: Option<TextMode>)
    requires Valid(c) && HasTag(level)
    ensures r.Some? && Valid(r.value) && r.value.color == DefaultColor
  {
    NoBackspaceNoPanic(c.(color := Pack(TagColor(level), VgaColor.Black)), Tag(level), decode);
    match WriteStr(c.(color := Pack(TagColor(level), VgaColor.Black)), Tag(level), decode)
    case None => None
    case Some(t) => Some(t.(color := DefaultColor))
  }

  /** The outcome of `print_debug`: `Err` without output, or the console after the output (`None` if the body panicked). */
  datatype Printed = Rejected | Written(out: Option<TextMode>)

  /**
   * `print_debug(level, body)`: refused when `level` exceeds the maximum or
   * has no tag; otherwise the tag, then the body in White on Black.
   */
  function PrintDebug(c: TextMode, max: Byte, level: Byte, body: seq<Byte>, decode: Decoder): (r: Printed)
    requires Valid(c)
    ensures r.Rejected? <==> level > max || !HasTag(level)
    ensures r.Written? && r.out.Some? ==> Valid(r.out.value)
  {
    if level > max then Rejected
    else if !HasTag(level) then Rejected
    else
      Written(WriteStr(TagStage(c, level, decode).value, body, decode))
  }

  /**
   * When the tag fits on the cursor's row and no sequence is pending, an
   * accepted call draws the eight tag cells in the tag colour on Black,
   * advances the cursor by eight, resets the colour to White on Black and
   * then writes the body from there.
   */
  lemma PrintDebugLayout(c: TextMode, max: Byte, level: Byte, body: seq<Byte>, decode: Decoder)
    requires Valid(c) && Ready(c.state) && HasTag(level) && level <= max
    requires c.x + 8 < Width
    ensures TagStage(c, level, decode).Some?
    ensures var t := TagStage(c, level, decode).value;
              t.x == c.x + 8 && t.y == c.y && t.state == PutChar && t.color == DefaultColor &&
              RowWritten(c.grid, t.grid, c.y, c.x, Tag(level), Pack(TagColor(level), VgaColor.Black)) &&
              PrintDebug(c, max, level, body, decode) == Written(WriteStr(t, body, decode))
  {
    var tagged := c.(color := Pack(TagColor(level), VgaColor.Black));
    WriteRow(tagged, Tag(level), decode);
  }

  /** With the start-up maximum, only the untagged levels are refused. */
  lemma DefaultGate(c: TextMode, level: Byte, body: seq<Byte>, decode: Decoder)
    requires Valid(c)
    ensures PrintDebug(c, InitialMaxLevel, level, body, decode).Rejected? <==> level == 0 || level > 3
  {
  }
}
