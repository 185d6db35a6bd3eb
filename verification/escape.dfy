/**
 * The escape-sequence interpreter of the console (`process_char`): a
 * byte-driven state machine that recognises `ESC '[' digits? 'm'`, the
 * colour-selecting subset of SGR (ECMA-48 section 8.3.117). The state it
 * returns decides whether the byte is also printed: only `PutChar` prints.
 */
module Escape {
  import opened Base
  import opened Color

  const Esc: Byte := 0x1B
  const LeftBracket: Byte := 0x5B
  const FinalM: Byte := 0x6D
  const Zero: Byte := 0x30

  predicate IsDigit(ch: Byte)
  {
    Zero <= ch <= Zero + 9
  }

  predicate AllDigits(ds: seq<Byte>)
  {
    forall i :: 0 <= i < |ds| ==> IsDigit(ds[i])
  }

  /** The phases of an SGR sequence (`VgaTextSetColor`); `Value` holds the `u8` accumulator. */
  datatype Phase = Start | LeftBrackets | Value(v: Byte) | End

  /** `VgaTextState`. */
  datatype EscState = PutChar | SetColor(phase: Phase)

  /** The states in which ESC opens a fresh sequence: plain printing, or right after a finished one. */
  predicate Ready(s: EscState)
  {
    s == PutChar || s == SetColor(End)
  }

  /**
   * The number-to-colour conversion `u8 -> ConsoleColorCode` of the logging
   * layer; it lives outside the console, so every operation takes it as a
   * parameter.
   */
  type Decoder = Byte -> Option<ConsoleColor>

  /** The interpreter's outcome for one byte: next state and current colour. */
  datatype Decision = Decision(state: EscState, color: ColorCode)

  /** The colour `ESC [ v m` selects: the decoded colour on Black, or the default when decoding fails. */
  function ColorOf(decoded: Option<ConsoleColor>): (code: ColorCode)
    ensures Background(code) == VgaColor.Black
    ensures decoded.Some? ==> Foreground(code) == FromConsoleColor(decoded.value)
    ensures decoded.None? ==> Foreground(code) == VgaColor.White
  {
    match decoded
    case Some(cc) =>
      PackRoundTrip(FromConsoleColor(cc), VgaColor.Black);
      Pack(FromConsoleColor(cc), VgaColor.Black)
    case None =>
      PackRoundTrip(VgaColor.White, VgaColor.Black);
      DefaultColor
  }

  /**
   * Whether `ch` is a byte the grammar `ESC '[' digits? 'm'` accepts next in
   * state `s` (for `PutChar` and `End`: whether it opens a sequence).
   */
  predicate Continues(s: EscState, ch: Byte)
  {
    match s
    case PutChar => ch == Esc
    case SetColor(Start) => ch == LeftBracket
    case SetColor(LeftBrackets) => ch == FinalM || IsDigit(ch)
    case SetColor(Value(_)) => ch == FinalM || IsDigit(ch)
    case SetColor(End) => ch == Esc
  }

  /**
   * `process_char`. A byte that does not continue the grammar drops the
   * machine back to `PutChar`, so that byte is printed; digits accumulate
   * as `v * 10 + d` in a `u8`, which wraps modulo 256.
   */
  function Step(s: EscState, color: ColorCode, ch: Byte, decode: Decoder): (d: Decision)
    ensures d.state.PutChar? <==> !Continues(s, ch)
    ensures d.state.PutChar? ==> d.color == color
    ensures d.color != color ==> ch == FinalM && d.state == SetColor(End)
    ensures Ready(s) && ch == Esc ==> d.state == SetColor(Start)
    ensures s.SetColor? && (s.phase.LeftBrackets? || s.phase.Value?) && ch == FinalM ==>
              d.state == SetColor(End)
  {
    match s
    case PutChar =>
      if ch == Esc then Decision(SetColor(Start), color) else Decision(PutChar, color)
    case SetColor(Start) =>
      if ch == LeftBracket then Decision(SetColor(LeftBrackets), color)
      else Decision(PutChar, color)
    case SetColor(LeftBrackets) =>
      if ch == FinalM then Decision(SetColor(End), DefaultColor)
      else if IsDigit(ch) then Decision(SetColor(Value(ch - Zero)), color)
      else Decision(PutChar, color)
    case SetColor(Value(v)) =>
      if ch == FinalM then Decision(SetColor(End), ColorOf(decode(v)))
      else if IsDigit(ch) then Decision(SetColor(Value((v * 10 + (ch - Zero)) % 256)), color)
      else Decision(PutChar, color)
    case SetColor(End) =>
      if ch == Esc then Decision(SetColor(Start), color) else Decision(PutChar, color)
  }

  /** The interpreter after consuming `bytes` in order. */
  function Feed(s: EscState, color: ColorCode, bytes: seq<Byte>, decode: Decoder): Decision
    decreases |bytes|
  {
    if |bytes| == 0 then Decision(s, color)
    else
      var d := Step(s, color, bytes[0], decode);
      Feed(d.state, d.color, bytes[1..], decode)
  }

  /** Whether every byte of `bytes` is consumed as control, so none of them is printed. */
  predicate Swallowed(s: EscState, color: ColorCode, bytes: seq<Byte>, decode: Decoder)
    decreases |bytes|
  {
    |bytes| == 0 ||
    var d := Step(s, color, bytes[0], decode);
    !d.state.PutChar? && Swallowed(d.state, d.color, bytes[1..], decode)
  }

  /** The decimal number a digit string denotes. */
  function Decimal(ds: seq<Byte>): nat
    requires AllDigits(ds)
    decreases |ds|
  {
    if |ds| == 0 then 0 else Decimal(ds[..|ds| - 1]) * 10 + (ds[|ds| - 1] - Zero)
  }

  /** The colour-selecting sequence `ESC '[' ds 'm'`. */
  function Sgr(ds: seq<Byte>): seq<Byte>
  {
    [Esc, LeftBracket] + ds + [FinalM]
  }

  /** Feeding two byte strings one after the other is feeding their concatenation. */
  lemma {:induction false} FeedAppend(s: EscState, color: ColorCode, a: seq<Byte>, b: seq<Byte>, decode: Decoder)
    ensures Feed(s, color, a + b, decode) ==
              Feed(Feed(s, color, a, decode).state, Feed(s, color, a, decode).color, b, decode)
    ensures Swallowed(s, color, a + b, decode) <==>
              Swallowed(s, color, a, decode) &&
              Swallowed(Feed(s, color, a, decode).state, Feed(s, color, a, decode).color, b, decode)
    decreases |a|
  {
    if |a| == 0 {
      assert a + b == b;
    } else {
      var d := Step(s, color, a[0], decode);
      assert (a + b)[0] == a[0];
      assert (a + b)[1..] == a[1..] + b;
      FeedAppend(d.state, d.color, a[1..], b, decode);
    }
  }

  lemma ModStep(a: nat, digit: nat)
    ensures ((a % 256) * 10 + digit) % 256 == (a * 10 + digit) % 256
  {
    var q := a / 256;
    assert a == 256 * q + a % 256;
    assert a * 10 + digit == 256 * (10 * q) + ((a % 256) * 10 + digit);
  }

  /**
   * After `ESC '['`, a run of digits is swallowed and leaves the accumulator
   * holding their decimal value reduced modulo 256 (the `u8` wraps).
   */
  lemma {:induction false} DigitsAccumulate(color: ColorCode, ds: seq<Byte>, decode: Decoder)
    requires |ds| > 0 && AllDigits(ds)
    ensures Swallowed(SetColor(LeftBrackets), color, ds, decode)
    ensures Feed(SetColor(LeftBrackets), color, ds, decode) ==
              Decision(SetColor(Value(Decimal(ds) % 256)), color)
    decreases |ds|
  {
    var init := ds[..|ds| - 1];
    var last := ds[|ds| - 1];
    assert ds == init + [last];
    if |init| == 0 {
      assert Decimal(init) == 0;
    } else {
      DigitsAccumulate(color, init, decode);
      FeedAppend(SetColor(LeftBrackets), color, init, [last], decode);
      ModStep(Decimal(init), last - Zero);
    }
  }

  /**
   * A well-formed `ESC '[' ds 'm'`, started where ESC opens a sequence, is
   * swallowed byte by byte and ends in `End`; with no digits it restores
   * White on Black, otherwise it selects the decoded colour on Black (White
   * on Black when decoding fails).
   */
  lemma {:induction false} WellFormedSequence(s: EscState, color: ColorCode, ds: seq<Byte>, decode: Decoder)
    requires Ready(s) && AllDigits(ds)
    ensures Swallowed(s, color, Sgr(ds), decode)
    ensures Feed(s, color, Sgr(ds), decode) ==
              Decision(SetColor(End), if |ds| == 0 then DefaultColor else ColorOf(decode(Decimal(ds) % 256)))
  {
    var intro := [Esc, LeftBracket];
    assert Sgr(ds) == (intro + ds) + [FinalM];
    FeedAppend(s, color, intro + ds, [FinalM], decode);
    FeedAppend(s, color, intro, ds, decode);
    assert intro[1..] == [LeftBracket];
    assert Step(s, color, Esc, decode) == Decision(SetColor(Start), color);
    assert Feed(SetColor(Start), color, [LeftBracket], decode) == Decision(SetColor(LeftBrackets), color);
    assert Feed(s, color, intro, decode) == Decision(SetColor(LeftBrackets), color);
    assert Swallowed(s, color, intro, decode);
    if |ds| == 0 {
      assert intro + ds == intro;
    } else {
      DigitsAccumulate(color, ds, decode);
    }
  }

  /**
   * Because the accumulator is a `u8`, two digit strings whose values agree
   * modulo 256 select the same colour and leave the same state.
   */
  lemma SameResidueSameColor(s: EscState, color: ColorCode, ds: seq<Byte>, ds': seq<Byte>, decode: Decoder)
    requires Ready(s) && AllDigits(ds) && AllDigits(ds') && |ds| > 0 && |ds'| > 0
    requires Decimal(ds) % 256 == Decimal(ds') % 256
    ensures Feed(s, color, Sgr(ds), decode) == Feed(s, color, Sgr(ds'), decode)
  {
    WellFormedSequence(s, color, ds, decode);
    WellFormedSequence(s, color, ds', decode);
  }

  /** `ESC[286m` selects exactly what `ESC[30m` selects: 286 wraps to 30. */
  lemma AccumulatorWraps(s: EscState, color: ColorCode, decode: Decoder)
    requires Ready(s)
    ensures Feed(s, color, Sgr([Zero + 2, Zero + 8, Zero + 6]), decode) ==
              Feed(s, color, Sgr([Zero + 3, Zero + 0]), decode)
  {
    var big := [Zero + 2, Zero + 8, Zero + 6];
    var small := [Zero + 3, Zero + 0];
    assert big[..2] == [Zero + 2, Zero + 8] && big[..2][..1] == [Zero + 2];
    assert Decimal(big[..2][..1]) == 2;
    assert Decimal(big[..2]) == 28;
    assert Decimal(big) == 286;
    assert small[..1] == [Zero + 3];
    assert Decimal(small) == 30;
    SameResidueSameColor(s, color, big, small, decode);
  }
}
