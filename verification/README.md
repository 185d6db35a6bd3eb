# VGA text console and keyboard buffer — Dafny model

This project models the x86 PC VGA text-mode console of the ArceOS-based kernel
(`modules/axhal/src/platform/x86_pc/vga_buffer.rs`) as pure Dafny functions over
immutable records, and proves what the driver promises:

- **Colour model** (`color.dfy`, module `Color`): the 16 logical console colours,
  the 16-entry VGA palette, the map between them with its quirks, and the
  attribute byte `(bg << 4) | fg`.
- **Escape-sequence interpreter** (`escape.dfy`, module `Escape`): `process_char`,
  the state machine `PutChar | SetColor(Start | LeftBrackets | Value(v) | End)`
  that recognises `ESC '[' digits? 'm'`, the colour-selecting subset of SGR
  (ECMA-48 section 8.3.117). The digit-to-colour conversion of the logging layer
  (`TryFrom<u8> for ColorCode`) is not part of this model; every operation takes
  it as a parameter `decode: Byte -> Option<ConsoleColor>`.
- **Text surface** (`grid.dfy`, module `Grid`): the 25 x 80 grid of (glyph,
  attribute) cells, the whole-cell write, the row shift of `scroll_up`, and a
  model of the `core::ptr::copy` call the source uses for it.
- **Console device** (`console.dfy`, module `Console`): the record
  `TextMode(x, y, color, state, grid)`, `VgaTextMode::new`, the clearing loop of
  `init_early`, `scroll_up`, `VgaTextMode::putchar` (`PutRaw`), the free
  `putchar` that runs the interpreter first (`PutByte`), and `write_str`
  (`WriteStr`) as the fold of `PutByte` over the bytes.
- **Level gate** (`debug.dfy`, module `Debug`): `set_max_level` and the gate,
  tag and colour handling of `print_debug`.
- **Stdin ring buffer** (`stdin.dfy`, module `Stdin`): `StdinBuffer` with
  capacity 1024, refined to a FIFO queue (`Contents`) that drops the newest
  byte when full.

A panic of the source (backspace at column 0, `set_max_level(4)`) is a `None`
result, not a precondition. Integer widths are explicit: the SGR accumulator
`v * 10 + d` is a `u8` and wraps modulo 256 (the behaviour of a release build;
a debug build would panic instead), which `Escape.AccumulatorWraps` shows makes
`ESC[286m` select what `ESC[30m` selects.

A byte that breaks off a sequence resets the state to `PutChar`, and the free
`putchar` then prints that same byte (vga_buffer.rs:165-166, 179-181, 203-205).

## Model

| member | source | states |
|---|---|---|
| `Color.Index` | modules/axhal/src/platform/x86_pc/vga_buffer.rs:35-52 | every palette entry has a hardware number below 16 |
| `Color.FromIndex` | modules/axhal/src/platform/x86_pc/vga_buffer.rs:35-52 | each number below 16 names the palette entry whose number it is |
| `Color.FromConsoleColor` | modules/axhal/src/platform/x86_pc/vga_buffer.rs:55-74 | the map never yields DarkGray, yields Gray exactly for White and BrightBlack, and shows Yellow as Brown |
| `Color.FromConsoleColorCollisions` | modules/axhal/src/platform/x86_pc/vga_buffer.rs:64-65 | two logical colours share a palette entry iff they are equal or are White and BrightBlack |
| `Color.Pack` | modules/axhal/src/platform/x86_pc/vga_buffer.rs:84-86 | the attribute byte's low nibble is the foreground number and its high nibble the background number |
| `Color.PackRoundTrip` | modules/axhal/src/platform/x86_pc/vga_buffer.rs:84-86 | foreground and background are both recovered from the packed byte |
| `Color.UnpackRoundTrip` | modules/axhal/src/platform/x86_pc/vga_buffer.rs:80-86 | every attribute byte is the packing of the pair it decodes to, so packing is a bijection onto bytes |
| `Escape.ColorOf` | modules/axhal/src/platform/x86_pc/vga_buffer.rs:188-195 | a completed number selects the decoded colour on Black, or White on Black when decoding fails |
| `Escape.Step` | modules/axhal/src/platform/x86_pc/vga_buffer.rs:152-221 | the byte is printed iff it does not continue the `ESC [ digits m` grammar; printing never changes the colour; the colour changes only on the final `m`; ESC after plain text or a finished sequence opens a new one |
| `Escape.FeedAppend` | modules/axhal/src/platform/x86_pc/vga_buffer.rs:152-221 | interpreting two byte strings in turn is interpreting their concatenation, and both are swallowed iff the concatenation is |
| `Escape.DigitsAccumulate` | modules/axhal/src/platform/x86_pc/vga_buffer.rs:175-201 | after `ESC [`, a digit run is swallowed and leaves the `u8` accumulator at its decimal value modulo 256 |
| `Escape.WellFormedSequence` | modules/axhal/src/platform/x86_pc/vga_buffer.rs:152-228 | from plain text or right after a finished sequence, a well-formed `ESC [ ds m` is swallowed byte by byte, ends in `End`, and sets the decoded colour on Black, White on Black for no digits or a failed decode |
| `Escape.SameResidueSameColor` | modules/axhal/src/platform/x86_pc/vga_buffer.rs:198-201 | two non-empty digit strings whose values agree modulo 256 select the same state and colour, because the accumulator is a `u8` |
| `Escape.AccumulatorWraps` | modules/axhal/src/platform/x86_pc/vga_buffer.rs:198-201 | one instance: `ESC[286m` and `ESC[30m` end in the same state and colour |
| `Grid.SetCell` | modules/axhal/src/platform/x86_pc/vga_buffer.rs:247-248 | a cell write keeps the grid's shape and changes exactly the addressed cell |
| `Grid.ScrollRows` | modules/axhal/src/platform/x86_pc/vga_buffer.rs:135-150 | row r becomes old row r+n for r < 25-n, and the bottom n rows keep their stale contents |
| `Grid.Flatten` | modules/axhal/src/platform/x86_pc/vga_buffer.rs:94-96 | the row-major memory image of a grid of 80-cell rows has 80 cells per row |
| `Grid.FlattenSuffix` | modules/axhal/src/platform/x86_pc/vga_buffer.rs:144-145 | the address of `buffer[line][0]` is cell `line * 80` of the image, and the rows from there are the image from there |
| `Grid.MemMove` | modules/axhal/src/platform/x86_pc/vga_buffer.rs:146-148 | an element-count copy succeeds iff both ranges lie in memory, and then overwrites exactly the destination range with the source range |
| `Grid.AsWrittenScrollOverruns` | modules/axhal/src/platform/x86_pc/vga_buffer.rs:142-147 | the copy as written leaves the 2000-cell buffer for every line count up to 25 |
| `Grid.ElementCountCopyShiftsRows` | modules/axhal/src/platform/x86_pc/vga_buffer.rs:142-147 | the same copy with an element count is exactly the intended row shift |
| `Console.New` | modules/axhal/src/platform/x86_pc/vga_buffer.rs:125-133 | a new console has its cursor at the origin, prints White on Black and has no sequence pending |
| `Console.InitEarly` | modules/axhal/src/platform/x86_pc/vga_buffer.rs:327-338 | whatever the bound surface held, every cell becomes a space in the current colour and cursor, colour and state are kept |
| `Console.ScrollUp` | modules/axhal/src/platform/x86_pc/vga_buffer.rs:135-150 | more than 25 lines changes nothing; otherwise rows move up by `line`, the bottom rows stay stale and the cursor row drops by exactly `line` |
| `Console.Settle` | modules/axhal/src/platform/x86_pc/vga_buffer.rs:253-259 | after wrapping and scrolling the cursor is back on the 80 x 25 surface with colour and state kept |
| `Console.PutRaw` | modules/axhal/src/platform/x86_pc/vga_buffer.rs:230-260 | it panics iff backspace at column 0; the cursor stays on the surface; CR changes only x; LF moves to the next row's start or scrolls; backspace blanks exactly the cell left of the cursor; a glyph changes exactly the cell at the cursor and wraps at column 79 to the next row, or scrolls on the last row |
| `Console.PutByte` | modules/axhal/src/platform/x86_pc/vga_buffer.rs:305-311 | a byte that continues a sequence leaves cursor and cells untouched; any other byte is drawn as by the raw step with the interpreter reset; it panics iff a drawn backspace meets column 0 |
| `Console.WriteStr` | modules/axhal/src/platform/x86_pc/vga_buffer.rs:317-324 | writing a string keeps the device invariant whenever it does not panic, and leaves interpreter state and colour exactly where the interpreter alone would put them on those bytes |
| `Console.WriteStrAppend` | modules/axhal/src/platform/x86_pc/vga_buffer.rs:317-324 | writing `a + b` is writing `a`, then `b` unless `a` panicked |
| `Console.SwallowedLeavesScreen` | modules/axhal/src/platform/x86_pc/vga_buffer.rs:305-311 | bytes the interpreter swallows leave cursor and every cell unchanged |
| `Console.SgrSelectsColor` | modules/axhal/src/platform/x86_pc/vga_buffer.rs:185-197 | from plain text or right after a finished sequence, writing `ESC [ ds m` changes only the colour and the interpreter state, to the colour the number selects |
| `Console.AbortPrintsOffender` | modules/axhal/src/platform/x86_pc/vga_buffer.rs:159-215 | the byte that breaks off a sequence is drawn in the colour in force, exactly as a plain byte |
| `Console.WriteRow` | modules/axhal/src/platform/x86_pc/vga_buffer.rs:246-256 | from plain text or right after a finished sequence, plain text fitting on the row is laid out left to right in the current colour, nothing else changes, and filling the row, when it is not the last row, wraps to the start of the next row |
| `Debug.SetMaxLevel` | modules/axhal/src/platform/x86_pc/vga_buffer.rs:357-364 | the new maximum is accepted iff it is at most 3, and then it is the given level |
| `Debug.Tag` | modules/axhal/src/platform/x86_pc/vga_buffer.rs:373-396 | every tag is eight plain printable bytes |
| `Console.NoBackspaceNoPanic` | modules/axhal/src/platform/x86_pc/vga_buffer.rs:240-245 | a string without backspace bytes is written without panicking |
| `Debug.TagStage` | modules/axhal/src/platform/x86_pc/vga_buffer.rs:373-400 | writing the tag never panics (it holds no backspace), and after it the colour is White on Black again |
| `Debug.DefaultGate` | modules/axhal/src/platform/x86_pc/vga_buffer.rs:20 | with the start-up maximum of 3, a call is refused iff its level is 0 or above 3 |
| `Debug.PrintDebug` | modules/axhal/src/platform/x86_pc/vga_buffer.rs:366-401 | the call is refused iff the level exceeds the maximum or is not 1, 2 or 3 |
| `Debug.PrintDebugLayout` | modules/axhal/src/platform/x86_pc/vga_buffer.rs:373-401 | when no sequence is pending and the tag fits on the cursor's row (`x + 8 < 80`), an accepted call draws the eight tag cells in the level's colour on Black, moves the cursor eight columns, restores White on Black and then writes the body |
| `Stdin.Contents` | modules/axhal/src/platform/x86_pc/vga_buffer.rs:264-269 | the queue a ring holds has `size` bytes |
| `Stdin.New` | modules/axhal/src/platform/x86_pc/vga_buffer.rs:272-279 | a new buffer satisfies the ring invariant and holds the empty queue |
| `Stdin.Push` | modules/axhal/src/platform/x86_pc/vga_buffer.rs:281-287 | push keeps the ring invariant, appends the byte when fewer than 1024 are queued, and otherwise leaves the buffer exactly as it was |
| `Stdin.Pop` | modules/axhal/src/platform/x86_pc/vga_buffer.rs:289-298 | pop keeps the ring invariant and returns the oldest byte and the rest of the queue, or `None` with the buffer unchanged when empty |
| `Stdin.PushAll` | modules/axhal/src/platform/x86_pc/vga_buffer.rs:301-303 | successive pushes queue the bytes that fit and drop the rest |
| `Stdin.Drain` | modules/axhal/src/platform/x86_pc/vga_buffer.rs:313-315 | popping until empty yields exactly the queued bytes, oldest first |
| `Stdin.FifoRoundTrip` | modules/axhal/src/platform/x86_pc/vga_buffer.rs:281-298 | pushing bytes into an empty buffer and draining it returns them in order, cut to the first 1024 |

## Left out

- Locking (`SpinNoIrq`), the `static mut LEVEL_DEBUG` and interrupt safety: concurrency, not sequential logic. The maximum level is a parameter that `Debug.SetMaxLevel` returns and `Debug.PrintDebug` takes. `print_debug` holds the `VGA` lock while `write_str` calls the global `putchar`, which takes the same lock again; that re-entrancy would deadlock a non-reentrant spin lock and is not modelled: `WriteStr` folds the per-byte step over the console it is given.
- Binding the buffer to memory (`LazyInit`, the cast of `0xb8000`, `phys_to_virt` in `init`): memory-mapped I/O. `Console.New` has an empty surface for the unbound buffer, and `Console.InitEarly` takes the surface it binds to as a parameter and keeps only the clearing loop. A cell write or scroll before `init_early` dereferences the unbound `LazyInit` and panics. Every `Console` step requires a bound surface (`Valid`), so the carriage-control and escape bytes the source accepts before binding are also outside the model.
- The `TryFrom<u8>` table of the logging layer: not part of this model, so it is the `decode` parameter. Callers send 92, 94 and 93 (`ulib/axstd/src/macros.rs`); the model does not fix what they decode to.
- `core::fmt` (`write_fmt`, `fmt::Arguments`): the formatted body is an opaque byte string, and `write_str` never fails.
- `put2stdin` and `getchar` are `Stdin.Push` and `Stdin.Pop` behind the lock.
- `Console.ScrollUp`: requires `line <= current_y` when `line <= 25`, because `current_y -= line` would underflow a `usize`; the console only scrolls by the one row past the bottom, which always satisfies this. With `line == 25` the source panics at `&buffer[25][0]`; the model instead applies the intended shift (no row moves).
- `Console.InitEarly`: requires the bound surface to be a full 25 x 80 grid, which the hardware buffer is by construction.
- The HTTP server application: no console logic.

## Findings

| source | as written | input that shows it | evidently intended | confidence | as-written member | corrected member |
|---|---|---|---|---|---|---|
| modules/axhal/src/platform/x86_pc/vga_buffer.rs:142-147 | `ptr::copy(src, dst, size)` gets `size = (25 - line) * 80 * size_of::<VgaTextChar>()`, a byte count, but counts elements, so it copies twice the intended cells; with `line == 25`, `&buffer[25]` is out of range | a line feed on the last row calls `scroll_up(1)`, which copies 3840 cells from cell 80 of a 2000-cell buffer, reading and writing past its end | copy `(25 - line) * 80` cells, moving rows `[line, 25)` to `[0, 25 - line)` | high (not executed) | `Grid.AsWrittenScrollOverruns` | `Grid.ScrollRows` |
