# gopnik: a model of the editor core

gopnik is a terminal pixel editor. Its canvas is a grid of runes ("pixels")
that the user paints with the mouse. A command line opened with `:`
saves and loads the canvas as text and changes the brush. This project
models, in Dafny, the core of `main.go`:

- the editor state (`Editor.Model`): its startup value, its reaction to each
  message (`Update`) and the screen it shows (`View`);
- the parsing of a command line into an action (`Commands.ParseCommand`,
  `Commands.DecodeBrush`) and the effect of that action on a store of
  files (`Commands.Execute`);
- the text format of a saved canvas: `newCanvas`, `dumpCanvas` and
  `loadCanvas` (`Canvas.NewCanvas`, `Codec.DumpCanvas`, `Codec.LoadCanvas`);
- the Go library behaviour these rely on (`strings.SplitN`,
  `strings.TrimRight`, `strings.ToLower`, `strconv.Atoi`,
  `strconv.ParseInt`, `fmt`'s treatment of a format string, UTF-8
  encoding), in module `Text`.

A Go panic is an explicit result here, never a precondition:

- `Effect.Panic` for backspace on an empty buffer while the command line is active, or an empty key string while it is inactive.
- `Action.Fault` for a command line with no space other than `q` or `quit`, or an empty brush argument.
- `Loaded.Panicked` for a header line that, with its trailing spaces trimmed, is a numeral and holds no space (`80 ` panics too).
- `Outcome.Crashed` when a command panics.

Go strings (keys, the command buffer, paths) are byte strings: `Bytes`,
whose every char is below 0x100. The canvas file is modelled as the text
it decodes to, a sequence of code points. The file system is a map from
paths to texts. The deferred command (`tea.Cmd`) is modelled by its
result: `Commands.Interpret` gives the message that the runtime would
hand back to `Update`.

Files: `text.dfy` (Text), `canvas.dfy` (Canvas), `codec.dfy` (Codec),
`commands.dfy` (Commands), `editor.dfy` (Editor).

Behaviours of the code worth knowing:

- `:` opens the command line without clearing the buffer. Text typed
  before a ctrl+c cancel is still there the next time `:` is pressed.
- ctrl+c in command mode only deactivates the command line. It keeps the buffer.
- Backspace on an empty buffer slices out of range and panics.
- `save` (or any other verb except `q`/`quit`) with no space after it indexes a missing
  field and panics. It is not a no-op.
- After a successful save the command returns no message.

## Model

| member | source | states |
|---|---|---|
| Canvas.NewCanvas | main.go:33-41 | the new canvas has exactly `height` rows of `width` cells, every cell a space |
| Canvas.Int32 | main.go:205 | `pixel(v)` keeps the low 32 bits: an in-range value is unchanged, any other differs from `v` by a multiple of 2^32 |
| Codec.CellText | main.go:252 | a cell writes a single code point equal to itself exactly when it is a scalar value other than `%` |
| Codec.DumpRow | main.go:251-255 | the inner loop writes the text of the row's first `width` cells |
| Codec.DumpCanvas | main.go:249-261 | the loops write each of the first `height` rows, each followed by a newline |
| Codec.NextRow | main.go:231-243 | a row read from the input has `width` cells |
| Codec.DecodeRows | main.go:228-246 | reading `n` rows that succeeds gives `n` rows of `width` cells |
| Codec.DecodeCanvas | main.go:214-247 | a canvas that loads has the width and height its header announces |
| Codec.LoadCanvas | main.go:214-247 | the method (header read, split, parsed, then the row loop) computes exactly the decoding of its input |
| Codec.ReadCells | main.go:231-237 | the cell loop fails exactly when fewer than `width` code points remain, and otherwise reads the next `width` code points |
| Codec.ReadRows | main.go:228-246 | the row loop, with its early returns, computes the decoding of `height` rows |
| Codec.PlainRowText | main.go:251-255 | a row of plain cells is written as one code point per cell, and those code points are the cells |
| Codec.DecodeRowsSplit | main.go:230-244 | reading `a + b` rows is reading `a` rows and then `b` more from where the first read stopped |
| Codec.DumpedRowDecodes | main.go:230-244 | one dumped row of plain cells reads back as that row, and the text after its newline is left unread |
| Codec.DumpDecodes | main.go:228-261 | reading back the dump of `height` rows of plain cells gives those rows, and whatever follows is left unread |
| Codec.HeaderParses | main.go:216-226 | a header of two numerals followed by spaces is trimmed, split and parsed to those two numbers, and the rows are read from what follows the line |
| Codec.SaveLoadRoundTrip | main.go:177-180 | what save writes (header, then dump) loads back as the same width, height and cells when every cell is plain |
| Codec.SurplusSkipped | main.go:241-243 | cells beyond `width` on a line are skipped up to and including the newline |
| Codec.TooFewLines | main.go:241-243 | input with fewer newlines than rows to read fails |
| Codec.TruncatedFails | main.go:216-243 | a saved canvas cut short, with fewer lines than rows after the header, does not load |
| Codec.HeaderWithoutSpacePanics | main.go:220-224 | a header line holding one numeral and no space passes the width parse and then panics on the missing height field |
| Codec.PercentRowText | main.go:252 | a row holding `%` and a space is written as fmt's missing-verb marker followed by the space |
| Codec.PercentDump | main.go:249-261 | the dump of that one-row canvas is the marker, the space and a newline |
| Codec.PercentHeader | main.go:177 | the saved text of that canvas has a header that parses to 2 by 1 |
| Codec.PercentRows | main.go:228-246 | its row reads back as `%` followed by `!`, and the rest of the marker is skipped |
| Codec.PercentNotRestored | main.go:252 | the 2 by 1 canvas `%` followed by a space does not survive save and load: the space after `%` loads as `!` |
| Commands.DecodeBrush | main.go:201-208 | the brush argument has no value exactly when it is empty; without a `\u`, `\U`, `u+` or `U+` prefix it is the lower-cased first byte |
| Commands.LowerPrefix | main.go:202-203 | lower-casing first, the argument starts with `\u` or `u+` exactly when it starts with one of them in either case, and its remainder parses as the same hexadecimal value |
| Commands.BrushCodePoint | main.go:203-205 | any argument `\u`, `\U`, `u+` or `U+` followed by a hexadecimal numeral up to the 64-bit limit sets the brush to that value cut to 32 bits |
| Commands.BrushFirstByte | main.go:202-208 | any other non-empty argument sets the brush to its first byte, lower-cased |
| Commands.Dispatch | main.go:167-210 | only `s`/`save` saves and only `l`/`load` loads, each to the rest of the line |
| Commands.ParseCommand | main.go:159-166 | a line with no space quits if it is `q` or `quit` and panics otherwise |
| Commands.ParseVerb | main.go:163-167 | a line is split at its first space, and the verb before it selects the action for the text after it |
| Commands.ParsedPath | main.go:171-186 | a line that saves or loads is `s `, `save `, `l ` or `load ` followed by the path |
| Commands.ParseQuit | main.go:168-169 | `q` or `quit` followed by a space and anything quits |
| Commands.ParseSave | main.go:171-172 | `s`/`save` saves to everything after the first space, spaces included |
| Commands.ParseLoad | main.go:185-186 | `l`/`load` loads from everything after the first space, spaces included |
| Commands.ParseBrush | main.go:201-208 | `b`/`brush` with an empty argument panics, and otherwise sets the decoded brush |
| Commands.ParseUnknown | main.go:209-210 | any other verb gives no message |
| Commands.BrushHex | main.go:203-205 | `u+` or `\u` followed by the lower-case hexadecimal numeral of any n up to the 64-bit limit sets the brush to n cut to 32 bits |
| Commands.BrushLowerCase | main.go:202 | the argument is lower-cased before its first byte is taken: `A` gives `a` |
| Commands.BrushEscape | main.go:203-205 | `\u0041`, leading zeros included, gives code point 0x41 |
| Commands.BrushUpperCasePrefix | main.go:202-205 | `U+1F600` is lower-cased and then read as code point 0x1F600 |
| Commands.BrushBadHex | main.go:203-208 | a prefix not followed by a hex numeral falls back to the first byte: `u+zz` gives `u` |
| Commands.Execute | main.go:171-210 | the command crashes exactly on a panic; only quit sends the quit message; a loaded canvas has its announced shape; only save changes the files; save sends nothing and stores the header and dump at its path; load sends the decoded canvas, nothing for a missing file or one that does not decode, and crashes where decoding panics; brush sends the new brush; an unknown verb changes nothing |
| Commands.Interpret | main.go:157-211 | `q` and `quit` quit; any other line without a space crashes; only a line starting `s ` or `save ` changes the files; only a line starting `l ` or `load ` sends a canvas |
| Commands.SaveThenLoad | main.go:171-199 | loading the path just saved gives the saved canvas back, for a canvas of plain cells |
| Commands.SaveThenLoadCommands | main.go:163-199 | typing `save <path>` and then `load <path>` restores a canvas of plain cells |
| Editor.Paint | main.go:90 | painting changes exactly cell (x, y) to the brush and keeps the canvas shape |
| Editor.CursorIsBlock | main.go:140 | the cursor bytes are the UTF-8 encoding of U+2588 |
| Editor.Prompt | main.go:139-141 | the prompt is empty while the command line is inactive, and otherwise a colon, the buffer, the cursor and a newline |
| Editor.Model.constructor | main.go:272-277 | the startup state is an 80 by 50 blank canvas, brush `#`, and an empty, inactive command line |
| Editor.Model.Update | main.go:71-131 | one rule per message kind, in the code's order (see below); the canvas keeps its shape |
| Editor.Model.View | main.go:133-143 | the screen is the UTF-8 dump of the canvas followed by the prompt |
| Editor.QuitByCommand | main.go:101-105 | typing `:`, `q`, enter and feeding back the command's result makes the editor quit |
| Editor.ClickOnce | main.go:86-92 | a press on the startup canvas paints one cell `#` and leaves every other cell blank |
| Editor.PaintSaveLoad | main.go:171-199 | after that click, `save <path>` then `load <path>` hands back the painted 80 by 50 canvas |
| Text.SplitOnceParts | main.go:163-165 | `SplitN(s, sep, 2)` has a second part exactly when `s` holds `sep`; the parts are what comes before and after the first `sep` |
| Text.SplitOnceAt | main.go:163-165 | a separator-free prefix followed by the separator is split off exactly |
| Text.TrimRight | main.go:220 | the trimmed text is a prefix of the input, does not end in a cutset character, and only cutset characters were removed |
| Text.TrimRightStops | main.go:220 | trimming stops at the last character outside the cutset |
| Text.ToLowerAscii | main.go:202 | lower-casing keeps the length, leaves no ASCII capital, turns each capital into its small letter and keeps every other byte |
| Text.HexLower | main.go:202-204 | lower-casing changes neither whether a string is a hexadecimal numeral nor its value |
| Text.Decimal | main.go:177 | `%d` writes a non-empty run of digits with no space or newline |
| Text.DecimalRoundTrip | main.go:221-224 | Atoi reads back any value up to the 64-bit limit that `%d` wrote |
| Text.HexRoundTrip | main.go:204 | ParseInt with base 16 reads back a hexadecimal numeral up to the 64-bit limit |
| Text.EncodeRune | main.go:252 | a code point's UTF-8 encoding is one to four bytes, and is the code point itself exactly when it is ASCII |

`Editor.Model.Update`, rule by rule:

- Result messages:
  - quit asks the runtime to quit and changes nothing;
  - a loaded canvas replaces the width, height and canvas;
  - a brush change replaces the brush.
- Mouse messages:
  - a press, or a motion with the left button held, on a cell inside the canvas paints that cell with the brush;
  - every other mouse event changes nothing.
- Keys while the command line is active:
  - enter hands the buffer to the command interpreter and clears and closes the command line;
  - backspace drops the last byte, or panics on an empty buffer;
  - ctrl+c closes the command line and keeps the buffer;
  - any other key is appended to the buffer.
- Keys otherwise:
  - `:` opens the command line;
  - `q` and ctrl+c quit;
  - an empty key string panics;
  - any other key sets the brush to its first byte.
- Keys never change the canvas.
- Other messages change nothing.

## Left out

- The bubbletea runtime, `Init`, `tea.Batch`, mouse-motion enabling and screen clearing are not modelled. The deferred `tea.Cmd` is modelled by the message it produces.
- Logging (`log.Printf`, the log file set up in `main`) is not modelled.
- `main`'s program start and `newTestCanvas` are not modelled: the latter is unused test scaffolding.
- Commands.Execute: saving cannot fail in the model. A failed `os.OpenFile` or write, which the code logs before returning nothing, is not modelled.
- Commands.Execute: the saved text replaces the file's whole content. `O_CREATE` without `O_TRUNC` would leave the old file's tail behind a shorter new text.
- Codec.LoadCanvas: the file is the code points it decodes to. `ReadRune`'s UTF-8 decoding, including U+FFFD for invalid bytes, is not modelled.
- Codec.DecodeCanvas: `strconv.Atoi`'s optional `+`/`-` sign is not modelled. The model rejects a signed numeral. Go accepts it, and a negative height then panics in `make`.
- Commands.DecodeBrush: `strings.ToLower` is modelled for ASCII letters only. Go also lower-cases non-ASCII runes, possibly changing the byte length.
- Commands.DecodeBrush: `strconv.ParseInt`'s optional sign is not modelled. `u+-41` falls back to the first byte here, where Go reads -0x41.
- Commands.BrushFirstByte: its fallback also covers a signed remainder such as `u+-41`, where Go would read a negative code point instead.
- Codec.DecodeCanvas: a height too large to allocate is not modelled. `make([][]pixel, height)` panics (or the runtime aborts) when the row slice does not fit in memory; the model reads such a header normally and fails later on the missing rows.
- Commands.Execute: because of the line above, a load whose header announces an unallocatable height gives `Done` with no message here, where Go crashes.
- Editor.Model.Update: mouse coordinates are natural numbers. Negative coordinates, which the code's `<` checks would let through to an index panic, are not modelled.
- Editor.Model.Update: the Go model is a value whose canvas slice shares its backing array with earlier copies. Painting in place therefore also changes those copies, including the canvas captured by a pending command. That aliasing is not modelled: the model has one canvas.
- Editor.Model.View: a failure of `dumpCanvas` on the in-memory buffer is not modelled, because writes to a `bytes.Buffer` do not fail.
