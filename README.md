# Brainfuck showMemory, modelled in Dafny

BrainfuckHelper is a VS Code extension. Its `brainfuckhelper.showMemory` command runs the
open document as a Brainfuck program on a tape of 0xFFFF byte cells and appends a report to
an output channel. The report holds the program's input, its output and a view of the first
cells of the tape. This project models the three parts of that command:

- **The directive scanner.** Lines that start with `input:`, `debug:`, `step:` or
  `timeout:` set the input text, the number of cells shown, the delay between steps and the
  timeout. For each prefix, the last such line wins. These lines stay in the program that is
  run.
  - `Directives.Scan` is the `forEach` loop over the lines.
  - `Directives.Resolve` is its meaning, stated as a function.
- **The interpreter loop.**
  - `Interpreter.Next` is one pass of the `while` loop on a state value.
  - `Interpreter.RunFor` is at most `fuel` passes.
  - `Interpreter.Machine` is a class with the tape as an `array<byte>`. Its `Step` and `Run`
    methods change the machine in place and are proved to follow `Next` and `RunFor`.
  - The loop stack keeps its top at index 0. The entry `-1` (`Skip`) marks a loop entered on
    a zero cell whose body is being skipped.
  - A `]` that finds a non-zero cell and an empty stack sets the position to `undefined` in
    the source, which ends the loop. The model records this as `halted`.
- **`DisplayMemory`.**
  - `MemoryView.DisplayMemory` is the source's `for` loop over an array.
  - `MemoryView.Render` is its meaning: ten 7-character cells per row, each row opened by a
    14-character header holding the row's first index. The pointer's cell is drawn
    `|>v  <|`.

`ShowMemory.Show` puts the three together and appends the summary the command writes after
the run; `ShowMemory.Report` is its meaning.

JavaScript behaviour the program relies on is written out in `JsText`:

- `split`, `startsWith` and `padEnd`;
- `parseInt`, including leading white space, a sign, a `0x` prefix and NaN;
- number `toString`;
- the UTF-16 view of a string, the first byte `TextEncoder` gives for one code unit, and
  `String.fromCharCode`.

A JavaScript number that can be NaN is `Number = Int(value) | NaN`. A comparison with NaN is
false (`LessThan`). Tape cells are integers in 0..255, and `+`/`-` wrap explicitly with `% 256`.

## Model

| member | source | states |
|---|---|---|
| Directives.LastValue | src/extension.ts:42-54 | (definition) the text after the prefix on the last line that starts with it, or nothing when no line does |
| Directives.Resolve | src/extension.ts:38-55 | (definition) the input text, and the `debug:`, `step:` and `timeout:` values read with `parseInt`, each from its last directive line, with the defaults 30, 0 and 20000 where there is none |
| Directives.Scan | src/extension.ts:42-55 | scanning the lines of `documentText.split("\n")` one by one gives exactly the settings `Resolve` assigns to those lines |
| Directives.LastValueIsLastMatch | src/extension.ts:42-55 | a setting is absent exactly when no line starts with its prefix; otherwise it is the text after the prefix on a line that starts with it, and no later line does |
| Directives.LastLineWins | src/extension.ts:43-54 | a later line with the prefix overrides every earlier one, and its value is the text after the prefix |
| Directives.OtherLinesIgnored | src/extension.ts:43-54 | a line that does not start with the prefix leaves that setting as it was |
| Directives.LastValueStep | src/extension.ts:42-55 | each further line either sets the value from its own text or keeps the previous one |
| Directives.DefaultsWithoutDirectives | src/extension.ts:38-41 | without directive lines the input is empty, 30 cells are shown, the delay is 0 and the timeout 20000 |
| JsText.StartsWith | src/extension.ts:43-52 | (definition) `startsWith`: the prefix is no longer than the line and equals its first characters |
| JsText.Split | src/extension.ts:42 | `split` gives at least one line, and no line holds the separator |
| JsText.IsWhiteSpace | src/extension.ts:47-53 | (definition) the white space and line terminators `parseInt` skips: tab, line feed, vertical tab, form feed, carriage return, space, no-break space, the Unicode space separators, U+2028, U+2029 and the byte order mark |
| JsText.TrimStart | src/extension.ts:47-53 | the text left is a suffix of the line, everything removed is white space, and it does not itself start with white space |
| JsText.ParseInt | src/extension.ts:47-53 | `parseInt` skips leading white space and reads a sign and a magnitude; a negative result needs a `-` as the first character after the white space |
| JsText.ParseSigned | src/extension.ts:47-53 | (definition) a leading `-` negates the magnitude that follows, a leading `+` is dropped |
| JsText.ParseMagnitude | src/extension.ts:47-53 | the unsigned part: radix 16 after `0x` or `0X`, radix 10 otherwise; a number it gives is never negative |
| JsText.ParseDigits | src/extension.ts:47-53 | the result is NaN exactly when the text is empty or does not start with a digit of the radix; otherwise it is the non-negative value of the longest run of digits |
| JsText.NatToString | src/extension.ts:140-144 | `toString` of a non-negative integer is at least one character, all decimal digits |
| JsText.NumberToString | src/extension.ts:123 | (definition) an integer as `toString` writes it, with a `-` before a negative one, and `NaN` for NaN |
| JsText.FromCharCode | src/extension.ts:83 | `String.fromCharCode` of a cell gives the character whose code is the cell's value |
| JsText.JoinSplit | src/extension.ts:42 | the lines `split` produces, joined again with the separator, give back the document |
| JsText.SplitJoin | src/extension.ts:42 | splitting the join of separator-free lines gives back exactly those lines |
| JsText.ParseIntIntToString | src/extension.ts:47 | `parseInt` reads back any integer written by `toString`, negative ones included |
| JsText.ParseIntNatToString | src/extension.ts:47 | `parseInt` reads back a non-negative number even when a non-digit such as the `\r` of a Windows line ending follows it; only after a lone `0` must that character not be `x` or `X`, which would start a `0x` prefix |
| JsText.NatToStringWidth | src/extension.ts:140-144 | a number below `10^k` has at most `k` decimal digits, so a cell value never overflows its 3 columns and a row index below 100000 never overflows its 5 |
| JsText.PadEnd | src/extension.ts:140-144 | `padEnd` keeps the text, adds only spaces after it, and makes it as long as the width unless it is already longer |
| JsText.FirstUtf8Byte | src/extension.ts:98 | the byte `,` stores is below 0x80 exactly when the code unit read is ASCII |
| JsText.Utf16 | src/extension.ts:98 | the input text as `input[k]` indexes it: at least one UTF-16 code unit per character, each below 0x10000 |
| Interpreter.Init | src/extension.ts:29-37 | (definition) a zeroed tape of 0xFFFF cells, pointer, position and input cursor 0, an empty loop stack and output, not halted |
| Interpreter.Finished | src/extension.ts:59-94 | (definition) the loop test `programPosition < brainfuck.length` fails: the position is past the program, or it became `undefined` at a `]` with an empty stack (`halted`), and `undefined < n` is false |
| Interpreter.InputByte | src/extension.ts:97-99 | (definition) the byte `,` stores for input cursor `k`: the first UTF-8 byte of the `k`-th code unit, or 0 past the end of the input |
| Interpreter.Pop | src/extension.ts:91-95 | (definition) `splice(0, 1)`: the stack without its top entry, and an empty stack stays empty |
| Interpreter.Next | src/extension.ts:59-109 | one pass leaves the position within the program and only extends the output and the input cursor |
| Interpreter.NextKeepsInv | src/extension.ts:59-109 | one pass keeps the pointer on the tape and the position in the program; it keeps every stack entry either `-1` or the position of a `[`, with the `-1` entries above the others; and while a loop is skipped the current cell stays zero |
| Interpreter.RunFor | src/extension.ts:59-119 | any number of passes keeps that invariant, only extends the output and the input cursor, and a finished run stays as it is |
| Interpreter.PointerMoves | src/extension.ts:68-75 | `<` at 0 wraps to 65534 and `>` at 65534 wraps to 0; otherwise they move the pointer by one; nothing but the pointer and the position changes |
| Interpreter.CellArithmetic | src/extension.ts:76-81 | `+` and `-` change only the current cell, by one modulo 256 (255+1 is 0, 0-1 is 255); the pointer, the stack, the output and the input cursor stay |
| Interpreter.WriteAppendsCell | src/extension.ts:82-84 | `.` appends exactly one character, whose code is the current cell; tape, pointer, stack and input cursor stay |
| Interpreter.ReadStoresInput | src/extension.ts:97-100 | `,` overwrites only the current cell with the next input byte, or 0 once the input is used up, and advances the input cursor by exactly one |
| Interpreter.AsciiInputReadsCodes | src/extension.ts:98 | for an ASCII input the byte read at cursor `k`, `InputByte(Utf16(text), k)`, is the code of the `k`-th character; with `ReadStoresInput`, that is what the `k`-th `,` stores |
| Interpreter.SkippedCharactersDoNothing | src/extension.ts:61-65 | while the stack top is `-1`, any character but `[` and `]` only advances the position |
| Interpreter.OpenPushes | src/extension.ts:85-87 | `[` pushes `-1` when the cell is zero or a loop is already skipped, and its own position otherwise |
| Interpreter.SkippedCloseOnlyPops | src/extension.ts:88-93 | a `]` met while skipping pops and moves on; it never jumps to `-1` |
| Interpreter.CloseJumpsOrPops | src/extension.ts:88-96 | `]` on a non-zero cell returns to the position of the `[` on top of the stack and pops it without moving past it; on a zero cell it pops and advances |
| Interpreter.CloseOnEmptyStack | src/extension.ts:88-96 | `]` with an empty stack advances on a zero cell; on a non-zero cell the position becomes `undefined`, so the run halts with nothing else changed |
| Interpreter.OpenAtEnclosing | src/extension.ts:85-96 | every open bracket position is a `[` before the current position, and the loops open at it are exactly those enclosing it |
| Interpreter.NextTracks | src/extension.ts:85-96 | in a program whose every `]` closes an earlier `[`, one pass keeps the stack in step with the open brackets and never halts |
| Interpreter.RunTracks | src/extension.ts:59-119 | in such a program every run keeps the stack depth equal to the number of loops open at the position and never halts |
| Interpreter.InitIsValid | src/extension.ts:29-36 | the start state (zeroed tape, everything at 0, empty stack) meets the invariant and has no open loop |
| Interpreter.ReachableStates | src/extension.ts:59-119 | from the start the pointer is always within 0..65534, and while a loop is skipped the current cell is zero |
| Interpreter.Machine.constructor | src/extension.ts:29-37 | a fresh zeroed tape of 0xFFFF cells, pointer, position and input cursor 0, empty stack and output |
| Interpreter.Machine.Step | src/extension.ts:59-109 | one pass changes the tape and fields in place exactly as `Next` says, keeping the invariant |
| Interpreter.Machine.Run | src/extension.ts:59-119 | the loop, run for at most `fuel` passes, leaves the machine in the state `RunFor` gives |
| MemoryView.Header | src/extension.ts:140 | (definition) a line break, the row's first index padded to 5, a colon and 7 spaces |
| MemoryView.Cell | src/extension.ts:141-145 | (definition) the value padded to 3 inside a 7-character frame, drawn with arrows for the pointer's cell and with spaces otherwise |
| MemoryView.CellCount | src/extension.ts:138 | (definition) the loop visits `length` cells when `length` is a positive integer and none when it is zero, negative or NaN |
| MemoryView.Piece | src/extension.ts:140-145 | (definition) what one pass of the loop body adds for cell `i`: the row header when `i % 10 == 0`, then the cell, marked when `i` is the pointer |
| MemoryView.Render | src/extension.ts:136-149 | (definition) the texts of cells `0..n-1` in order, each preceded by its row header when its index is a multiple of 10 |
| MemoryView.DisplayMemory | src/extension.ts:136-149 | the loop's text is the view `Render` gives of the first `length` cells; it is empty for a negative or NaN length |
| MemoryView.RenderStep | src/extension.ts:140-145 | appending the row header when `i % 10 == 0`, then the cell, extends the view by cell `i` |
| MemoryView.RenderExtend | src/extension.ts:138-147 | the view of one more cell is the view so far followed by that cell's text |
| MemoryView.PieceWidths | src/extension.ts:140-144 | every cell is 7 characters and every row header 14 |
| MemoryView.PieceLength | src/extension.ts:140-145 | the text for one cell is 7 characters, plus 14 when it opens a row |
| MemoryView.RenderLength | src/extension.ts:136-149 | the view of `n` cells is `7n + 14 * ceil(n / 10)` characters long |
| MemoryView.CellOffset | src/extension.ts:140-145 | the text before cell `i` ends at `7i + 14(i / 10 + 1)` |
| MemoryView.RenderPrefix | src/extension.ts:136-149 | the view of fewer cells is the beginning of the view of more |
| MemoryView.LastCell | src/extension.ts:140-145 | the view of cells `0..i` ends with cell `i`, preceded by its row header when it opens a row |
| MemoryView.CellLayout | src/extension.ts:140-145 | cell `i` sits at `7i + 14(i / 10 + 1)` and shows its value, marked exactly when `i` is the pointer; a row's header sits right before its first cell |
| MemoryView.CellMarkers | src/extension.ts:141-145 | a cell holds a `>` exactly when it is drawn for the pointer |
| MemoryView.HeaderMarkers | src/extension.ts:140 | a row header holds no `>` |
| MemoryView.PieceMarkers | src/extension.ts:140-145 | the text for cell `i` holds one `>` when `i` is the pointer and none otherwise |
| MemoryView.OneMarkIffPointerShown | src/extension.ts:136-149 | the view holds exactly one `>` when `0 <= pointer < n` and none otherwise, so exactly one cell is marked iff the pointer is shown |
| ShowMemory.Show | src/extension.ts:29-124 | scanning, running the whole document, and rendering give exactly the report `Report` describes |
| ShowMemory.Opening | src/extension.ts:121 | (definition) the input and output headings with their texts, and the memory heading |
| ShowMemory.TimedOut | src/extension.ts:115-124 | (definition) the run was cut short: the step bound ran out before the program ended, and the timeout is a number (a NaN timeout never compares as passed) |
| ShowMemory.Summary | src/extension.ts:120-124 | (definition) the opening, the memory view, then the timeout notice with the timeout's `toString` when the run was cut short |
| ShowMemory.Report | src/extension.ts:29-124 | (definition) the summary for the settings `Resolve` reads from the document, after `RunFor` on the whole document; nothing when the view asks for more cells than the tape has |
| ShowMemory.SummaryLayout | src/extension.ts:121-124 | the summary starts with the input and then the output; the memory view sits right after the opening; text follows the view exactly when the run was cut short |
| ShowMemory.ReportShape | src/extension.ts:120-124 | the report is missing exactly when the `debug:` length exceeds the tape; otherwise it starts with the scanned input and the output of running the whole document, directive lines included, holds `Render` of the final tape and pointer right after the opening, and has text after it exactly when `TimedOut` holds |

## Left out

- The output channel and the editor are not modelled: `activate`, command registration,
  `clear`, `show` and the "Starting execution" line. `ShowMemory.Report` is the text
  appended after the run.
- The `#` command only appends a memory dump to the channel, so the model treats it like any
  other character. One effect is not captured: with a `debug:` length above 0xFFFF, the dump
  throws in the middle of the run.
- The `step:` delay is not modelled: the memory dump after each pass and `sleep`. The delay is
  scanned but not used. A delay with a `debug:` length above 0xFFFF throws after the first
  pass; the report is missing then too, which matches `Report` returning `None`.
- The wall clock (`Date.now()`) is replaced by a step bound. `Run` and `RunFor` stop after
  `fuel` passes.
  - A run "timed out" when the bound ran out before the program finished.
  - A NaN timeout never ends a run in the source; here the bound still applies, and no notice
    is printed.
  - Passes that end with `continue` count like the others, although the source skips its
    clock check after them.
- `MemoryView.DisplayMemory` requires the length to be at most the tape size, because the
  source throws on `undefined.toString()` past the tape. `ShowMemory.Report` is `None` in that
  case.
- Program positions count Unicode characters, not UTF-16 code units. No command character
  lies outside the Basic Multilingual Plane, so only the numbering of positions differs.
  Jumps return to the same `[` either way.
- Input characters are read as UTF-16 code units, as `input[lastInput]` does.
  `TextEncoder` is written out only for its first byte; a lone surrogate gives the first
  byte of U+FFFD.
- JavaScript numbers are modelled as unbounded integers or NaN. Precision above 2^53 is not
  modelled, and neither are the infinities.
- JsText.ParseInt: a digit run too long for a double gives Infinity (or -Infinity) in the
  source; here it gives the exact integer.
- JsText.NumberToString: a value of 10^21 or more is written in exponent notation by the
  source and "Infinity" for an infinite value; here all its digits are written.
- ShowMemory.TimedOut: an infinite `timeout:` never ends a run in the source, so no notice is
  printed; here the step bound still applies and the notice shows the integer's digits. A
  negative timeout ends the source's run after the first pass that reaches the clock check;
  here the run goes on for the whole step bound.
