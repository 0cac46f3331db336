# Status board of the succinct build logger

A model of the live status board that `SuccinctBuildLogger` draws while a
Maven build runs. It is the `Display` class of
`src/main/java/com/github/xandris/pulchre/SuccinctBuildLogger.java`. The
board has one cell per project. A cell holds a status label, which is a
coloured emoji right-aligned in a status column, followed by the project's
name. The cells are tiled column by column into the terminal's width and
redrawn one at a time as project statuses change.

The model has six modules:

- `Utf16` (`utf16.dfy`) holds the width calculator, `stringWidth` and
  `charWidth`. A Java string is a sequence of UTF-16 code units.
  `StringWidth` is the source's counting loop, proved to compute the
  recursive `Width`. `None` stands for the "Invalid UTF-16" exception. The
  lemmas cover:
  - exactly which inputs fail;
  - width bounds and additivity;
  - ASCII strings measuring their own length;
  - the width of any RFC 2781 encoded text.
- `Layout` (`layout.dfy`) holds `ceilDiv` and the grid arithmetic of
  `showProjects`: how many cells fit across, the number of rows, where
  cell i goes, and why every cell fits and no two cells overlap.
- `Display` (`display.dfy`) holds:
  - the `Status` enum, `Project` and its identity-only equality;
  - the mutable `Label` cell, with `draw` and `getMinWidth`;
  - the `Display` class, with its constructor, `start`, `close`,
    `showProjects`, `status` and `activity`.

  Terminal output is an abstract list of commands. These are cursor moves,
  writes, colour changes, and echo and cursor modes. `Spans` gives that
  list a meaning: the columns each write covers. A method that would throw
  returns an `Output`. It holds the exception and the commands printed
  before it. That includes the `oops1` or `oops2` line that `stringWidth`
  prints just before it throws (lines 450 and 455).
- `BuildEvents` (`events.dfy`) holds `convert(ExecutionEvent.Type)`, the
  mapping from Maven event types to statuses.
- `Terminal` (`terminal.dfy`) holds the `c_lflag` arithmetic of the Unix
  `localEcho`, with the source's constants ECHO = 0x8 and ICANON = 0x100.
  Those are the BSD and macOS values. On Linux 0x100 is TOSTOP (ICANON is
  0x2), so there the same arithmetic turns echo off but leaves canonical
  input on.
- `Wrappers` (`wrappers.dfy`) holds `Option`.

Behaviour of the source worth knowing, modelled as written:

- `stringWidth` joins a surrogate pair with `|` (line 458), where section
  2.2 of RFC 2781 adds 0x10000. The two agree exactly when bit 0x40 of the
  high unit is clear. Text in planes 0 and 1 is therefore measured correctly
  (`WidthOfEncodedLowPlanes`). U+2F300 is measured as two columns, although
  `charWidth` gives it one (`PlaneTwoMismeasured`).
- The unit after a first half is taken as its second half whenever bit
  0x400 is set, surrogate or not (line 454). U+D83D U+0441 measures as the
  single code point U+1F441, two columns wide
  (`AnyUnitWithLowBitCompletesPair`).
- A label wider than the status column is cut to
  `substring(1, statusWidth - 4) + "..."` (line 268). This drops the
  label's first unit. It throws `StringIndexOutOfBoundsException` when the
  column is narrower than 5 or wider than the label's length plus 4
  (`TruncationAsWritten`). The branch can run only in verbose mode, and
  `verbose` is never set (line 284).
- `showProjects` only adds to `labelForProject` (line 343). Only `start`
  clears it (line 304), so projects that are not listed again keep their
  old cells, and `status` and `activity` still redraw those cells at their
  old positions.
- A name that is not valid UTF-16 makes `showProjects` throw from
  `getMinWidth` (line 340). The cells of the projects before it are
  already in `labelForProject`, and nothing is placed or drawn.
- `isValid` (line 98) decides whether `interceptStdStreams` runs, and so
  whether `origOut` is set (line 58). Without a terminal size, `onEvent`
  throws `NullPointerException` at line 160 before it queues `showProjects`
  (line 161). `status` and `activity` are still queued, but they find the
  map that `start` cleared empty and do nothing. The
  `NullPointerException` at line 348 is reached only by a direct call.
- A terminal narrower than one cell makes `showProjects` throw
  `ArithmeticException` at line 349, after it has filled `labelForProject`
  (line 343). The queue's worker only prints the stack trace (lines
  238-240). Later `status` and `activity` calls find those cells and draw
  them at position 0,0. The `ShowProjects` contract states the map update
  on every throwing path, and that every cell is still at position 0,0.

## Model

| member | source | states |
|---|---|---|
| Utf16.CharWidth | src/main/java/com/github/xandris/pulchre/SuccinctBuildLogger.java:463-467 | every code point is one or two columns wide |
| Utf16.CharWidthInBmp | src/main/java/com/github/xandris/pulchre/SuccinctBuildLogger.java:463-467 | in the Basic Multilingual Plane a code point is wide exactly when it lies in U+2700..U+27FF |
| Utf16.CharWidthInPlaneOne | src/main/java/com/github/xandris/pulchre/SuccinctBuildLogger.java:463-467 | in plane 1 a code point is wide exactly when it lies in U+12700..U+127FF or U+1F300..U+1F5FF |
| Utf16.StringWidth | src/main/java/com/github/xandris/pulchre/SuccinctBuildLogger.java:440-461 | the counting loop returns the width `Width` defines, or fails exactly when `Width` does, having printed `Diagnostic` of the string |
| Utf16.Diagnostic | src/main/java/com/github/xandris/pulchre/SuccinctBuildLogger.java:449-456 | the line printed before the "Invalid UTF-16" exception is `oops1` or `oops2` |
| Utf16.DiagnosticAtFirstFault | src/main/java/com/github/xandris/pulchre/SuccinctBuildLogger.java:443-457 | at the first malformed position, a second half or trailing first half prints `oops1` and a first half followed by a unit without bit 0x400 prints `oops2` |
| Utf16.WidthBounds | src/main/java/com/github/xandris/pulchre/SuccinctBuildLogger.java:440-461 | a measured string takes between half a column and two columns per code unit |
| Utf16.WidthWithoutSurrogates | src/main/java/com/github/xandris/pulchre/SuccinctBuildLogger.java:443-447 | a string with no surrogate units never fails, and each unit takes one or two columns |
| Utf16.WidthOfAscii | src/main/java/com/github/xandris/pulchre/SuccinctBuildLogger.java:443-447 | an ASCII string is exactly as wide as it is long |
| Utf16.WidthAppend | src/main/java/com/github/xandris/pulchre/SuccinctBuildLogger.java:440-461 | after a well-formed prefix, widths add up and a failure in the rest is a failure of the whole |
| Utf16.WidthFailsIff | src/main/java/com/github/xandris/pulchre/SuccinctBuildLogger.java:445-457 | measuring fails if and only if a well-formed prefix is followed by a second half, a trailing first half, or a first half followed by a unit without bit 0x400 |
| Utf16.WidthFailsWitness | src/main/java/com/github/xandris/pulchre/SuccinctBuildLogger.java:445-457 | a failed measurement has a malformed position after a well-formed prefix |
| Utf16.AnyUnitWithLowBitCompletesPair | src/main/java/com/github/xandris/pulchre/SuccinctBuildLogger.java:453-458 | after a first half, any unit with bit 0x400 set completes the pair, surrogate or not; U+D83D U+0441 measures as U+1F441, two columns |
| Utf16.Combine | src/main/java/com/github/xandris/pulchre/SuccinctBuildLogger.java:458 | the code point joined from a pair always lies in 0x10000..0xFFFFF |
| Utf16.CombineAgreesWithRfc2781Iff | src/main/java/com/github/xandris/pulchre/SuccinctBuildLogger.java:458 | joining a pair with `|` equals RFC 2781 decoding exactly when bit 0x40 of the high unit is clear |
| Utf16.Measured | src/main/java/com/github/xandris/pulchre/SuccinctBuildLogger.java:453-458 | below plane 2, what the source decodes for an encoded scalar value is that value |
| Utf16.CombineOfEncoded | src/main/java/com/github/xandris/pulchre/SuccinctBuildLogger.java:458 | joining the two units of an encoded supplementary scalar value gives `Measured` of it |
| Utf16.Rfc2781RoundTrip | src/main/java/com/github/xandris/pulchre/SuccinctBuildLogger.java:458 | the reference decoding undoes the reference encoding (the partner `Combine` is compared against) |
| Utf16.WidthOfEncoded | src/main/java/com/github/xandris/pulchre/SuccinctBuildLogger.java:440-461 | the encoding of any sequence of scalar values never fails to measure, and each value counts `charWidth` of what the source decodes |
| Utf16.WidthOfEncodedHead | src/main/java/com/github/xandris/pulchre/SuccinctBuildLogger.java:443-458 | one encoded scalar value in front of any text adds its measured width |
| Utf16.WidthOfEncodedLowPlanes | src/main/java/com/github/xandris/pulchre/SuccinctBuildLogger.java:440-467 | text in planes 0 and 1 is measured as the sum of `charWidth` of its code points |
| Utf16.MeasuredIsTotalBelowPlaneTwo | src/main/java/com/github/xandris/pulchre/SuccinctBuildLogger.java:458 | below plane 2 the source's per-code-point widths equal the correct ones |
| Utf16.PlaneTwoMismeasured | src/main/java/com/github/xandris/pulchre/SuccinctBuildLogger.java:458-466 | U+2F300 encodes as D87C DF00, which the source measures as 2 columns, while `charWidth(U+2F300)` is 1 |
| Layout.CeilDiv | src/main/java/com/github/xandris/pulchre/SuccinctBuildLogger.java:326-329 | fails exactly on a zero divisor; otherwise the result r is the least with n <= r * d |
| Layout.ColumnsIsLargest | src/main/java/com/github/xandris/pulchre/SuccinctBuildLogger.java:348-349 | `cols / labelWidth` is the largest number of cells whose total width fits the terminal |
| Layout.CountersAreDivMod | src/main/java/com/github/xandris/pulchre/SuccinctBuildLogger.java:351-362 | the row and column counters of the placement loop are the remainder and quotient of the cell index by the row count |
| Layout.PlacementFits | src/main/java/com/github/xandris/pulchre/SuccinctBuildLogger.java:348-362 | for a non-empty board the row count is positive, each cell's row is below it, and each cell ends within the terminal width |
| Layout.CellsDisjoint | src/main/java/com/github/xandris/pulchre/SuccinctBuildLogger.java:354-362 | two different cells lie in different rows or in non-overlapping column ranges |
| Display.StatusLabelWidths | src/main/java/com/github/xandris/pulchre/SuccinctBuildLogger.java:419-424 | every status label is valid UTF-16: WAITING's is empty, the other four are two columns wide, and BUILDING's pair decodes to U+1F504 |
| Display.LabelWidth | src/main/java/com/github/xandris/pulchre/SuccinctBuildLogger.java:419-424 | the width `stringWidth` measures for each status label |
| Display.MaxLabelWidth | src/main/java/com/github/xandris/pulchre/SuccinctBuildLogger.java:291-294 | the fold bounds every label's width, is 0 for no labels, and is reached by some label |
| Display.StatusColumnFitsEveryLabel | src/main/java/com/github/xandris/pulchre/SuccinctBuildLogger.java:290-295 | the status column is 2 wide (12 in verbose mode), and every status label fits in it |
| Display.WidestLabel | src/main/java/com/github/xandris/pulchre/SuccinctBuildLogger.java:291-294 | the constructor's loop over `Status.values()` computes the widest label |
| Display.EqualsIsEquivalence | src/main/java/com/github/xandris/pulchre/SuccinctBuildLogger.java:405-416 | `Project.equals` is reflexive, symmetric and transitive, and ignores the name |
| Display.Spaces | src/main/java/com/github/xandris/pulchre/SuccinctBuildLogger.java:264-265 | the fill is `labelWidth` space characters |
| Display.Label.constructor | src/main/java/com/github/xandris/pulchre/SuccinctBuildLogger.java:337-339 | a new cell has the project's name, WAITING, no activity, and position 0,0 |
| Display.Label.MinWidth | src/main/java/com/github/xandris/pulchre/SuccinctBuildLogger.java:277-279 | defined exactly when the name is valid UTF-16, and then wider than the status column |
| Display.Label.Draw | src/main/java/com/github/xandris/pulchre/SuccinctBuildLogger.java:263-275 | a draw that does not throw issues the eight commands of one cell; it can only throw InvalidUtf16 or StringIndexOutOfBounds, and the latter before printing anything |
| Display.Complaint | src/main/java/com/github/xandris/pulchre/SuccinctBuildLogger.java:449-456 | the failing measurement prints exactly one line, `oops1` or `oops2` |
| Display.Label.Place | src/main/java/com/github/xandris/pulchre/SuccinctBuildLogger.java:270-274 | the printing part throws exactly when the chosen label is not valid UTF-16 |
| Display.DrawPlacement | src/main/java/com/github/xandris/pulchre/SuccinctBuildLogger.java:263-275 | outside verbose mode, with the status label fitting, a draw does not throw; it blanks the cell, ends the label at column x + statusWidth, and starts the name at x + statusWidth + 2, on row y + 1 |
| Display.CellCommandSpans | src/main/java/com/github/xandris/pulchre/SuccinctBuildLogger.java:270-274 | the commands of one cell write exactly the blanking, the right-aligned label and the name, at those columns |
| Display.LabelSpans | src/main/java/com/github/xandris/pulchre/SuccinctBuildLogger.java:271-274 | after the blanking, the colour change writes nothing, and the label and name land where the cursor moves put them |
| Display.DrawStaysInCell | src/main/java/com/github/xandris/pulchre/SuccinctBuildLogger.java:263-279 | a cell at least as wide as its minimum width is redrawn entirely within its own columns and row |
| Display.TruncationAsWritten | src/main/java/com/github/xandris/pulchre/SuccinctBuildLogger.java:266-268 | in verbose mode an over-wide activity throws before printing when the column is narrower than 5 or wider than its length plus 4; otherwise its first unit is dropped and units up to statusWidth - 5 are kept before "..." |
| Display.DrawAll | src/main/java/com/github/xandris/pulchre/SuccinctBuildLogger.java:364-366 | drawing no cells prints nothing; a board drawn without fault prints eight commands per cell |
| Display.DrawSucceeds | src/main/java/com/github/xandris/pulchre/SuccinctBuildLogger.java:263-275 | outside verbose mode a cell whose status label fits is drawn without fault in eight commands, whatever its name, since draw never measures the name |
| Display.DrawAllSucceeds | src/main/java/com/github/xandris/pulchre/SuccinctBuildLogger.java:364-366 | outside verbose mode, with every status label fitting, the whole board draws without fault, eight commands per cell, whatever the names |
| Display.DrawCells | src/main/java/com/github/xandris/pulchre/SuccinctBuildLogger.java:364-366 | the drawing loop outputs every cell's draw in list order, stopping at the first that throws |
| Display.PlaceCells | src/main/java/com/github/xandris/pulchre/SuccinctBuildLogger.java:351-362 | cell i goes to row i mod rows and column (i div rows) * labelWidth; name, status and activity are unchanged |
| Display.MaxMinWidthIsMax | src/main/java/com/github/xandris/pulchre/SuccinctBuildLogger.java:336-344 | the fold of the first loop bounds every cell's minimum width, is 0 for no projects, and is some cell's minimum width |
| Display.IndexByIdKeys | src/main/java/com/github/xandris/pulchre/SuccinctBuildLogger.java:343 | the entries added by the first loop have exactly the listed projects' ids as keys |
| Display.IndexByIdKeepsLast | src/main/java/com/github/xandris/pulchre/SuccinctBuildLogger.java:343 | among projects with the same id, the cell of the last one is the one kept |
| Display.Display.constructor | src/main/java/com/github/xandris/pulchre/SuccinctBuildLogger.java:290-297 | the status column is as wide as the widest label (widened in verbose mode) and every label fits; the size is the one given; there are no cells |
| Display.Display.Start | src/main/java/com/github/xandris/pulchre/SuccinctBuildLogger.java:303-315 | every cell is forgotten and nothing else changes; the screen is erased, echo and the cursor turned off, attributes reset |
| Display.Display.CloseCommands | src/main/java/com/github/xandris/pulchre/SuccinctBuildLogger.java:317-324 | the cursor moves to row lastRow + 1, below every cell of a board that fits; then the line is ended, the cursor and echo turned back on and the attributes reset |
| Display.CloseRestoresStartModes | src/main/java/com/github/xandris/pulchre/SuccinctBuildLogger.java:303-324 | start requests echo and the cursor off whatever was requested before, and close requests the cursor shown and echo restored to the saved flags (`Terminal.LocalEchoFlags`) whatever came between |
| Display.Display.ShowProjects | src/main/java/com/github/xandris/pulchre/SuccinctBuildLogger.java:331-369 | one fresh WAITING cell per project, recorded under its id, with other entries kept. labelWidth is the widest minimum width plus 3. It throws on the first invalid name (after printing its diagnostic line), a missing size, or a too-narrow terminal, keeping the map entries already made with every cell still at 0,0; otherwise lastRow is the row count and every cell is placed inside the terminal and drawn |
| Display.Display.CreateCells | src/main/java/com/github/xandris/pulchre/SuccinctBuildLogger.java:333-344 | the first loop creates distinct fresh cells at position 0,0 up to the first invalid name, folding labelWidth and adding the map entries |
| Display.Display.Arrange | src/main/java/com/github/xandris/pulchre/SuccinctBuildLogger.java:346-366 | with the cells created: the exceptions for a missing size or a too-narrow terminal; otherwise the rows, the placement and the drawing |
| Display.Display.SetStatus | src/main/java/com/github/xandris/pulchre/SuccinctBuildLogger.java:371-382 | for a project with no cell nothing changes; otherwise only that cell's status and activity change, it alone is redrawn without throwing while every status label fits, and a fitting board keeps fitting |
| Display.Display.SetActivity | src/main/java/com/github/xandris/pulchre/SuccinctBuildLogger.java:384-394 | for a project with no cell nothing changes; otherwise only that cell's activity changes (to None for null), it alone is redrawn without throwing while every status label fits, and a fitting board keeps fitting |
| BuildEvents.Convert | src/main/java/com/github/xandris/pulchre/SuccinctBuildLogger.java:125-144 | starts map to BUILDING, failures to FAILED, the skip to SKIPPED and successes to SUCCESS, each if and only if; nothing maps to WAITING; every other type throws |
| BuildEvents.ConvertNeverThrowsOnStatusEvents | src/main/java/com/github/xandris/pulchre/SuccinctBuildLogger.java:164-170 | the four project events onEvent converts never reach the throwing default |
| Terminal.EchoOff | src/main/java/com/github/xandris/pulchre/SuccinctBuildLogger.java:576 | ECHO and ICANON are cleared and every other bit is kept |
| Terminal.LocalEchoFlags | src/main/java/com/github/xandris/pulchre/SuccinctBuildLogger.java:569-580 | nothing is set off a terminal; on restores the saved flags; off clears ECHO and ICANON in the current flags |
| Terminal.EchoOffIdempotent | src/main/java/com/github/xandris/pulchre/SuccinctBuildLogger.java:576 | turning echo off twice sets the same flags as once |
| Terminal.EchoOffThenOnRestores | src/main/java/com/github/xandris/pulchre/SuccinctBuildLogger.java:569-580 | off then on gives back the saved flags |
| Terminal.EchoOffKeepsOtherModes | src/main/java/com/github/xandris/pulchre/SuccinctBuildLogger.java:576 | any mode bit outside ECHO and ICANON keeps its value |

## Left out

- `ActionQueue`: the worker thread, the bounded queue and the poison pill. Actions are taken to apply one after another, in order.
- The Maven `EventSpy` wiring, the interception of standard output and error, the reflective access to the logger, and `onEvent` itself. These are plumbing; the event-type conversion it uses is modelled.
- `convert(MavenProject)`: it calls `MavenProject.toString()` and `getName()`, which are not part of this model. A `Project` is taken as given.
- The output streams (`ThreadLocalOutputStream`, `NoopOutputStream`), the Jansi escape bytes, and `flush`. Output is the abstract command list.
- `TermSize.getTermSize`: it calls native console functions. The size is a constructor parameter, and `None` stands for `null`.
- `isValid`: it only tests `size != null`, which the model expresses as `size.Some?`.
- The native `isatty`, `tcgetattr` and `tcsetattr` calls. Their results are parameters of `Terminal.LocalEchoFlags`. The Windows and no-op `ExtendedTerminalThings` variants and `showCursor`'s escape bytes are left out.
- The shutdown hook registered by `start` runs on another thread at exit. It is not modelled.
- Java `int` overflow in widths and positions: they are unbounded here. Widths are bounded by name lengths, so overflow would need names of about 2^30 units.
- `null` names and project lists: a `null` activity is `None`, but a `null` name or a `null` project list would throw `NullPointerException`, which is not modelled.
- `Display.verbose` is the constant `false` as in the source. Verbose drawing is still modelled through `Label.Draw`'s parameter.
- Display.Label.Draw: its own contract gives the command count and the possible exceptions. What the commands write is stated by `DrawPlacement` for the non-verbose case, and the verbose cut by `TruncationAsWritten`.
- The `HashMap` keyed by `Project` is a map keyed by the project's id. This is exactly what `equals` and `hashCode` compare, but the key object kept for a repeated id is not represented.
