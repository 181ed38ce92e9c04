# ColoredTail in Dafny

A verified model of the core of ColoredTail, a Windows console toolset written in C#:

- **Tail** (`Tail/Program.cs`) follows a growing text file. Every 100 ms a tick compares the
  file's length with the read position kept in a `FileState`. It classifies the file as
  missing (`NotExist`), unchanged (`Idle`), shrunk (`Shrunk`) or grown. On growth it reads the
  whole file in chunks of 524288 characters, skips what was already shown and writes the rest. The tick
  loop prints a highlighted notice when the status turns into `NotExist` or `Shrunk`. After
  any exception it starts over from `Unknown`. `FindLastFileLike` picks the most recently
  written file among those that match the name.
- **ConsoleHelpers** (`ConsoleHelpers/ConsoleColors.cs`) colours the console. It derives an
  RGB triple from a checksum of a text: the UTF-16LE bytes are grouped by index modulo 3 and
  each group is summed modulo 256. That triple becomes the background's palette entry, and
  the foreground gets black or white for contrast. The helper can also swap foreground and
  background and restore what it captured. `ConsoleNoColors` does nothing.
- **ConsoleColor** (`ConsoleColor/Program.cs`) is the command-line front end. It shows help,
  takes `--rgb r g b`, or otherwise infers the colour from a title.

Files:
- `wrappers.dfy`: `Option` and `Min`.
- `text.dfy`: the string helpers the programs share. These are ASCII case-insensitive
  equality, the `--` prefix test, `string.Join` with its inverse `Split`, and `int.TryParse`
  for Int32 with its inverse `IntToString`.
- `console_helpers.dfy`: the colour arithmetic, plus classes for the console
  (`Console`), `ConsoleColors` and `ConsoleNoColors`.
- `tail.dfy`: `FileState` (a class, because `DoTail` updates the caller's object in place), a
  `TextReader` with `ReadBlock`, the method `DoTail` with its chunked read loop, the tick loop
  `Run`, and the specification functions `TailStep`, `Step` and `RunFrom` they are proved
  against.
- `console_color.dfy`: argument handling and mode selection of the `ConsoleColor` program.

How the environment is represented:
- A file as one tick sees it is a `FileView`. It is either `Missing` or
  `Present(length, data)`. `length` is what `FileInfo.Length` reported. `data` is what a reader
  opened right afterwards delivers, one character per byte. It may be longer than `length` if
  a writer appended in between.
- The console is a sequence of `Event`s: file text, the blank line, and the two notices.
- An exception during a tick is the input `Fault`.

Behaviours of the code worth knowing:
- A missing file gives a *fresh* `FileState`, so the read position is reset to 0, not kept
  (`MissingFileResetsPointer`).
- After an exception the state is `Unknown` with position 0. The next tick therefore writes
  the whole file again; it is not merely a re-evaluation (`FaultReplaysWholeFile`).
- On growth `DoTail` returns the caller's own `FileState`, already set to `Idle`. Main's
  "status changed?" test then compares the object with itself. So the blank line that every
  other status change prints is not printed (`GrowthHidesStatusChange`, `NoticesOnlyOnEdges`).
- The line filter, the partial-line carry-over and the `--filter`, `--filter-regex`, `--i` and
  `--v` options have no code in `Tail/Program.cs`. The raw text is written as read.
- `Dispose` puts back the captured colours and colour table. It then calls
  `Console.ResetColor`, so the console ends with its default colours. That equals the captured
  pair only when the helper was created while the defaults were showing
  (`HighlightThenRestore`).
- A first argument that is a bare file name such as `app.log` and not a folder has the directory
  name "" rather than none. The fallback to the current directory then does not apply, `new
  DirectoryInfo("")` throws outside any `try`, and Main dies before its loop (`StartUp` gives
  `Crashed`). A leading `--nocolors` is located the same way (`LeadingFlagCrashes`).
- The read position may end up to one chunk beyond the length `FileInfo` reported, when data
  was appended between the length check and the read. It never passes the data actually read.

## Model

| member | source | states |
|---|---|---|
| `Tail.FileState.constructor` | Tail/Program.cs:13-17 | A file state holds the given status and read position. |
| `Tail.TextReader.ReadBlock` | Tail/Program.cs:159 | Reads min(count, remaining) characters into the buffer at `index`. They are exactly the next characters of the data, and the position advances by that many. Every other buffer cell keeps its value. |
| `Tail.ReadEnd` | Tail/Program.cs:157-166 | The chunked loop stops at a position at least the reported length, at most the data available, and (when it had to read) less than one chunk beyond the length. |
| `Tail.WrittenAfterBlock` | Tail/Program.cs:160-164 | After one block, the count still to be skipped shrinks by the block, down to 0. The written text is still the data from the old position to what has been read, whether or not the block reaches past the skipped part. |
| `Tail.ReadLoopStep` | Tail/Program.cs:157-166 | One pass of the read loop keeps its state consistent: what remains to be skipped, what has been written, and where the loop will stop. |
| `Tail.ReadAppended` | Tail/Program.cs:151-167 | The read loop reads up to `ReadEnd` and writes exactly `data[skip..bytesRead]`, each character once. Invariant: `bytesToBeSkipped == max(0, skip - bytesRead)`. |
| `Tail.TailStep` | Tail/Program.cs:132-171 | NotExist iff missing; Shrunk iff length < position; Idle iff position <= length. Non-Idle outcomes reset the position to 0 and write nothing. An unchanged length keeps the position and writes nothing. Idle never moves the position back nor below the length. Growth writes exactly the data from the old position to the new one. |
| `Tail.DoTail` | Tail/Program.cs:132-171 | Its status, position and written text are those of `TailStep`. On growth it returns the caller's own object; otherwise it returns a fresh object and leaves the caller's untouched. |
| `Tail.ShortStreamStalls` | Tail/Program.cs:157-166 | When the reader delivers fewer characters than the reported length, reading it to its end leaves `bytesRead` below the length, and the next `ReadBlock` returns 0. The read loop never ends, so `DoTail` requires readability. |
| `Tail.Run` | Tail/Program.cs:60-92 | The tick loop, started from Unknown at position 0, produces the final state and console events of `RunFrom`. |
| `Tail.Step` | Tail/Program.cs:63-92 | One turn of Main's loop. The status is Unknown exactly after an exception, which also resets the position to 0 and prints nothing. An observed tick moves the position as `DoTail` does. Its text and notices are characterised by `TextOfStep` and `NoticesOnlyOnEdges`. |
| `Tail.RunFrom` | Tail/Program.cs:61-100 | The loop over a sequence of ticks. It ends in Unknown exactly when the last tick was an exception (or, with no ticks, when it started there). |
| `Tail.MissingFileResetsPointer` | Tail/Program.cs:137-140 | A missing file gives NotExist at position 0. Blank line and "Waiting" appear exactly when the previous status was not NotExist. |
| `Tail.NoticesOnlyOnEdges` | Tail/Program.cs:66-86 | "Waiting" appears iff the status turns into NotExist, and "Restarting" iff it turns into Shrunk. The blank line appears iff the status changed outside the growth path. |
| `Tail.GrowthHidesStatusChange` | Tail/Program.cs:150-170 | Any file that appears with content while the loop waits goes from NotExist to Idle. It prints only its text, from the start up to the new read position, with no blank line. |
| `Tail.UnchangedFileIsIdempotent` | Tail/Program.cs:142-145 | After a tick that leaves an unchanged file Idle, the position is the length, and the next tick keeps the state and writes nothing. |
| `Tail.ShrinkRestartsFromStart` | Tail/Program.cs:146-149 | A shrunk file gives Shrunk at position 0, with "Restarting" only on the edge. The next tick writes the whole file and ends Idle at its length. |
| `Tail.FaultReplaysWholeFile` | Tail/Program.cs:89-92 | An exception resets the state to Unknown at position 0 with no output. The next tick on a non-empty file writes all of it. |
| `Tail.TextOfStep` | Tail/Program.cs:65-87 | The file characters a tick puts on the console are exactly those `DoTail` wrote. |
| `Tail.AppendOnlyStep` | Tail/Program.cs:151-168 | For a file that only grows, one tick extends the written text to exactly the data up to the new position. The status becomes Idle. |
| `Tail.OutputBeforeLastTick` | Tail/Program.cs:151-168 | Before the last tick of a run on a file that only grows, the read position lies within the length that tick reports, and the output so far is the file's content up to it. |
| `Tail.AppendOnlyWritesEachCharacterOnce` | Tail/Program.cs:151-168 | While a file only grows, the concatenated output of any run is the file's content up to the read position, each character once and in order. That position lies between the last reported length and the data read. |
| `Tail.LatestIndex` | Tail/Program.cs:125-129 | The index of a match whose write time is at least every other's. Among equal times it is the first in enumeration order (a stable descending sort). |
| `Tail.FindLastFileLike` | Tail/Program.cs:114-130 | Throws iff the argument is empty or is a bare name that is not a folder. Otherwise, when neither the path nor its directory is a folder, nothing is found; when one is, nothing is found iff there is no match. A result is the first (in enumeration order) of the matches written no earlier than any other. |
| `Tail.StartUp` | Tail/Program.cs:39-53 | Usage iff there are no arguments, and a crash iff `FindLastFileLike` throws on the first argument. Otherwise, when the path or its directory is a folder with matches, the first of the latest matches is watched. When there is no such folder or no match, the first argument itself is watched. No colours iff some argument case-folds to `--nocolors`. |
| `Tail.NoColorsIsFoldedMatch` | Tail/Program.cs:45 | The case-insensitive `--nocolors` test is equality of case-folded forms. |
| `Tail.OnlyFirstArgumentIsLocated` | Tail/Program.cs:47 | Arguments after the first never change whether Main crashes or which path it watches. |
| `Tail.LeadingFlagCrashes` | Tail/Program.cs:45-47 | With `--nocolors` given first and resolving as a bare name, Main crashes and never watches the file named after it. |
| `ConsoleHelpers.FindIndex` | ConsoleHelpers/ConsoleColors.cs:61 | -1 iff the value is absent; otherwise the first position holding it. |
| `ConsoleHelpers.GetColorIndex` | ConsoleHelpers/ConsoleColors.cs:59-62 | The colour's position in the enumeration's value list: in 0..15, holding the colour, with no earlier position holding it. |
| `ConsoleHelpers.ContrastLevel` | ConsoleHelpers/ConsoleColors.cs:80 | The foreground grey is 0 or 255. It is 0 exactly when r + g + b >= 384, i.e. the truncated mean is at least 128. |
| `ConsoleHelpers.CodeUnits` | ConsoleHelpers/ConsoleColors.cs:66 | A character below U+10000 is the one code unit equal to its value. Above that it is a surrogate pair: a high surrogate in D800..DBFF, then a low surrogate in DC00..DFFF, which together decode back to the character. |
| `ConsoleHelpers.Utf16` | ConsoleHelpers/ConsoleColors.cs:66 | At least one unit per character, each below 0x10000. A text with no character above U+FFFF encodes to its own character values. |
| `ConsoleHelpers.Utf16Append` | ConsoleHelpers/ConsoleColors.cs:66 | The encoding of a concatenation is the concatenation of the encodings, so a text's units are its characters' units in order. |
| `ConsoleHelpers.Utf16LeBytes` | ConsoleHelpers/ConsoleColors.cs:66 | Two bytes per code unit, low byte first, each in 0..255. |
| `ConsoleHelpers.GroupSums` | ConsoleHelpers/ConsoleColors.cs:67-69 | The GroupBy pipeline yields min(n, 3) groups. |
| `ConsoleHelpers.GroupSumsAreStrideSums` | ConsoleHelpers/ConsoleColors.cs:67-69 | Group k of the pipeline is the sum of the bytes at the indices congruent to k modulo 3. |
| `ConsoleHelpers.InferredColor` | ConsoleHelpers/ConsoleColors.cs:64-72 | Fails (index out of range) iff the text has fewer than two UTF-16 code units. Otherwise component k is the byte sum of group k modulo 256, each in 0..255; the extra `% 256` on g and b changes nothing. |
| `ConsoleHelpers.ConsoleColors.constructor` | ConsoleHelpers/ConsoleColors.cs:35-40 | Captures the current foreground, background and colour table. |
| `ConsoleHelpers.ConsoleColors.Swap` | ConsoleHelpers/ConsoleColors.cs:42-48 | Exchanges foreground and background, changes nothing else, returns the helper itself. |
| `ConsoleHelpers.ConsoleColors.Dispose` | ConsoleHelpers/ConsoleColors.cs:50-57 | Restores the captured colour table. Because of `ResetColor`, it leaves the console's default colours. |
| `ConsoleHelpers.ConsoleColors.SetColorRgb` | ConsoleHelpers/ConsoleColors.cs:74-85 | Succeeds iff every component is in 0..255; on failure the console is unchanged. On success the background's palette entry is (r, g, b), then the foreground's is the contrasting grey. Colours are reset to the defaults and the helper is returned. |
| `ConsoleHelpers.ConsoleColors.InferColorFromText` | ConsoleHelpers/ConsoleColors.cs:64-72 | Succeeds iff `InferredColor` does, and then sets the palette from that colour exactly as `SetColorRgb`, resets the colours to the defaults and keeps the title. Otherwise it leaves the console unchanged. |
| `ConsoleHelpers.ConsoleColors.SetConsoleTitle` | ConsoleHelpers/ConsoleColors.cs:87-91 | Sets the title and leaves the colours and palette alone. |
| `ConsoleHelpers.Console.ResetColor` | ConsoleHelpers/ConsoleColors.cs:55 | `Console.ResetColor`: the default foreground and background, palette and title kept. |
| `ConsoleHelpers.ConsoleNoColors.Swap` | ConsoleHelpers/ConsoleColors.cs:22 | Returns the helper itself and changes no state. |
| `ConsoleHelpers.ConsoleNoColors.Dispose` | ConsoleHelpers/ConsoleColors.cs:23 | Does nothing: no modifies clause, no result. |
| `ConsoleHelpers.ConsoleNoColors.InferColorFromText` | ConsoleHelpers/ConsoleColors.cs:24 | Returns the helper itself and changes no state. |
| `ConsoleHelpers.ConsoleNoColors.SetConsoleTitle` | ConsoleHelpers/ConsoleColors.cs:25 | Returns the helper itself and changes no state. |
| `ConsoleHelpers.ConsoleNoColors.SetColorRgb` | ConsoleHelpers/ConsoleColors.cs:26 | Returns the helper itself and changes no state. |
| `ConsoleHelpers.SwapTwice` | ConsoleHelpers/ConsoleColors.cs:84 | `Swap().Swap()` is the identity on the console: foreground, background, palette and title are as they were. |
| `ConsoleHelpers.HighlightThenRestore` | ConsoleHelpers/ConsoleColors.cs:35-57 | A helper created at the default colours, swapped and disposed, leaves the colours, table and title as before. That pair is the one it captured. |
| `Text.EqualsIgnoreCaseIsFoldedEquality` | ConsoleColor/Program.cs:14 | Two strings are equal ignoring case iff their case-folded forms are equal. |
| `Text.StartsWith` | ConsoleColor/Program.cs:56 | A string starts with a prefix iff it is that prefix followed by something. |
| `Text.Join` | ConsoleColor/Program.cs:45 | Joining no words gives the empty string. Otherwise the result starts with the first word, and its length is the words' total plus one separator between each pair of neighbours. |
| `Text.SplitJoin` | ConsoleColor/Program.cs:45 | Joining words that do not contain the separator and splitting at it gives the words back. |
| `Text.TryParseInt` | ConsoleColor/Program.cs:59 | A parsed value is always an Int32. |
| `Text.TryParseIntToString` | ConsoleColor/Program.cs:59 | Every Int32 printed in decimal parses back to itself. |
| `ConsoleColorApp.SwitchExists` | ConsoleColor/Program.cs:14 | True iff some argument equals the switch, ignoring case. |
| `ConsoleColorApp.SwitchExistsIgnoresCase` | ConsoleColor/Program.cs:14 | Looking a switch up in any case gives the same answer. |
| `ConsoleColorApp.Operands` | ConsoleColor/Program.cs:56 | No operand is a `--` flag, and every operand is one of the arguments. |
| `ConsoleColorApp.OperandsOfConcat` | ConsoleColor/Program.cs:56 | Dropping flags distributes over concatenation, so the remaining arguments keep their order. |
| `ConsoleColorApp.OperandsKeepNonFlags` | ConsoleColor/Program.cs:56 | An argument survives iff it is not a `--` flag. |
| `ConsoleColorApp.RgbArguments` | ConsoleColor/Program.cs:55-64 | Exactly three numbers: the k-th operand's value when it parses as an Int32, 0 when it does not or when there is no k-th operand. Operands beyond the third are ignored. |
| `ConsoleColorApp.TitleFor` | ConsoleColor/Program.cs:45 | With no operands the title is the current console title. |
| `ConsoleColorApp.TitleSplitsIntoOperands` | ConsoleColor/Program.cs:45 | Otherwise the title is the operands joined by single spaces: splitting it at spaces returns them. |
| `ConsoleColorApp.HelpRequestedByOneOfFive` | ConsoleColor/Program.cs:16-20 | Help is requested iff one of `--help`, `-h`, `/h`, `-?`, `/?` is present in any case. |
| `ConsoleColorApp.SelectAction` | ConsoleColor/Program.cs:12-39 | Help iff a help switch is present, whatever else is given. RGB iff no help and `--rgb`, with the three `RgbArguments`. Otherwise title mode with `TitleFor` and `--setTitle` detection. |
| `ConsoleColorApp.OneLetterTitleCannotBeColored` | ConsoleColor/Program.cs:43-46 | `ConsoleColor a` selects title mode with title "a". Colouring from that title fails, since one code unit gives fewer than three byte groups. |

## Left out

- Console text, `Console.Title` reads, `KeyAvailable`/`ReadKey`, the `CancelKeyPress` handler and `Thread.Sleep`: these are I/O and timing. The ticks are a finite sequence, and a key press ends it.
- `FileInfo`, `FileStream` and `StreamReader` themselves are not modelled: not BOM stripping, not multi-byte decoding, and not the character-versus-byte mismatch between `Ptr` and `FileInfo.Length`. One character is one byte, and what a reader delivers is the `data` of a `FileView`.
- Tail.DoTail: requires the reader to deliver at least the reported length on growth. The source never leaves its read loop otherwise (`ShortStreamStalls`).
- Tail.DoTail: does not model the 32-bit `int` overflow of `Ptr` and `bytesRead`, which only matters for files above 2^31 - 1 characters.
- Tail.Run: requires every observed file to satisfy that reader condition. `DoTail` needs it only on growth ticks.
- Tail.Run: an exception is taken to happen before the tick writes anything. Partial output followed by an exception is not modelled.
- Tail.Run: the colour side of the loop is not part of the tick model. That means the initial `InferColorFromText(Console.Title)`, the swapped colours around each notice, and `GetConsoleColor`'s fallback to `ConsoleNoColors` when `ConsoleColors` cannot be created. The highlighting itself is modelled as `HighlightThenRestore`.
- Tail.FindLastFileLike: directory enumeration, `Path.GetDirectoryName`/`GetFileName` and glob matching are not modelled. The function receives a `Lookup`: whether the path is a folder, its directory name, whether that folder exists, and the matching files in enumeration order. That `new DirectoryInfo("")` throws and that `GetDirectoryName` gives "" for a bare name are .NET behaviours the source relies on without showing; the model takes them as given. For a folder argument the search pattern is the folder's own name (line 126), so the matches are the files in it that bear that name; which files those are is part of the `Lookup`.
- Win32 interop is not modelled: failures of `GetScreenBufferInfoEx` and `SetScreenBufferInfoEx`, the message printed on failure, and the window-size adjustment. The screen buffer is reduced to its 16-entry colour table.
- ConsoleColorApp.SwitchExists: case-insensitive comparison folds ASCII letters only. The invariant culture's other equivalences are not modelled.
- ConsoleColorApp.Operands: the `--` prefix test is ordinal, not culture-sensitive.
- Text.TryParseInt: trailing NUL characters and the other culture details `int.TryParse` accepts are not modelled.
- ConsoleHelpers.InferredColor: Dafny strings hold Unicode scalar values. The replacement of unpaired surrogates by `Encoding.Unicode` cannot arise and is not modelled.
- `ConsoleColorsBase.GetConsoleColor()`, used by `ConsoleColor/Program.cs`, is not part of this model. `SelectAction` returns the action the program applies to it.
- `Title/Program.cs` is not part of this model. Its join-or-current-title logic is the same as `TitleFor`.
