# ESP-IDF Web extension: decoder, terminal, utilities and port session in Dafny

This project models the core of the ESP-IDF Web extension for the browser
editor and proves properties about it. The core has four parts:

- **`AddressDecoder`** (`src/web/panic_decoder.ts`). It loads the subprograms
  and executable-section intervals of the built firmware image. It then
  annotates monitor output: addresses in crash dumps are resolved to the
  function that holds them and to its source line, found through the
  line-number program of section 6.2 of DWARF Version 5. It also checks the
  `ELF file SHA256:` line the device prints against the checksum of the built
  image, and tracks a register dump with a `panicking` flag.
- **`SerialTerminal`** (`src/web/serialPseudoTerminal.ts`). This is the
  monitor's pseudo-terminal. It rewrites line endings to CR LF, handles the
  `closed` flag and close events, forwards keyboard input to the port, and
  copies chunks read from the port to the display.
- **utilities** (`src/web/utils.ts`). These are the byte-to-string conversion,
  the `${...}` variable resolution and the choice of build-directory path.
- **`IDFWebSerialPort`** (`src/web/portManager.ts`). It holds at most one Web
  Serial port and the status-bar item for it. Connecting again keeps the held port, and
  disconnecting is refused while the port's writable or readable side is
  locked.

Modules, in dependency order:

- `JsBase` (`jsbase.dfy`). It holds JavaScript's behaviour where the core relies
  on it:
  - `Outcome` for a call that throws;
  - `n.toString(base)` with its inverse, `parseInt`;
  - `indexOf` and `includes`;
  - the regular-expression classes `\s`, `\w` and `\d` and the line
    terminators.
- `Utils` (`utils.dfy`).
- `SerialDevice` (`serial_device.dfy`): the port object.
- `SerialPseudoTerminal` (`serial_terminal.dfy`).
- `PortManager` (`port_manager.dfy`).
- `DwarfModel` (`dwarf_model.dfy`): the values the ELF/DWARF library hands
  over.
- `DebugImage` (`debug_image.dfy`): what `update` extracts.
- `LineLookup` (`line_lookup.dfy`): `checkLineprogram` as a function.
- `AddressLookup` (`address_lookup.dfy`): `decode` as a function of the
  decoder's state.
- `LogAnnotator` (`log_annotator.dfy`): the regular expressions and `parser` as
  a function.
- `PanicDecoder` (`panic_decoder.dfy`): the `AddressDecoder` class. Its methods
  carry the source's loops and are each proved equal to those functions.

Modelling choices:

- **Throws.** Where the JavaScript throws (a `TypeError` from a missing
  attribute, an out-of-range file entry, an undefined checksum, a locked
  writer), the model returns `Thrown` or sets a `threw` flag. `Thrown` is what
  `AddressLookup.Decode` gives for a subprogram without a name and
  `LineLookup.RowLocation` for an out-of-range file entry. The flag is set by
  `DebugImage.Select` for a missing high pc, by `LogAnnotator.Parse` for an
  undefined checksum and by `SerialTerminal.HandleInput` for a locked writer.
  The model does not exclude those inputs with a precondition.
- **Static fields.** The decoder's static fields are the fields of one
  `AddressDecoder` object.
- **Library calls.** SHA-256 and the ELF parser are function parameters of
  `Update`.

Where the code and its description differ, the model follows the code:

- **Read loop.** `open` stops at a chunk that is done or has no value. An empty
  `Uint8Array` is truthy in JavaScript, so an empty chunk does not stop the
  loop: it writes an empty string.
- **Variable end.** `resolveVariables` matches `\$\{(.*?)\}`. A match ends at
  the first `}` only when no line terminator comes before it, because `.` does
  not match line terminators.
- **Interval pre-check.** The pre-check of `decode` rejects an address below
  the first interval or in a gap between intervals. An address above every
  interval's start still passes.
- **Append-only update.** `update` only appends to the subprogram and interval
  lists. Loading the same image twice lists its subprograms twice.

## Model

| member | source | states |
|---|---|---|
| JsBase.ParseToBase | src/web/panic_decoder.ts:70 | the hexadecimal text `address.toString(16)` reads back (with `parseInt`) as the address |
| JsBase.IndexOf | src/web/utils.ts:64 | `indexOf` gives the first position where the text occurs, or -1 when it occurs nowhere |
| JsBase.RunLengthMaximal | src/web/panic_decoder.ts:5 | a run of one character class reaches exactly as far as the class holds |
| Utils.BytesToString | src/web/utils.ts:21-27 | the string has one character per byte, each with that byte's code |
| Utils.Uint8ArrayToString | src/web/utils.ts:21-27 | the accumulating loop builds a string of the input's length whose character i has the code of byte i |
| Utils.BytesToStringUnique | src/web/utils.ts:21-27 | any string with those lengths and codes is the loop's result |
| Utils.CloseBrace | src/web/utils.ts:62 | a variable ends at the first `}`, with no line terminator before it; nothing is found only when every later `}` has a line terminator before it |
| Utils.MatchEnd | src/web/utils.ts:62 | a match of `\$\{(.*?)\}` starting at a position covers text of the form `${...}` with no `}` or line terminator inside; no match starts there exactly when no text starting there has that form |
| Utils.ResolveVariables | src/web/utils.ts:58-73 | `configPath.replace` of every `${...}` match by the callback's value; its properties are stated by PiecesCover, VariablesAreMatches, RenderVariable, ResolveWithoutScope and NoMatchUnchanged |
| Utils.PiecesCover | src/web/utils.ts:62-72 | the matches and the text between them, put back together, are the original string |
| Utils.ResolveWithoutScope | src/web/utils.ts:36 | without a scope, as `getBuildDirectoryFileContent` calls it, the path comes back unchanged |
| Utils.VariablesAreMatches | src/web/utils.ts:62 | every replaced occurrence runs from `${` to the first following `}` |
| Utils.RenderVariable | src/web/utils.ts:63-71 | an occurrence becomes the scope's path exactly when its text contains `workspaceFolder` and the scope has a path (a `Uri`'s `fsPath`, or `scope.uri.fsPath`); otherwise it is kept |
| Utils.NoMatchUnchanged | src/web/utils.ts:62-72 | a string none of whose substrings has the form `${...}` is returned unchanged, whatever the scope |
| Utils.JoinPath | src/web/utils.ts:39-48 | a joined path starts with its base |
| Utils.BuildDirectoryFilePath | src/web/utils.ts:33-49 | the file is under the resolved build path when that is non-empty, and under `<workspace folder>/build` otherwise |
| SerialDevice.SerialPort.Close | src/web/portManager.ts:99 | closing a port removes both of its sides |
| SerialDevice.SerialPort.AddDisconnectListener | src/web/portManager.ts:50 | registering the listener adds one listener and changes nothing else |
| SerialPseudoTerminal.Normalize | src/web/serialPseudoTerminal.ts:93 | the two replacements of `writeOutput`, CR deletion then LF to CR LF; its properties are stated by NormalizePaired, NormalizeLineEnds, NormalizeKeepsText, NormalizeKeepsLineCount, NormalizeFixedPoints and NormalizeIdempotent |
| SerialPseudoTerminal.RemoveCRHasNoCR | src/web/serialPseudoTerminal.ts:93 | the first replacement leaves no CR |
| SerialPseudoTerminal.LfToCrLfPaired | src/web/serialPseudoTerminal.ts:93 | rewriting LF as CR LF in CR-free text pairs every CR with the LF after it |
| SerialPseudoTerminal.NormalizePaired | src/web/serialPseudoTerminal.ts:93 | the output of `writeOutput` is paired |
| SerialPseudoTerminal.PairedAt | src/web/serialPseudoTerminal.ts:93 | in paired text, every CR is immediately followed by LF and every LF immediately preceded by CR |
| SerialPseudoTerminal.NormalizeLineEnds | src/web/serialPseudoTerminal.ts:93 | in `writeOutput`'s result, every CR is immediately followed by LF and every LF immediately preceded by CR |
| SerialPseudoTerminal.RemoveCRAppend | src/web/serialPseudoTerminal.ts:93 | deleting CRs distributes over concatenation |
| SerialPseudoTerminal.LfToCrLfAppend | src/web/serialPseudoTerminal.ts:93 | the LF rewrite distributes over concatenation |
| SerialPseudoTerminal.RemoveCRStable | src/web/serialPseudoTerminal.ts:93 | deleting CRs from CR-free text changes nothing |
| SerialPseudoTerminal.RemoveCRUndoesLfToCrLf | src/web/serialPseudoTerminal.ts:93 | deleting CRs undoes the LF rewrite of CR-free text |
| SerialPseudoTerminal.NormalizeKeepsText | src/web/serialPseudoTerminal.ts:93 | deleting every CR from the output gives the input with every CR deleted |
| SerialPseudoTerminal.RemoveCRKeepsLF | src/web/serialPseudoTerminal.ts:93 | deleting CRs keeps the number of LFs |
| SerialPseudoTerminal.LfToCrLfKeepsLF | src/web/serialPseudoTerminal.ts:93 | the LF rewrite keeps the number of LFs |
| SerialPseudoTerminal.NormalizeKeepsLineCount | src/web/serialPseudoTerminal.ts:93 | the output has as many LFs as the input |
| SerialPseudoTerminal.PairedIsFixed | src/web/serialPseudoTerminal.ts:93 | paired text passes through unchanged |
| SerialPseudoTerminal.NormalizeFixedPoints | src/web/serialPseudoTerminal.ts:93 | the text that `writeOutput` leaves unchanged is exactly the paired text |
| SerialPseudoTerminal.NormalizeIdempotent | src/web/serialPseudoTerminal.ts:93 | normalising its own output changes nothing |
| SerialPseudoTerminal.WriteLineEndsInCrLf | src/web/serialPseudoTerminal.ts:88-90 | what `writeLine` emits ends in CR LF |
| SerialPseudoTerminal.ReadLoopOutput | src/web/serialPseudoTerminal.ts:43-52 | what the read loop writes for a chunk sequence; stated by ReadLoopOutputUpToStop and ReadLoopStep, and ReadLoop is proved to write it |
| SerialPseudoTerminal.ReadLoopOutputUpToStop | src/web/serialPseudoTerminal.ts:43-52 | the read loop writes, in order, the normalised text of every chunk before the first chunk that is done or has no value |
| SerialPseudoTerminal.ReadLoopStep | src/web/serialPseudoTerminal.ts:45-51 | a chunk that is done or has no value ends the output, and any other chunk contributes its text |
| SerialPseudoTerminal.SerialTerminal.constructor | src/web/serialPseudoTerminal.ts:34-36 | a new terminal is open, bound to its port, and has written nothing |
| SerialPseudoTerminal.SerialTerminal.WriteOutput | src/web/serialPseudoTerminal.ts:92-95 | fires the normalised message |
| SerialPseudoTerminal.SerialTerminal.WriteLine | src/web/serialPseudoTerminal.ts:88-90 | fires the normalisation of the message plus LF, which ends in CR LF |
| SerialPseudoTerminal.SerialTerminal.Close | src/web/serialPseudoTerminal.ts:63-72 | `closed` becomes true, the close event fires only if the terminal was not already closed, and a still-readable port is disconnected |
| SerialPseudoTerminal.SerialTerminal.HandleInput | src/web/serialPseudoTerminal.ts:74-86 | Ctrl+] fires the close event without setting `closed`. The input, Ctrl+] included, goes to an unlocked writable side. A missing side gives the error message, and a locked side throws |
| SerialPseudoTerminal.SerialTerminal.ReadLoop | src/web/serialPseudoTerminal.ts:43-52 | the loop's writes are exactly what `ReadLoopOutput` gives for the chunks, and nothing once closed |
| PortManager.StatusText | src/web/portManager.ts:65-71 | the status-bar text `$(plug) IDF-WEB USB Port VID:<vid> - PID:<pid>`, with the placeholders for a missing or zero id; Init states that a held port gets an item with this text |
| PortManager.FindPort | src/web/portManager.ts:22-37 | the first granted port whose vendor and product ids both equal the picked ones; none when nothing was picked or nothing matches |
| PortManager.IDFWebSerialPort.constructor | src/web/portManager.ts:41-42 | no port and no status-bar item at first |
| PortManager.IDFWebSerialPort.Init | src/web/portManager.ts:44-59 | with a port held, no new port is requested and the same port is returned; otherwise the search result is held. A held port gets a new status-bar item and one more disconnect listener, and no other port can change |
| PortManager.IDFWebSerialPort.Exists | src/web/portManager.ts:61-63 | whether a port is held; OnDisconnect and Disconnect state when it becomes false |
| PortManager.IDFWebSerialPort.OnDisconnect | src/web/portManager.ts:50-56 | the held port and the status-bar item are cleared, so `exists()` is false |
| PortManager.IDFWebSerialPort.Disconnect | src/web/portManager.ts:84-107 | with no port held nothing changes. An open port with a locked writable side gives the flashing error; failing that, a locked readable side gives the reading error; both change nothing else. Otherwise an open port is closed, and the held port and status-bar item are cleared |
| DebugImage.StripHeader | src/web/panic_decoder.ts:18 | the first 9 bytes followed by the result give back the buffer; a buffer shorter than 9 bytes leaves nothing |
| DebugImage.Select | src/web/panic_decoder.ts:28-42 | the subprogram selection of `update` over a list of entries, stopping at a throw; stated by SelectStopsAtThrow, SelectFilters, SelectThrows and SelectConcat |
| DebugImage.SelectStopsAtThrow | src/web/panic_decoder.ts:33-35 | once the selection has thrown, later entries change nothing |
| DebugImage.SelectFilters | src/web/panic_decoder.ts:28-42 | when no visited entry throws, exactly the subprograms with a positive low pc and a positive high-pc value are kept, in visiting order |
| DebugImage.SelectThrows | src/web/panic_decoder.ts:33-35 | a subprogram with a positive low pc and no high pc throws, after the subprograms kept before it |
| DebugImage.Filter | src/web/panic_decoder.ts:32-37 | everything kept is a subprogram with a positive low pc and a positive high-pc value |
| DebugImage.SelectConcat | src/web/panic_decoder.ts:28-31 | selecting over compile units, then entries, then children is selecting over their concatenation |
| DebugImage.SelectNextDie | src/web/panic_decoder.ts:29-31 | an entry without children contributes nothing, and one with children contributes the selection over its children |
| DebugImage.DieStep | src/web/panic_decoder.ts:29-41 | one turn over a unit's entries appends the selection over the entry's children, and a throw there ends the unit's selection |
| DebugImage.UnitStep | src/web/panic_decoder.ts:28-42 | one turn over the compile units appends the selection over the unit's entries, and a throw there ends the whole selection |
| DebugImage.NestedSubprogramSkipped | src/web/panic_decoder.ts:28-31 | only direct children of root entries are visited: a nested subprogram is not kept |
| DebugImage.ExecIntervals | src/web/panic_decoder.ts:44-49 | at most one interval per section; which sections give one is stated by ExecIntervalsExact |
| DebugImage.ExecIntervalsExact | src/web/panic_decoder.ts:44-49 | an interval is listed exactly when an executable section spans `[addr, addr + size)` |
| DebugImage.Insert | src/web/panic_decoder.ts:50 | inserting into a sorted list keeps it sorted and adds exactly the one element |
| DebugImage.SortByStart | src/web/panic_decoder.ts:50 | the sorted intervals are ordered by start and are a permutation of the input |
| DebugImage.SortSorted | src/web/panic_decoder.ts:50 | the sort leaves an already sorted list unchanged |
| DebugImage.IntervalsAfterUpdate | src/web/panic_decoder.ts:44-50 | after `update` the intervals are sorted and are the old ones together with one per executable section |
| LineLookup.FirstHit | src/web/panic_decoder.ts:127-140 | the walk stops at the first row whose address passes the address while the carried row is at or below it |
| LineLookup.PrevBeforeIsLatestRow | src/web/panic_decoder.ts:128-145 | the carried row is the latest row before, unless that row ended a sequence; rows without state are skipped |
| LineLookup.RowLocation | src/web/panic_decoder.ts:132-138 | the location text of a row, or a throw for a file index outside the table; stated by LocationShape |
| LineLookup.LocationShape | src/web/panic_decoder.ts:125-138 | the location is the directory and file name the indices select (shifted by one before version 5), a `/` between them, then `:line:column` in decimal and ` (discriminator N)` when the discriminator is positive. An out-of-range file entry throws, an out-of-range directory prints `undefined`, and the text ends in `)` exactly when the discriminator is positive |
| LineLookup.LocationTextShape | src/web/panic_decoder.ts:132-136 | the location text starts with `directory/name:` and ends in `)` exactly when the discriminator is positive |
| LineLookup.Lookup | src/web/panic_decoder.ts:120-147 | what `checkLineprogram` returns; stated by LookupFindsFirstRange and ExampleLookups, and AddressDecoder.CheckLineprogram is proved to compute it |
| LineLookup.LookupFindsFirstRange | src/web/panic_decoder.ts:120-147 | the result is empty exactly when no pair of carried row and row brackets the address, and otherwise is the location of the carried row of the first such pair |
| LineLookup.ExampleLookups | src/web/panic_decoder.ts:120-147 | with rows at 100 and 120 and the end of the sequence at 130, 110 gives the first row, 125 the second, and 135 nothing |
| AddressLookup.Admitted | src/web/panic_decoder.ts:54-63 | the interval pre-check of `decode`; stated by AdmittedSorted, BelowFirstIntervalRejected and NoIntervalsAdmitAll |
| AddressLookup.AdmittedSorted | src/web/panic_decoder.ts:54-63 | on sorted intervals the pre-check passes exactly for an address inside an interval or at or above every interval's start |
| AddressLookup.FirstCovering | src/web/panic_decoder.ts:64-67 | the scan picks the first subprogram with `lowPc <= address < lowPc + highPc` |
| AddressLookup.Decode | src/web/panic_decoder.ts:53-77 | what `decode` outputs and whether it throws; stated by DecodeReports, and AddressDecoder.Decode is proved to compute it |
| AddressLookup.DecodeReports | src/web/panic_decoder.ts:53-77 | decoding returns false without throwing exactly when the pre-check fails or no subprogram holds the address. Otherwise its one message is `0x<hex>: <name> at <location>` for the first subprogram that holds it |
| AddressLookup.BelowFirstIntervalRejected | src/web/panic_decoder.ts:56-58 | an address below the first interval is never decoded |
| AddressLookup.NoIntervalsAdmitAll | src/web/panic_decoder.ts:54-63 | with no intervals, only the subprogram scan decides |
| LogAnnotator.Addresses | src/web/panic_decoder.ts:82-86 | the addresses `line.match(ADDRESS_RE)` finds, read with `parseInt(_, 16)`; stated by AddressesFound and AddressesFit |
| LogAnnotator.AddressesFound | src/web/panic_decoder.ts:82-85 | `ADDRESS_RE.test` holds exactly when `match` finds an address |
| LogAnnotator.TokenValueBound | src/web/panic_decoder.ts:86 | `parseInt(_, 16)` of n hexadecimal digits is below 16^n |
| LogAnnotator.AddressesFit | src/web/panic_decoder.ts:84-86 | every address found is below 2^32 |
| LogAnnotator.FirstHashAt | src/web/panic_decoder.ts:115-116 | the first marker after which the checksum pattern matches |
| LogAnnotator.HashAtSplit | src/web/panic_decoder.ts:115 | the greedy reading of `\s+(\w+)` matches exactly when some split into spaces and a word does, and at the same word |
| LogAnnotator.ExtractHash | src/web/panic_decoder.ts:114-118 | the word captured after the first matching marker; stated by ExtractHashFirst, FirstHashAt and HashAtSplit |
| LogAnnotator.ExtractHashFirst | src/web/panic_decoder.ts:114-118 | `extractHash` gives the whole word after the first `ELF file SHA256:` that is followed by spaces and a word character, and `""` when there is none |
| LogAnnotator.SplitIsGreedy | src/web/panic_decoder.ts:5 | every way of matching `Core\s*\d+\s+register\s+dump:` at a position has the greedy extents |
| LogAnnotator.IsRegisterDump | src/web/panic_decoder.ts:97-98 | `registerDump.test(line)`: the pattern matches at some position; stated by RegisterDumpAtSplit and SplitIsGreedy |
| LogAnnotator.RegisterDumpAtSplit | src/web/panic_decoder.ts:5 | the greedy reading of the register-dump pattern matches exactly when the pattern does |
| LogAnnotator.AnnotateAll | src/web/panic_decoder.ts:80-92 | every output of the decode loop is wrapped as an annotation, and something was decoded exactly when something was output |
| LogAnnotator.AnnotateAfterThrow | src/web/panic_decoder.ts:88-92 | a decode that throws ends the loop |
| LogAnnotator.Parse | src/web/panic_decoder.ts:79-112 | the lines `parser` outputs, whether it throws and the new `panicking`; stated by ParseEchoesLine, ParseAddresses, ParseChecksum and ParsePlainLine, and AddressDecoder.Parser is proved to compute it |
| LogAnnotator.ParseEchoesLine | src/web/panic_decoder.ts:79-112 | on every path the line itself is output first, and everything after it is an annotation or the empty line |
| LogAnnotator.ParseAddresses | src/web/panic_decoder.ts:83-97 | a line with addresses leaves `panicking` alone and ends with `""` exactly when something decoded and nothing threw |
| LogAnnotator.ParseChecksum | src/web/panic_decoder.ts:100-109 | a checksum line clears `panicking` and is followed by the warning exactly when the built checksum does not start with the reported one. Without a built checksum the comparison throws |
| LogAnnotator.ParsePlainLine | src/web/panic_decoder.ts:97-111 | a register-dump line sets `panicking`; any other plain line leaves it alone and is only echoed |
| PanicDecoder.AddressDecoder.constructor | src/web/panic_decoder.ts:10-14 | no image, no subprograms or intervals, not panicking |
| PanicDecoder.AddressDecoder.Update | src/web/panic_decoder.ts:16-51 | records the checksum of the stripped image and appends the selected subprograms. Unless the selection threw, it appends the executable intervals and sorts them. A parser failure changes nothing else |
| PanicDecoder.AddressDecoder.CollectSubprograms | src/web/panic_decoder.ts:28-42 | the loop over compile units appends the selection over every visited child |
| PanicDecoder.AddressDecoder.CollectFromDies | src/web/panic_decoder.ts:29-41 | the loop over one unit's entries appends the selection over their children |
| PanicDecoder.AddressDecoder.SelectChildren | src/web/panic_decoder.ts:31-39 | the loop over one entry's children appends the kept ones and throws at a subprogram without high pc |
| PanicDecoder.AddressDecoder.AddExecIntervals | src/web/panic_decoder.ts:44-50 | appends one interval per executable section, then sorts |
| PanicDecoder.AddressDecoder.Decode | src/web/panic_decoder.ts:53-77 | the loops of `decode` compute exactly what `AddressLookup.Decode` specifies |
| PanicDecoder.AddressDecoder.CheckLineprogram | src/web/panic_decoder.ts:120-148 | the walk that carries the previous row computes exactly `LineLookup.Lookup` of the unit's line program |
| PanicDecoder.AddressDecoder.DecodeAll | src/web/panic_decoder.ts:84-92 | the loop over a line's addresses outputs, throws and reports a decode exactly as `LogAnnotator.AnnotateAll` specifies |
| PanicDecoder.AddressDecoder.Parser | src/web/panic_decoder.ts:79-112 | the outputs, the throw and the new `panicking` are exactly what `LogAnnotator.Parse` specifies |

## Left out

- The ELF/DWARF library (jselftools) is not part of this model. Entries,
  sections and line programs are inputs (`DwarfModel`). `line_program_for_CU`
  is a map keyed by compile-unit offset. A constructor that throws is `parse`
  returning none.
- SHA-256 (`getSHA256`) is a function parameter, and reading the image file is
  left out as I/O.
- `AddressLookup.Covers` and `AddressDecoder.Decode` do not model that a high
  pc of address form would be absolute: like the source, they always add the
  high-pc value to the low pc. `Update` only tests that the value is positive.
- The `console.log` calls in `decode` are logging. They are left out, except
  that the name read at line 68 makes a subprogram without a name throw.
- `reset` and the DTR toggle (`src/web/serialPseudoTerminal.ts:55-61`), the
  500 ms sleep, `waitForUnlock`, and the asynchronous Web Serial transport are
  timing and concurrency. They are left out.
  - `ReadLoop` works over a finite chunk sequence, and running out of chunks
    counts as done.
  - `closed` cannot change during the loop, because `close` cannot run
    concurrently in the model.
- `Close`: the transport's `disconnect` becomes closing its port. The port
  becomes unreadable.
- `HandleInput` records the input as text. `stringToUInt8Array` is not part of
  this model.
- Event emitters and `window.showErrorMessage` are recorded as counters and
  message lists.
- `createStatusBarItem` and the editor configuration become a `StatusItem`
  value and an `enableStatusBarIcons` parameter. The previous status-bar item
  is replaced without being disposed, as in the source.
- The `workspace.getConfiguration` value is a string parameter.
  - An undefined setting would make `resolveVariables` throw, and that case is
    left out.
  - `Uri.file` and `Uri.joinPath` normalisation are left out; `JoinPath`
    joins with `/`.
  - The stat and read of the file (`src/web/utils.ts:50-55`) are I/O.
- Flash orchestration in `src/web/webserial.ts` is not part of this model
  (esptool-js, progress UI, MD5). It sets an `isFlashing` flag at line 127 and
  clears it on its exit paths at lines 195, 219 and 257. It defaults to 921600
  baud (lines 147-148).
- Command registration, terminal singletons and the workspace-folder pick
  (`extension.ts`, `monitor.ts`, `monitorTerminalManager.ts`) are UI wiring.
- The regular expressions are modelled by what they match. `pcRegExp` is never
  used by the source and is not modelled.
