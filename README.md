# Scan Manager core in Dafny

Scan Manager is a Windows application that scans documents through TWAIN and
shows the scanned images in a viewer. This project models its sequential
core in Dafny and proves properties of that model:

- **TWAIN session** (`TwainSpec`, `Scanning`). `TWAINManager` drives the
  application side of the TWAIN protocol (source manager load and open,
  source selection, open and close, `CAP_XFERCOUNT` negotiation, enable and
  disable, the native transfer loop with its abort sequence, the event
  filter and shutdown). Each operation is first a function on a `World`:
  - the six state flags, `SrcID`, `SelID` and the negotiated count;
  - a script of driver replies, standing for `DSM_Entry`;
  - a script of `GlobalAlloc`/`GlobalLock` outcomes;
  - a log of every driver call with its reply, every image given to the
    callback, and every `GlobalFree`.

  The class `Scanning.TWAINManager` holds the same state in fields. Each of
  its methods is proved to compute its function.
- **Command line** (`CommandLine`, `CommandLineFixed`, `ArgV`).
  `ParseCommandLine` and `UnEscapeQuotes` work in place on a `char` array.
  There is a counting pass (`argv` null) and a writing pass. `M_FindArgument`
  and `M_GetArgParameter` look arguments up.
- **Memory file** (`MemFile`). `CxMemFile` is a byte buffer with a position,
  a size and a capacity that grows in 64 KiB blocks.
- **DIB image** (`JpegImage`). `BitmapImage` covers the header, palette and
  pixel layout, pixel reads at 1, 4, 8 and 24 bits, RGB export and import,
  and the grey-palette test.
- **Icon conversion** (`Pargb32`). This covers the ARGB alpha scan, the mask
  loop, the convert-only-without-alpha rule and the list of bitmaps handed
  out.
- **Paths** (`CachedFiles`). Slash trimming, concatenation, file-spec
  splitting and the cached base path.
- **Lists** (`DLLists`, `ImageLists`, `ImageNavigation`):
  - the intrusive doubly linked list, whose `dllPrev` ("the head slot or
    the `dllNext` field of item k") is a `Slot`;
  - the `ImageNode` undo stack and destructors;
  - the viewer's image list with its previous/next navigation.

Calls into code this model cannot see are parameters or scripted outcomes.
This covers `LoadLibrary`/`GetProcAddress`, `GetWindowsDirectory`, the
driver, the heap, GDI and uxtheme.

The code and the design prose disagree in a few places. The model follows
the code in each:

- `shutdown` does not always clear the source flags. When `MSG_CLOSEDS`
  fails, the manager ends closed and unloaded with a source still marked
  open (`TwainSpec.ShutdownStrandsSource`).
- `doAcquire` does not always end enabled or back at a closed source.
  When `MSG_ENABLEDS` fails and the single `MSG_CLOSEDS` after it fails
  too, the source stays open with its capabilities negotiated and not
  enabled (`TwainSpec.AcquireStrandsCaps`).
- The slash functions remove at most one slash, not "any".
- Only `argv[0]` is ever unescaped (see Findings).

## Model

| member | source | states |
|---|---|---|
| TwainSpec.LoadSourceManager | scanmanager/scanning.cpp:34-54 | Once loaded, nothing happens and the result is true. Otherwise the library at `<windows dir>\TWAIN_32.DLL` is logged as loaded, and the manager counts as loaded exactly when both the library and its entry point were found. Nothing else changes, and the nesting of states is kept. |
| TwainSpec.OpenSourceManager | scanmanager/scanning.cpp:59-87 | It is refused (false, nothing changes) unless the manager is loaded, and it succeeds at once if the manager is already open. Otherwise exactly one `MSG_OPENDSM` is sent, and the manager is open exactly when that call returned TWRC_SUCCESS. |
| TwainSpec.SelectSource | scanmanager/scanning.cpp:92-115 | It returns false unless the manager is open. After one `MSG_USERSELECT`, TWRC_SUCCESS copies the chosen identity into SrcID; TWRC_CANCEL returns true with SrcID unchanged; any other code returns false. No other part of the session changes, neither SelID nor the source-opened flag. |
| TwainSpec.CloseSource | scanmanager/scanning.cpp:161-175 | With no source open it succeeds and nothing changes. Otherwise one `MSG_CLOSEDS` is sent, the result is true exactly when the source is now closed, and success zeroes SelID. |
| TwainSpec.DisableSource | scanmanager/scanning.cpp:357-372 | With no source enabled it succeeds and nothing changes. Otherwise one `MSG_DISABLEDS` is sent, and the result is true exactly when the source is now disabled. Only the enabled flag can change. |
| TwainSpec.AbortXfer | scanmanager/scanning.cpp:387-400 | It sends `MSG_ENDXFER`, then `MSG_RESET` only when the ENDXFER reply's pending count is non-zero. The session and the memory log are untouched. |
| TwainSpec.DisableWithRetry | scanmanager/scanning.cpp:129-134 | It disables, and when the source stays enabled it aborts and disables once more. The result is true exactly when the source ended disabled. Only the enabled flag changes, and neither `MSG_OPENDS` nor `MSG_CLOSEDS` is sent. |
| TwainSpec.OpenDs | scanmanager/scanning.cpp:142-155 | One `MSG_OPENDS` is sent. It succeeds exactly on TWRC_SUCCESS, and success sets SelID := SrcID, source opened, caps not negotiated and count 0. Failure changes nothing in the session. |
| TwainSpec.Collapse | scanmanager/scanning.cpp:124-140 | For an open source: it succeeds exactly when the source ends closed, and then it is also disabled. It never sends `MSG_OPENDS`, and while the source stays enabled it sends no `MSG_CLOSEDS`. |
| TwainSpec.OpenSource | scanmanager/scanning.cpp:120-156 | Success leaves a source open with SelID equal to the old SrcID, caps not negotiated and count 0. If an open source cannot be disabled and closed (Collapse fails), the result is false, with the world Collapse left and no `MSG_OPENDS` sent. While it stays enabled, no `MSG_CLOSEDS` was sent either. Otherwise, on a closed source or after a successful Collapse, exactly one `MSG_OPENDS` follows, and the result is whether it returned TWRC_SUCCESS. The manager flags, SrcID and transfer-ready are unchanged. |
| TwainSpec.OpenSourceEndsOpened | scanmanager/scanning.cpp:142-153 | A successful `openSource` always ends with a `MSG_OPENDS` that returned TWRC_SUCCESS, whatever it tore down first. |
| TwainSpec.Int16 | scanmanager/scanning.cpp:198 | The `short` cast: a signed 16-bit value congruent to its input modulo 2^16. |
| TwainSpec.CheckCapability | scanmanager/scanning.cpp:181-214 | It sends one `MSG_GET` of CAP_XFERCOUNT. A null container gives no count and frees nothing. A non-null container is freed exactly once, whether or not the lock succeeds. A count is read exactly when the container is non-null and the lock succeeds, and it is the Item truncated to 16 bits. Only a non-null container consumes a lock outcome. The session is unchanged. |
| TwainSpec.SetCount | scanmanager/scanning.cpp:245-286 | TWRC_SUCCESS negotiates count -1. TWRC_CHECKSTATUS negotiates the count that checkCapability read, and only if it read one. Any other code fails with nothing freed. A failure leaves the session unchanged, and at most one handle is freed. |
| TwainSpec.NegotiateCaps | scanmanager/scanning.cpp:219-303 | It is refused unless a source is open. A failed allocation returns false with nothing freed. Otherwise the container allocated is the last handle freed, and it is freed exactly once. Success sets negotiated, and failure leaves the session as it was. |
| TwainSpec.NegotiateCapsSetsCount | scanmanager/scanning.cpp:234-295 | Once the container is allocated, a failed lock returns false with no driver call and the container freed. After a successful lock, the result, the session and the log are those of SetCount, which sends the `MSG_SET`, and the container is freed after it. |
| TwainSpec.NegotiateCapsOutcome | scanmanager/scanning.cpp:245-286 | With the container allocated and locked, the `MSG_SET` reply decides the outcome. TWRC_SUCCESS negotiates −1, and TWRC_CHECKSTATUS succeeds exactly when checkCapability reads a count, which becomes the negotiated count. Any other code fails. |
| TwainSpec.EnableSource | scanmanager/scanning.cpp:308-327 | It is refused unless a source is open. Otherwise one `MSG_ENABLEDS` is sent, and the result is whether the source is now enabled (for a disabled source: exactly on TWRC_SUCCESS). Only the enabled flag changes. |
| TwainSpec.DoAcquire | scanmanager/scanning.cpp:332-352 | It is refused when the manager is not open or a source already is. Success leaves the source open, negotiated and enabled. A failed negotiation returns false and leaves the source open. A failed enable is followed by one closeSource, whose own failure leaves the source open (see AcquireStrandsCaps). The nesting of states is kept. |
| TwainSpec.XferLoop | scanmanager/scanning.cpp:419-452 | The transfer loop leaves the session and the memory log unchanged, and it only appends to the log (at least one call). |
| TwainSpec.XferLoopShape | scanmanager/scanning.cpp:419-452 | The loop's log consists of complete rounds. Each image given to the callback comes right after its TWRC_XFERDONE native transfer and right before its `MSG_ENDXFER`. No abort or `MSG_RESET` happens inside the loop. It reports pending transfers exactly when it ended on an image-info failure, a CANCEL or a FAILURE, which is then its last call; a failing ENDXFER stops it without that report. |
| TwainSpec.SetupAndXferImage | scanmanager/scanning.cpp:408-459 | It returns at once while a transfer is active. Otherwise it always ends with the transfer-ready flag clear and the rest of the session unchanged. |
| TwainSpec.SetupLog | scanmanager/scanning.cpp:408-459 | Its log is the loop's log followed by the abort sequence, and the abort sequence comes exactly when the loop reported pending transfers. |
| TwainSpec.SetupShape | scanmanager/scanning.cpp:408-459 | From no active transfer, the whole log has these properties. Every image is delivered in place. The abort sequence happens exactly when the loop hit an error exit. `MSG_RESET` is only ever the very last call, directly after a `MSG_ENDXFER` that reported a non-zero count. |
| TwainSpec.AbortedLoop | scanmanager/scanning.cpp:387-400 | An error-exit loop log followed by ENDXFER (plus RESET when its count is non-zero) is a well-formed transfer log. |
| TwainSpec.CleanLoop | scanmanager/scanning.cpp:437-443 | A loop log without an error exit is a well-formed transfer log with no abort. |
| TwainSpec.CloseRequested | scanmanager/scanning.cpp:483-487 | On a close request it disables the source, and sends `MSG_CLOSEDS` exactly when the disable succeeded. A source that stays enabled is never closed. |
| TwainSpec.Dispatch | scanmanager/scanning.cpp:478-491 | MSG_XFERREADY transfers and the close messages close. Every other message changes nothing. The nesting of states is kept. |
| TwainSpec.CheckEvent | scanmanager/scanning.cpp:465-494 | With no source enabled it makes no call and returns false. Otherwise it sends one `MSG_PROCESSEVENT`, returns true exactly when rc is not TWRC_NOTDSEVENT, and dispatches the returned message. |
| TwainSpec.Shutdown | scanmanager/scanning.cpp:499-530 | It always ends with the manager unloaded, and closed when it had been loaded. An unloaded manager is left as it is, and a loaded but unopened one is only unloaded. |
| TwainSpec.ShutdownAttemptsEveryStep | scanmanager/scanning.cpp:503-524 | From an open manager, every teardown call is made whatever the earlier ones returned, and the log only grows. An enabled source gets `MSG_DISABLEDS` first. An open source gets `MSG_CLOSEDS`, even when the disable failed, just before `MSG_CLOSEDSM`. `MSG_CLOSEDSM` is always the last call, and it is the only call when no source is open. |
| TwainSpec.DisableWithRetryLog | scanmanager/scanning.cpp:507-515 | The disable-with-retry only appends to the log, and for an enabled source its first call is `MSG_DISABLEDS`. |
| TwainSpec.AcquireStrandsCaps | scanmanager/scanning.cpp:332-352 | For a concrete script where MSG_ENABLEDS and the next MSG_CLOSEDS fail, `doAcquire` returns false with the source open, negotiated and not enabled. |
| TwainSpec.ShutdownTwice | scanmanager/scanning.cpp:499-530 | A second shutdown is a no-op. |
| TwainSpec.ShutdownStrandsSource | scanmanager/scanning.cpp:505-528 | If `MSG_CLOSEDS` fails during shutdown, the manager ends closed and unloaded with the source still marked open. After that, `doAcquire` refuses even once the manager has been reloaded and reopened. |
| Scanning.TWAINManager.constructor | scanmanager/scanning.cpp:17-29 | All flags clear, identities zeroed, count 0, empty logs. |
| Scanning.TWAINManager.Entry | scanmanager/scanning.cpp:82 | One `DSM_Entry` call consumes and logs the next scripted reply. |
| Scanning.TWAINManager.GlobalAlloc | scanmanager/scanning.cpp:234 | It allocates a fresh handle when the memory script allows it. |
| Scanning.TWAINManager.GlobalLock | scanmanager/scanning.cpp:195 | It reports the next scripted lock outcome. |
| Scanning.TWAINManager.GlobalFree | scanmanager/scanning.cpp:206 | It appends the handle to the freed log. |
| Scanning.TWAINManager.LoadSourceManager | scanmanager/scanning.cpp:34-54 | Its result and new state are those of TwainSpec.LoadSourceManager. |
| Scanning.TWAINManager.OpenSourceManager | scanmanager/scanning.cpp:59-87 | Its result and new state are those of TwainSpec.OpenSourceManager. |
| Scanning.TWAINManager.SelectSource | scanmanager/scanning.cpp:92-115 | Its result and new state are those of TwainSpec.SelectSource. |
| Scanning.TWAINManager.OpenSource | scanmanager/scanning.cpp:120-156 | Its result and new state are those of TwainSpec.OpenSource. |
| Scanning.TWAINManager.CloseSource | scanmanager/scanning.cpp:161-175 | Its result and new state are those of TwainSpec.CloseSource. |
| Scanning.TWAINManager.CheckCapability | scanmanager/scanning.cpp:181-214 | Its outcome and new state are those of TwainSpec.CheckCapability. |
| Scanning.TWAINManager.SetCount | scanmanager/scanning.cpp:245-286 | Its result and new state are those of TwainSpec.SetCount. |
| Scanning.TWAINManager.NegotiateCaps | scanmanager/scanning.cpp:219-303 | Its result and new state are those of TwainSpec.NegotiateCaps. |
| Scanning.TWAINManager.EnableSource | scanmanager/scanning.cpp:308-327 | Its result and new state are those of TwainSpec.EnableSource. |
| Scanning.TWAINManager.DoAcquire | scanmanager/scanning.cpp:332-352 | Its result and new state are those of TwainSpec.DoAcquire. |
| Scanning.TWAINManager.DisableSource | scanmanager/scanning.cpp:357-372 | Its result and new state are those of TwainSpec.DisableSource. |
| Scanning.TWAINManager.UpdateImageInfo | scanmanager/scanning.cpp:377-382 | One `MSG_GET` of DAT_IMAGEINFO; the result is its success. |
| Scanning.TWAINManager.AbortXfer | scanmanager/scanning.cpp:387-400 | Its new state is that of TwainSpec.AbortXfer. |
| Scanning.TWAINManager.SetupAndXferImage | scanmanager/scanning.cpp:408-459 | The `while(havePendingXfers)` loop computes TwainSpec.SetupAndXferImage. |
| Scanning.TWAINManager.CheckEvent | scanmanager/scanning.cpp:465-494 | Its result and new state are those of TwainSpec.CheckEvent. |
| Scanning.TWAINManager.Shutdown | scanmanager/scanning.cpp:499-530 | The nested teardown computes TwainSpec.Shutdown. |
| CommandLine.Unescaped | scanmanager/scanmanager.cpp:395-417 | It is never longer than its argument, and is non-empty when the argument is. |
| CommandLine.UnescapedLength | scanmanager/scanmanager.cpp:395-417 | Unescaping shortens the string by exactly one per `\"` pair. |
| CommandLine.UnescapedKeepsOthers | scanmanager/scanmanager.cpp:395-417 | Every character other than `\` occurs as often as before. |
| CommandLine.UnescapedIdentity | scanmanager/scanmanager.cpp:401 | A string with no `\"` pair is unchanged. |
| CommandLine.UnescapedNoNul | scanmanager/scanmanager.cpp:399 | Unescaping a NUL-free string gives a NUL-free string. |
| CommandLine.UnescapedLast | scanmanager/scanmanager.cpp:395-417 | The last character is kept. |
| CommandLine.UnescapedSnoc | scanmanager/scanmanager.cpp:401-415 | Appending a character extends the result by it, or, for `"` after `\`, replaces the final `\` with it. |
| CommandLine.ShiftLeft | scanmanager/scanmanager.cpp:403-412 | The tail from the quote is moved one cell left over the backslash, and the old last cell becomes NUL. No other cell changes. |
| CommandLine.ExamineChar | scanmanager/scanmanager.cpp:401-415 | One step of the outer loop keeps the invariant that the prefix holds the unescaped prefix of the string. |
| CommandLine.UnEscapeQuotes | scanmanager/scanmanager.cpp:395-417 | The string at `arg` becomes its unescaped form padded with NULs to its old length. Nothing outside it changes. |
| CommandLine.SkipSpace | scanmanager/scanmanager.cpp:429-430 | The first non-space at or after i; everything skipped is space. |
| CommandLine.WordEnd | scanmanager/scanmanager.cpp:459-460 | The end of the maximal run of non-spaces at i. |
| CommandLine.QuoteEnd | scanmanager/scanmanager.cpp:443-448 | The first `"` not preceded by `\` (or the end), with nothing before it closing the quote. |
| CommandLine.StepAt | scanmanager/scanmanager.cpp:428-467 | One outer round: the token start, if any, lies within the round, and the next round starts one past the delimiter. No token means the round reached the end. |
| CommandLine.StepMeaning | scanmanager/scanmanager.cpp:429-461 | A round's token is either a maximal unquoted run after leading spaces, or the text after an opening `"` up to its closing quote. A lone trailing `"` gives no token. |
| CommandLine.StepsShape | scanmanager/scanmanager.cpp:426-472 | The rounds follow each other, are ordered, and each is the step at its start. |
| CommandLine.SkipSpaces | scanmanager/scanmanager.cpp:429-430 | The loop stops at SkipSpace. |
| CommandLine.SkipWord | scanmanager/scanmanager.cpp:459-460 | The loop stops at WordEnd. |
| CommandLine.SkipQuoted | scanmanager/scanmanager.cpp:443-448 | The `lastp` loop stops at QuoteEnd. |
| CommandLine.ScanStep | scanmanager/scanmanager.cpp:428-461 | The pointer walk finds StepAt's token start and end. |
| CommandLine.CountToken | scanmanager/scanmanager.cpp:436-441 | Each token start is counted once and, when writing, stored at `argv[argc]`. |
| CommandLine.EndArgument | scanmanager/scanmanager.cpp:462-467 | The delimiter becomes NUL only in the writing pass; the counting pass leaves the buffer as it was. |
| CommandLine.UnescapeFirst | scanmanager/scanmanager.cpp:469-471 | Once `argv[0]` has been counted, every round unescapes `argv[last_argc]`, which is always `argv[0]`. This includes rounds that found no token. |
| CommandLine.Round | scanmanager/scanmanager.cpp:426-472 | One outer round keeps the parse invariant, and the buffer pointer advances. |
| CommandLine.ParsedAll | scanmanager/scanmanager.cpp:472-476 | At the end of the loop every round has run, and argc is the number of tokens. The counting pass left the buffer unchanged. When writing, `argv[q]` is token q. |
| CommandLine.ParseCommandLine | scanmanager/scanmanager.cpp:419-477 | Both passes return the number of tokens. The counting pass leaves the buffer untouched. The writing pass stores each token start in `argv[q]`, sets `argv[argc]` to null, leaves later cells alone, NUL-terminates each token in place, and unescapes only `argv[0]`. |
| CommandLineFixed.AsWrittenArguments | scanmanager/scanmanager.cpp:469-471 | As written, `argv[0]` holds its token unescaped once per round, and every other argument keeps its `\"` escapes. |
| CommandLineFixed.FixedArguments | scanmanager/scanmanager.cpp:469-471 | With `last_argc` updated, every argument is its token unescaped exactly once. |
| CommandLineFixed.ParseCommandLineFixed | scanmanager/scanmanager.cpp:419-477 | The parser with `last_argc = argc` after each unescape: the count and `argv` are the same as as written, and each argument is unescaped once. |
| CommandLineFixed.AsWrittenKeepsEscape | scanmanager/scanmanager.cpp:470-471 | For `a b\"c`, argv[1] is `b\"c` as written. |
| CommandLineFixed.FixedDropsEscape | scanmanager/scanmanager.cpp:470-471 | For `a b\"c`, the fixed parser gives argv[1] = `b"c`. |
| CommandLineFixed.AsWrittenOverUnescapes | scanmanager/scanmanager.cpp:470-471 | For `\\" b`, argv[0] is unescaped twice and becomes `"`. |
| CommandLineFixed.FixedUnescapesOnce | scanmanager/scanmanager.cpp:470-471 | For `\\" b`, the fixed parser gives argv[0] = `\"`. |
| ArgV.FirstMatch | scanmanager/m_argv.cpp:18-23 | The first index at or after `from` holding `arg`, or the argument count. |
| ArgV.FindArgument | scanmanager/m_argv.cpp:15-24 | True exactly when some `argv[i]` with 1 <= i < argc equals `arg`; argv[0] is ignored. |
| ArgV.GetArgParameter | scanmanager/m_argv.cpp:32-46 | Only the first i >= 1 holding `arg` is considered, and the result is i+1 when i < argc - count, else 0. A non-zero result r has 2 <= r and r + count - 1 <= argc - 1. An absent argument gives 0. |
| ArgV.ArgParameterFirstOccurrence | scanmanager/m_argv.cpp:36-41 | The index considered is the first occurrence at or after 1. |
| MemFile.GrownEdge | scanmanager/memfile.cpp:299 | The new capacity is a multiple of 65536, strictly above n and at most n + 65536. |
| MemFile.OverwritesThen | scanmanager/memfile.cpp:133 | Two consecutive writes at a position amount to one write of their concatenation. |
| MemFile.Line | scanmanager/memfile.cpp:264-281 | The line `gets` reads: it stops after a newline, after n-1 bytes, or at the end of the data, which it reports; no earlier byte is a newline. |
| MemFile.LineCases | scanmanager/memfile.cpp:269-277 | The three ways a line ends: a newline within the room, a full buffer, or end of data. |
| MemFile.CopyBytes | scanmanager/memfile.cpp:106 | `memcpy`: the target range gets the source bytes, and the rest of the target is unchanged. |
| MemFile.CxMemFile.constructor | scanmanager/memfile.cpp:14-21 | It holds the given buffer with size and capacity `sz`, is owned exactly when no buffer was given, and starts at position 0 with no EOF. |
| MemFile.CxMemFile.Close | scanmanager/memfile.cpp:34-44 | An owned buffer is released and the size cleared. A borrowed one is kept. |
| MemFile.CxMemFile.Open | scanmanager/memfile.cpp:49-59 | It fails and changes nothing when a buffer is present. Otherwise position, size and capacity are 0 and the object owns a fresh buffer. |
| MemFile.CxMemFile.GetBuffer | scanmanager/memfile.cpp:66-74 | It returns the buffer, and detaching it drops ownership. |
| MemFile.CxMemFile.Alloc | scanmanager/memfile.cpp:294-314 | For n <= capacity nothing changes. Otherwise the capacity becomes GrownEdge(n) > n, the contents are kept, and the buffer is owned. |
| MemFile.CxMemFile.ReadBytes | scanmanager/memfile.cpp:97-107 | It copies min(n, size - position) bytes from the position and advances past them, setting EOF exactly when truncated. |
| MemFile.CxMemFile.Read | scanmanager/memfile.cpp:79-110 | It returns 0 for a null target or buffer. At or past size it returns 0 and sets EOF. Zero bytes returns 0. Otherwise it copies at most size - position bytes, sets EOF exactly when truncated, and returns bytes / itemSize. |
| MemFile.CxMemFile.WriteBytes | scanmanager/memfile.cpp:127-138 | It grows first when needed, then copies n bytes at the position, advances, and sets size = max(size, position). |
| MemFile.CxMemFile.Write | scanmanager/memfile.cpp:115-141 | It clears EOF. It returns 0 for no buffer, a null source or zero bytes. Otherwise it writes count·itemSize bytes, sets size = max(size, position) and returns count. |
| MemFile.CxMemFile.Seek | scanmanager/memfile.cpp:146-167 | It clears EOF. SET, CUR and END compute the new position, with negatives clamped to 0 and no clamp beyond size. An unknown origin or a missing buffer returns false with the position unchanged. |
| MemFile.CxMemFile.Tell | scanmanager/memfile.cpp:172-178 | The position, or -1 without a buffer. |
| MemFile.CxMemFile.Size | scanmanager/memfile.cpp:183-189 | The size, or -1 without a buffer. |
| MemFile.CxMemFile.Flush | scanmanager/memfile.cpp:194-200 | True exactly when a buffer is present. |
| MemFile.CxMemFile.Eof | scanmanager/memfile.cpp:205-211 | True without a buffer; otherwise the EOF flag. |
| MemFile.CxMemFile.Error | scanmanager/memfile.cpp:216-222 | -1 without a buffer; otherwise 1 exactly when the position is past the size, else 0. |
| MemFile.CxMemFile.Putc | scanmanager/memfile.cpp:227-245 | It fails without a buffer. Otherwise it stores the byte at the old position (growing first if needed), advances by 1, sets size = max(size, position) and clears EOF. |
| MemFile.CxMemFile.Getc | scanmanager/memfile.cpp:250-259 | At or past size, or without a buffer, it returns EOF and sets the flag. Otherwise it returns the byte at the position and advances. |
| MemFile.CxMemFile.ReadLine | scanmanager/memfile.cpp:269-277 | The `getc` loop reads exactly Line of the unread data into the string and advances past it. |
| MemFile.CxMemFile.Gets | scanmanager/memfile.cpp:264-281 | It reads at most n-1 bytes, stopping after `\n`, and NUL-terminates them. If EOF is hit first it returns null. |
| JpegImage.UnsignedLittleEndian | scanmanager/jpegimage.cpp:102-103 | A field stored little-endian reads back as its value. |
| JpegImage.HeaderRoundTrip | scanmanager/jpegimage.cpp:102-103 | The header copied to the buffer start decodes to the header. |
| JpegImage.HeaderStartsWithSize | scanmanager/jpegimage.cpp:122 | The first four bytes of the buffer hold biSize, which is where getBits puts the palette. |
| JpegImage.NormalBpp | scanmanager/jpegimage.cpp:62-69 | Bit depth rounding: <=1 gives 1, <=4 gives 4, <=8 gives 8, otherwise 24. |
| JpegImage.ColorsFor | scanmanager/jpegimage.cpp:71-85 | biClrUsed is 2, 16 or 256 for 1, 4 or 8 bits, and 0 otherwise. |
| JpegImage.ColumnFits | scanmanager/jpegimage.cpp:271 | The byte of column x lies inside its row. |
| JpegImage.Nibble | scanmanager/jpegimage.cpp:272-276 | The high nibble for even x, the low nibble for odd x. |
| JpegImage.Bit | scanmanager/jpegimage.cpp:278-282 | Bit 7 - (x mod 8) of the byte. |
| JpegImage.Picture.PaletteColor | scanmanager/jpegimage.cpp:238-257 | It is all zero for an index past biClrUsed. Otherwise it is that entry's B, G, R with reserved = 255. |
| JpegImage.Picture.PixelByte | scanmanager/jpegimage.cpp:266-302 | The pixel's byte lies in the pixel area of the buffer; for 24 bits, its three bytes do. |
| JpegImage.Picture.PixelIndex | scanmanager/jpegimage.cpp:262-287 | 8 bpp gives the byte. 4 bpp gives the high nibble for even x and the low nibble for odd x. 1 bpp gives bit 7 - (x mod 8). Any other depth gives 0. A paletted index is always below biClrUsed. |
| JpegImage.Picture.PixelColor | scanmanager/jpegimage.cpp:292-310 | With a palette, the palette colour of the index. Without one, the B, G, R bytes at 3x with reserved 255. |
| JpegImage.Picture.RowColors | scanmanager/jpegimage.cpp:327-333 | Row y's width colours, in column order. |
| JpegImage.Picture.Scan | scanmanager/jpegimage.cpp:323-334 | The first n rows in output order (reversed when flipping), width·n colours. |
| JpegImage.Picture.RGBStream | scanmanager/jpegimage.cpp:315-337 | The exported stream has 3·width·height bytes. |
| JpegImage.RowColorsBytes | scanmanager/jpegimage.cpp:329-332 | Pixel x of a row is written as R, G, B at bytes 3x..3x+2 of the row's run. |
| JpegImage.PixelIndexInPalette | scanmanager/jpegimage.cpp:296-298 | A paletted pixel names a palette entry, and its reserved byte is 255. |
| JpegImage.ZeroPaletteIsBlack | scanmanager/jpegimage.cpp:97-100 | With the zeroed palette, every paletted pixel reads black. |
| JpegImage.GrayPixel | scanmanager/jpegimage.cpp:362-376 | In a grey-palette image, a pixel's R = G = B = its index. |
| JpegImage.NewDib | scanmanager/jpegimage.cpp:97-103 | The buffer has getSize() bytes, a zeroed palette, and the header at its start. |
| JpegImage.PutRGB | scanmanager/jpegimage.cpp:330-332 | The three putc calls append R, G, B at the file position. |
| JpegImage.AppendRGB | scanmanager/jpegimage.cpp:330-332 | A run of written bytes grows by the pixel's triple. |
| JpegImage.EncodeRow | scanmanager/jpegimage.cpp:327-333 | A row's colours are appended as RGB bytes. |
| JpegImage.EncodeScanStep | scanmanager/jpegimage.cpp:323-334 | One more row (flipped when asked) is appended. |
| JpegImage.EncodeRows | scanmanager/jpegimage.cpp:323-334 | The row loop writes the whole scan. |
| JpegImage.StoreRowBGR | scanmanager/jpegimage.cpp:393-399 | w pixels of the input are stored as B, G, R. Nothing else changes. |
| JpegImage.StoreRows | scanmanager/jpegimage.cpp:389-400 | Input row y (4·width bytes apart) goes to row y, or to height-1-y when flipping. Header and palette are untouched. |
| JpegImage.BitmapImage.View | scanmanager/jpegimage.h:26-38 | The image's header, row width and bytes. |
| JpegImage.BitmapImage.Startup | scanmanager/jpegimage.cpp:158-166 | No buffer, a cleared header with the default resolution, and the default DPI. |
| JpegImage.BitmapImage.PaletteSize | scanmanager/jpegimage.cpp:28-31 | 4 · biClrUsed bytes. |
| JpegImage.BitmapImage.Palette | scanmanager/jpegimage.cpp:36-44 | It is present exactly with a buffer and biClrUsed > 0, and sits right after the header. |
| JpegImage.BitmapImage.Size | scanmanager/jpegimage.cpp:49-52 | biSize + biSizeImage + palette bytes, the buffer length. |
| JpegImage.BitmapImage.Bits | scanmanager/jpegimage.cpp:113-131 | Null without a buffer or for 0 < row >= height. Otherwise biSize + palette + effWidth·row, and row 0 is pImage. |
| JpegImage.BitmapImage.PaletteColor | scanmanager/jpegimage.cpp:238-257 | All zero without a buffer or for idx >= biClrUsed; otherwise the entry. |
| JpegImage.BitmapImage.Create | scanmanager/jpegimage.cpp:57-108 | It throws, changing nothing, when width or height is 0 or >= 65536. Otherwise it normalises bpp, sets biClrUsed, biSizeImage = stride·height and effWidth = stride, allocates getSize() bytes, zeroes the palette, copies the header to the front and sets pImage. |
| JpegImage.BitmapImage.IsGrayScale | scanmanager/jpegimage.cpp:362-376 | True exactly when a palette exists and every entry i is the grey (i, i, i). |
| JpegImage.BitmapImage.EncodeToRGB | scanmanager/jpegimage.cpp:315-337 | It fails for a null file or no buffer. Otherwise the file receives RGBStream at its position: 3·width·height bytes in R, G, B order, rows reversed when flipping. |
| JpegImage.BitmapImage.EncodeToRGBBuffer | scanmanager/jpegimage.cpp:342-357 | It refuses a non-null in-buffer. Otherwise it hands out a fresh buffer holding exactly RGBStream, with its size. |
| JpegImage.BitmapImage.StoreRGB | scanmanager/jpegimage.cpp:389-400 | The pixel loop stores every input row. Header and palette are unchanged. |
| JpegImage.BitmapImage.CreateFromRGB | scanmanager/jpegimage.cpp:378-403 | As written: false for a null array; create's exception passes through; otherwise the image is 4 bpp with 16 zero palette entries, the input is stored as 24-bit rows, and every pixel reads black. |
| JpegImage.BitmapImage.CreateFromRGB24 | scanmanager/jpegimage.cpp:378-403 | With create called for 24 bits, every pixel reads back as the input pixel (row-flipped when asked), and the RGB export reproduces the input's packed RGB. |
| JpegImage.AllBlack | scanmanager/jpegimage.cpp:383 | Any paletted image with an all-zero palette is black everywhere. |
| JpegImage.StoredPixelsMatch | scanmanager/jpegimage.cpp:392-398 | In a 24-bit image holding the stored input, every pixel equals the input pixel. |
| JpegImage.StoredStreamIsInput | scanmanager/jpegimage.cpp:315-337 | Exporting such an image gives back the packed input. |
| JpegImage.ScanOfInput | scanmanager/jpegimage.cpp:323-334 | The n-row scan of such an image is the n-row scan of the input. |
| Pargb32.MaskTestsAlpha | scanmanager/pargb32.cpp:41 | `v & 0xFF000000` is non-zero exactly when the alpha byte is. |
| Pargb32.HasAlpha | scanmanager/pargb32.cpp:33-49 | True exactly when some pixel of the cx×cy window (rows cxRow apart, padding skipped) has a non-zero alpha. |
| Pargb32.ToPARGB | scanmanager/pargb32.cpp:80-89 | A non-zero mask pixel gives 0. A zero one forces alpha 0xFF and keeps R, G, B. |
| Pargb32.ConvertedPremultiplied | scanmanager/pargb32.cpp:80-89 | Every converted pixel is a valid premultiplied pixel. |
| Pargb32.ConvertRow | scanmanager/pargb32.cpp:78-90 | One row of the window is converted against its mask row. Nothing else changes. |
| Pargb32.ConvertWindow | scanmanager/pargb32.cpp:73-93 | Every window pixel is converted against its mask pixel; padding is untouched. |
| Pargb32.ConvertToPARGB32 | scanmanager/pargb32.cpp:54-101 | E_OUTOFMEMORY without the buffer, and E_UNEXPECTED for a short GetDIBits; both leave the pixels untouched. Otherwise S_OK after conversion. The temporary buffer is freed exactly when it was allocated. |
| Pargb32.ConvertedAlpha | scanmanager/pargb32.cpp:73-93 | After conversion the window has alpha exactly when some mask pixel is zero. |
| Pargb32.ConvertBufferToPARGB32 | scanmanager/pargb32.cpp:106-130 | It converts only when the paint bits were got, the window has no alpha and the icon has a mask. Otherwise it returns the paint-bits result and changes no pixel. Both icon bitmaps are deleted whenever GetIconInfo succeeded. |
| Pargb32.Create32BitBitmap | scanmanager/pargb32.cpp:165-187 | It uses the given DC, or the screen DC (released afterwards). The result is the section, or null without a DC. |
| Pargb32.PARGB32Utils.constructor | scanmanager/pargb32.cpp:140-151 | Each uxtheme entry point is there exactly when the library and that entry were found. The list starts empty. |
| Pargb32.PARGB32Utils.BitmapFromIcon | scanmanager/pargb32.cpp:192-264 | Null for a null icon, missing uxtheme functions or no DC. The icon is destroyed whenever given. Every non-null bitmap returned is inserted at the head of `images`. |
| Pargb32.PARGB32Utils.Keep | scanmanager/pargb32.cpp:256-261 | A new image holding the bitmap goes at the head of the list. |
| Pargb32.PARGB32Utils.Destroy | scanmanager/pargb32.cpp:156-160 | The list is emptied, and exactly the bitmaps handed out are deleted. |
| CachedFiles.RemoveTrailingSlash | scanmanager/cached_files.cpp:78-86 | It drops exactly one final `\` if present; otherwise it returns the input. |
| CachedFiles.RemoveLeadingSlash | scanmanager/cached_files.cpp:93-101 | It drops exactly one initial `\` if present; otherwise it returns the input. |
| CachedFiles.TrailingSlashRoundTrip | scanmanager/cached_files.cpp:78-86 | Removing an appended `\` gives the path back. |
| CachedFiles.LeadingSlashRoundTrip | scanmanager/cached_files.cpp:93-101 | Removing a prepended `\` gives the path back. |
| CachedFiles.TrailingSlashOnlyOne | scanmanager/cached_files.cpp:78-86 | Of two final slashes, one stays. |
| CachedFiles.LeadingSlashOnlyOne | scanmanager/cached_files.cpp:93-101 | Of two initial slashes, one stays. |
| CachedFiles.PathConcatenate | scanmanager/cached_files.cpp:161-167 | RemoveTrailingSlash(base) + `\` + RemoveTrailingSlash(RemoveLeadingSlash(part)). |
| CachedFiles.PathConcatenateSingleSeparator | scanmanager/cached_files.cpp:161-167 | The separator sits at index &#124;RemoveTrailingSlash(base)&#124;. |
| CachedFiles.LastSlash | scanmanager/cached_files.cpp:176 | `find_last_of("\\/")`: the last `\` or `/`, or none. |
| CachedFiles.GetFileSpec | scanmanager/cached_files.cpp:174-192 | When it splits at k (the last slash, 0 < k < len-1), first + s[k] + second = s, both parts are non-empty and second has no slash. It splits exactly when such a k exists; otherwise it returns ("", s). |
| CachedFiles.FileSpecOfConcatenation | scanmanager/cached_files.cpp:161-192 | Splitting a concatenation with a slash-free name gives back the trimmed base and the name. |
| CachedFiles.FileCache.SetBasePath | scanmanager/cached_files.cpp:44-47 | It stores the path. |
| CachedFiles.FileCache.GetBasePath | scanmanager/cached_files.cpp:54-71 | It returns the value most recently set. |
| DLLists.DistinctInsert | scanmanager/dllist.h:30-40 | Inserting a new item keeps the list free of repetitions. |
| DLLists.DistinctRemove | scanmanager/dllist.h:42-54 | Removing one keeps it free of repetitions. |
| DLLists.DLListItem.constructor | scanmanager/dllist.h:22-28 | All links null. |
| DLLists.DLListItem.Insert | scanmanager/dllist.h:30-40 | The item becomes the slot's target. Its next is the old target, whose `dllPrev` now points at the item's `dllNext`, and its `dllObject` is set. |
| DLLists.DLListItem.Remove | scanmanager/dllist.h:42-54 | With a predecessor slot, the slot gets the successor, whose `dllPrev` gets the item's; both links are then cleared. An unlinked item changes nothing else. |
| DLLists.DLList.constructor | scanmanager/dllist.h:64-67 | An empty list. |
| DLLists.DLList.Consistent | scanmanager/dllist.h:30-81 | In a valid list, `*dllPrev == item` for every item, and `next->dllPrev == &dllNext`. |
| DLLists.DLList.LinkedAt | scanmanager/dllist.h:30-81 | Item k's prev is slot k and its next is item k+1 (or null). |
| DLLists.DLList.Unlinked | scanmanager/dllist.h:47-53 | An item with a null prev is not in the list. |
| DLLists.DLList.Insert | scanmanager/dllist.h:68 | The item goes at the head, the list stays valid, and the others and their objects are unchanged. |
| DLLists.DLList.Remove | scanmanager/dllist.h:69 | A linked item is removed from its position with the order of the others kept. For an unlinked item nothing in the list changes, so removing twice is safe. The list stays valid. |
| DLLists.DLList.TailInsert | scanmanager/dllist.h:73-81 | The item is appended after the last one, or at the head of an empty list, keeping the order. |
| ImageLists.Present | scanmanager/imagelist.h:81-88 | The bitmaps actually held, among optional ones. |
| ImageLists.PresentAppend | scanmanager/imagelist.h:59-60 | The held bitmaps of two stacks concatenate. |
| ImageLists.RestoreSucceeds | scanmanager/imagelist.h:75-91 | Restore succeeds exactly when there are backups and then pops one. Without backups it returns false and changes nothing. |
| ImageLists.RestoreUndoesBackup | scanmanager/imagelist.h:64-91 | A backup of a bitmap followed by a restore gives back the remaining backups exactly, with the clone current and the old bitmap deleted. |
| ImageLists.BackupWithoutBitmap | scanmanager/imagelist.h:66-67 | A backup without a bitmap is a no-op. |
| ImageLists.BackupsStack | scanmanager/imagelist.h:64-72 | n backups push the clones, newest first. |
| ImageLists.RestoresUnwind | scanmanager/imagelist.h:75-91 | n restores after n backups give the clones back newest first (LIFO), leaving the original backups. |
| ImageLists.GDIPImageNode.constructor | scanmanager/imagelist.h:15-19 | Unlinked, with no bitmap. |
| ImageLists.GDIPImageNode.Destroy | scanmanager/imagelist.h:21-30 | The node is unlinked from its list, with the others' order kept, and its bitmap deleted. |
| ImageLists.ImageNode.constructor | scanmanager/imagelist.h:35-41 | Unlinked, no bitmaps, no backups. |
| ImageLists.ImageNode.Backup | scanmanager/imagelist.h:64-72 | It is a no-op without a bitmap. Otherwise it pushes a clone at the front of `prevImages`. |
| ImageLists.ImageNode.RestoreBackup | scanmanager/imagelist.h:75-91 | Its result follows Restore: it is false with nothing changed when there are no backups. Otherwise the current bitmap is deleted and replaced by the newest backup, which is removed. |
| ImageLists.ImageNode.DeleteNewest | scanmanager/imagelist.h:60 | `delete prevImages.head->dllObject` pops the newest backup and deletes its bitmap. |
| ImageLists.ImageNode.DeleteBackups | scanmanager/imagelist.h:59-60 | The drain loop empties `prevImages` and deletes every backup bitmap. |
| ImageLists.ImageNode.Release | scanmanager/imagelist.h:48-60 | The scanner bitmap and the GDI+ bitmap are given up, and every backup goes. |
| ImageLists.ImageNode.Destroy | scanmanager/imagelist.h:43-61 | The destructor unlinks the node (the others' order kept), frees its bitmaps, and empties `prevImages`. |
| ImageLists.HandlesOf | scanmanager/imagelist.h:39 | Each image's scanner bitmap, in list order. |
| ImageLists.ImageList.constructor | scanmanager/imagelist.h:94 | An empty image list. |
| ImageLists.ImageList.DeleteHead | scanmanager/scanmanager.cpp:155 | `delete gImageList.head->dllObject` drops the first image and deletes its bitmaps. |
| ImageLists.ImageList.Clear | scanmanager/scanmanager.cpp:153-155 | The loop empties the list and deletes every image's scanner bitmap. |
| ImageLists.ImageList.NewAtTail | scanmanager/scanmanager.cpp:164-166 | A fresh image holding the bitmap, with no backups, is appended at the tail. |
| ImageLists.ImageList.NewAtHead | scanmanager/pargb32.cpp:258-260 | A fresh image holding the bitmap is inserted at the head. |
| ImageNavigation.IndexOf | scanmanager/scanmanager.cpp:185-198 | The first position of an image in the list. |
| ImageNavigation.IndexOfAt | scanmanager/scanmanager.cpp:185-198 | In a list without repetitions, the i-th image is at position i. |
| ImageNavigation.EnabledMoves | scanmanager/scanmanager.cpp:88-113 | Each command is enabled exactly when it would change the current image. |
| ImageNavigation.NextPrev | scanmanager/scanmanager.cpp:173-199 | Next undoes an enabled Prev, and Prev an enabled Next. |
| ImageNavigation.AppendedIsLast | scanmanager/scanmanager.cpp:162-168 | A new last image has no successor, and has a predecessor unless it is alone. |
| ImageNavigation.ItemBefore | scanmanager/scanmanager.cpp:191-194 | The walk from the head stops at the item before the current one. |
| ImageNavigation.Viewer.constructor | scanmanager/scanmanager.cpp:64-73 | No images, none current, commands disabled. |
| ImageNavigation.Viewer.UpdateViewImgCmds | scanmanager/scanmanager.cpp:88-113 | Previous is enabled exactly when there is no effect dialog, a current image, and it is not the head. Next is enabled exactly when there is no effect dialog and the current image has a successor. |
| ImageNavigation.Viewer.SetCurrentImage | scanmanager/scanmanager.cpp:135-146 | The node becomes current, the commands are updated, and the edit commands are enabled exactly when there is an image. |
| ImageNavigation.Viewer.ClearImageList | scanmanager/scanmanager.cpp:151-157 | The list is empty, the current image is null, every command is disabled, and every image's scanner bitmap is deleted. |
| ImageNavigation.Viewer.AddNewImage | scanmanager/scanmanager.cpp:162-168 | The new image is appended at the tail and made current. Next is disabled, and previous is enabled exactly when there were images and no dialog. |
| ImageNavigation.Viewer.GotoNextImage | scanmanager/scanmanager.cpp:173-177 | It moves to the successor only when one exists; otherwise nothing changes. |
| ImageNavigation.Viewer.GotoPrevImage | scanmanager/scanmanager.cpp:182-199 | With no current image, or at the head, nothing changes. Otherwise the current image becomes the one whose next is the old current. |
| Common.RowAtIs | scanmanager/jpegimage.cpp:391 | Row y of a buffer with rows `eff` apart starts at y·eff. |

## Left out

- The Win32 shell of the program is UI and is not modelled: window and message handling, menus, toolbar, painting, printing, PDF and save dialogs, and the document store.
- `TWAINManager` diagnostics are not modelled: the `MessageBoxA` calls, the HWND and TW_IDENTITY contents, the `MSG_GET` of DAT_STATUS condition codes, and the TW_IMAGEINFO contents. Each driver call is an entry of the reply script.
- The image callback's own behaviour is outside this model. It is logged as a delivery of the native image handle.
- `LoadLibraryA`, `GetProcAddress` and `GetWindowsDirectoryA` are parameters of `LoadSourceManager`.
- TwainSpec.XferLoop: the driver's reply script is finite, and an exhausted script answers TWRC_FAILURE, which ends the loop. A driver that keeps answering the native transfer with codes other than XFERDONE, CANCEL and FAILURE makes the source loop run forever, and that case is outside the model.
- `GlobalUnlock` has no effect on the modelled state and is not logged.
- twain.h is not part of this model. The return codes and messages used are those of TWAIN 1.x.
- `CxMemFile`'s destructor and `free` only call `close`, and `scanf` returns 0. None of them is modelled separately.
- MemFile.CxMemFile.Alloc: `malloc`/`realloc` failure is not modelled (allocation always succeeds).
- MemFile.CxMemFile.Seek: positions are unbounded integers; the 32-bit `int32_t` wrap-around of `m_Position` and `nCount` is not modelled.
- `BitmapImage` parts not modelled: the HBITMAP constructor (GDI+ `LockBits`), `setXDPI`/`setYDPI` (floating-point rounding) and `writeJPEG` (libjpeg).
- JpegImage.BitmapImage.Create: it requires `stride·height <= 0x7FFF0000`. Larger images are excluded: the source computes `biSizeImage = effWidth·height` in 32 bits, where it wraps, and allocates `getSize()` bytes as an `int32_t`, which under-allocates or throws. Neither the wrap nor the under-allocation is modelled.
- JpegImage.BitmapImage.CreateFromRGB: it requires the same `stride·height <= 0x7FFF0000` bound as Create, so images whose byte size exceeds it (the wrapped 32-bit size) are excluded.
- JpegImage.BitmapImage.CreateFromRGB24: it requires the same `stride·height <= 0x7FFF0000` bound as Create, so images whose byte size exceeds it (the wrapped 32-bit size) are excluded. It also requires the input rows and `3·width <= stride`, as CreateFromRGB does.
- JpegImage.BitmapImage.CreateFromRGB: it requires the input to hold every row it reads and `3·width <= stride`; the source reads and writes past the buffers otherwise.
- The `cached_files.cpp` filesystem functions are not modelled: directory and file tests, creation, copying and dropping files from the cache.
- The GDI and uxtheme calls of `pargb32.cpp` are inputs: DC creation, `CreateDIBSection`, buffered paint and `DrawIconEx`, plus `GetBufferedPaintBits`, `GetIconInfo` and `GetDIBits` results. Pargb32.PARGB32Utils.BitmapFromIcon does not model the painting steps between creating the bitmap and returning it.
- Memory is not reclaimed in the model: deleting a node is modelled by unlinking it and reporting the bitmaps freed.
- Docread/docwrite, the effect dialog, user login, share permissions and WIA are outside the core.

## Findings

| source | as written | input that shows it | evidently intended | confidence | as-written member | corrected member |
|---|---|---|---|---|---|---|
| scanmanager/jpegimage.cpp:383 | `createFromRGB` calls `create(width, height, 3, stride)`. That rounds the depth to 4 bits per pixel with a 16-entry all-zero palette, while the loop stores 24-bit B, G, R triples. | any non-null array with 0 < width, height < 65536 | create the image at 24 bits per pixel, so each stored triple is one pixel | not executed | JpegImage.BitmapImage.CreateFromRGB, JpegImage.AllBlack | JpegImage.BitmapImage.CreateFromRGB24, JpegImage.StoredStreamIsInput |
| scanmanager/scanmanager.cpp:425, 470-471 | `last_argc` is never updated after 0, so each round after a token unescapes `argv[0]` again and no other argument is ever unescaped. | `a b\"c` (argv[1] keeps its backslash); `\\" b` (argv[0] is unescaped twice, giving `"`) | set `last_argc = argc` after unescaping, so each argument is unescaped once | not executed | CommandLine.ParseCommandLine, CommandLineFixed.AsWrittenKeepsEscape, CommandLineFixed.AsWrittenOverUnescapes | CommandLineFixed.ParseCommandLineFixed, CommandLineFixed.FixedDropsEscape, CommandLineFixed.FixedUnescapesOnce |
