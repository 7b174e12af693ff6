# Betawise: terminal, dump editor, loader and System 3 file model

A Dafny model of the parts of Betawise that carry state, with proofs about every run of them. `dafny verify
dfyconfig.toml` checks all of it. There are four components.

**The character terminal** of `os3k/os3k.c`. It scrolls by turning the LCD start line instead of moving pixels, and
wraps lazily by parking the cursor on the last pixel column. `Os3k` is the C code on mutable fields, `Terminal` the
same steps on values, `TextScreen` a terminal that is only a list of rows, and `Refinement` the proof that a user
cannot tell them apart. `TerminalLaws` has closed forms and whole-run laws, `PanelFit` says which panel sizes the code is
right for.

**The dump editor** of `applets/DebugTool/DebugTool.c`, which draws through that terminal. `Editor` is what a message
does to window, cursor and memory; `NibbleTape` shows that the hex pane is a flat tape of 2^33 nibbles; `DumpScreen`
lists what the tool sends to the terminal and the picture it must leave; `Painting` and `Coherence` show that the
one-byte repaint never diverges from a full redraw; `DebugTool` is the C code as a class on top of `Os3k`. `KeyCodes`,
`TypedText` and `Picture` say in key codes, character codes and column numbers what keys, text and picture come to.
`NumberGrammar` and `NumberParser` are `NumberFromString`, against an independent grammar.

**The relocating loader** of `m68k-elf/tests/crt0.S`: `Relocation` (the fix-up and lists of slots), `Loader` (the two
loops, patching an array of 2^32 bytes) and `LoadedImage` (the loaded program against the linked one).

**The System 3 file arena and clipboard**, from the documented formulas and steps: `ByteMoves`, `Arena`, `Clipboard`,
`ArenaEdit` (cut and paste inside the arena), and `FolderProbe` with the probe applet that runs against the `FileSetFolder` contract.

`Words`, `Bits`, `Hex`, `Modular` and `Panel` are what these share; `Bits` holds C's bitwise operators on unsigned values.

## What the proofs found

- `_LCD_AllPixOn` ignores its argument (`os3k/os3k.c:36-38`), so after a bell all pixels stay on for good
  (`TerminalLaws.BellLatches`), while cursor, start line and framebuffer are those of the run without the bells
  (`TerminalLaws.BellChangesNothingElse`).
- A backspace at row 1, column 1 turns the bottom row to the top and clears only its last cell, because the clear
  starts at the cursor's pixel column (`TextScreen.BackspaceAtHome`).
- `SetCursor` also accepts the column behind the last one. If such a call scrolls, only the last pixel column of the
  row that comes in is cleared. The ring terminal stays in step with the plain one exactly as long as no such scroll
  meets a last glyph with ink in that pixel column (`Refinement.MoveShows`, `Refinement.InStepIff`;
  `Refinement.SplitGlyphParts` shows, for every screen size, a sequence after which they differ). Text alone never does it, nor does the dump editor
  (`Refinement.LegalRunSplitsNothing`).
- MSG_SETFOCUS recounts the rows but keeps `g_cursor`. If the font grew since the last focus, the cursor may lie below
  the screen; placing it scrolls the fresh dump. The screen shows memory exactly when `g_cursor` is below eight times
  the new row count (`Coherence.FocusShowsMemoryIff`, `Coherence.FocusAfterFontChangeGoesWrong`).
- Losing the focus resets the panel's start line but not `g_CurLcdRoll`, and regaining it homes the firmware's cursor
  structure but not `g_CurRow` and `g_CurCol`. Until the next `ClearScreen` the terminal is in step with its panel exactly
  if the cursor was home and roll was 0 (`TerminalLaws.RefocusIsValidIff`). Otherwise the first `SetCursor` puts it right
  exactly if roll was 0 or the requested row is off the screen (`TerminalLaws.MoveRecoversIff`), and the first byte under
  the conditions of `TerminalLaws.ByteRecoversIff`; a printable character never does. The dump editor calls `ClearScreen`.
- Wrapping and scrolling compare with the size of the panel, not of the text. A full row wraps, and no other, exactly if
  at most one pixel column is left over beside the cells (`PanelFit.WrapsWhenFullIff`); rows stay inside the framebuffer
  through all scrolling exactly if no pixel line is left over below them (`PanelFit.RowsStayInsideIff`). 268 by 60 pixels
  with a 16-line font fail in both ways (`PanelFit.UnevenPanelGoesWrong`).
- The GOT loop tests each value after the fix-up as well as before. A value that the base carries to 2^32 ends the loop
  early, and A0 then points behind the entry that follows the null one instead of behind the table. The loop is complete
  exactly if no entry but possibly the last fixes up to null (`Loader.GotLoopCompleteIff`). A table of linked addresses is
  never cut short at admissible bases (`Loader.LinkedTableIsComplete`); at others it can be
  (`Loader.NullFixupHidesEntries`).
- Ctrl+Home and Ctrl+End mask with the number of bytes on the screen less one. They reach the ends of the screen exactly
  with 1, 2, 4 or 8 rows (`Editor.ScreenKeysReachIff`); with 5 or 6 rows, and only then, Ctrl+End can leave the cursor
  below the window (`Editor.ScreenEndFitsIff`).
- Number text that starts with `!` overwrites `g_rawSysCall` even when it is rejected
  (`NumberParser.Reader.NumberFromString`).
- 43 columns are enough for the dump editor: the last character lies in column 43, and a cursor parked behind the last
  column wraps nothing, because every row and every repaint starts by placing the cursor.

## Assumptions

- The NEO: a system font is present, `g_isAS3000` is false. Glyphs are 6 pixels wide, 8 or 16 high, and fill the panel
  (except in `PanelFit`); the panel has at most 64 lines and 254 columns of text. The dump editor has at least 43 columns and 1, 2, 4 or 8 rows.
- `_OS3K_ClearScreen` blanks the framebuffer and homes the cursor structure; `DrawBitmap` is an opaque copy;
  `RasterOp` clips at the panel's edge; the start-line command takes effect at once.
- The panel shows its lines from the start line on and goes on with line 0 after line `g_LcdHeight - 1`. The start-line
  register has six bits, so on a panel of fewer than 64 lines this takes a controller that wraps at the panel's height.
- When the clipboard is given capacity, the active file's current size is within its watermark, max(recoverable, min_size)
  (`ArenaEdit.EditStore.Covered`): the allocator preserves no more.
- `sprintf` prints `%02X` and `%08X` as digits with leading zeros and `char` is signed.
- Memory is 2^32 bytes without bus errors, and what the tool dumps is not its own variables, apart from `g_scratch`.
- A slot of the loader's tables is four bytes, big-endian, at any alignment.
- `AppletFindById` returns the first slot with the id, or 0.

## Model

| member | source | states |
|---|---|---|
| PanelFit.WrapsWhenFullIff | os3k/os3k.c:225-234 | For every panel width: the wrap test holds after a full row and at no earlier character, exactly if width mod 6 is at most 1 |
| PanelFit.OverlongRow | os3k/os3k.c:225-234 | With more left over it holds at no character whose x fits 16 bits, and from the full row on characters cross the right edge |
| PanelFit.RowsStayInsideIff | os3k/os3k.c:98-125 | For every panel height: through every sequence of scrolls up and down every row is drawn inside the framebuffer, exactly if the font height divides the panel height |
| PanelFit.FirstScrollLeaves | os3k/os3k.c:105-125 | Otherwise the bottom row leaves the framebuffer on the first scroll |
| PanelFit.UnevenPanelGoesWrong | os3k/os3k.c:65-67 | A panel size that fails in both ways |
| PanelFit.GeometryFills | os3k/os3k.c:52-67 | On a panel that cells fill, the counts the code works out give back the panel size |
| PanelFit.GeometryAgrees | os3k/os3k.c:98-125 | And the positions, lines and scrolls of the terminal model are those computed from the panel size |
| Panel.LinesOfRow | os3k/os3k.c:122-125 | A visible row's pixel lines are contiguous in the framebuffer, never split by the wrap of the ring, and disjoint from every other row's |
| Panel.DrawFillsOneCell | os3k/os3k.c:230 | A glyph bitmap at a cell's corner replaces that cell's pixels and leaves every other visible cell alone |
| Panel.WhitenClearsTail | os3k/os3k.c:126-128 | The clear blanks its row from the cursor's cell to the right edge and no other cell |
| Panel.RollShiftsRows | os3k/os3k.c:98-112 | One text row more or less on the start line moves every visible row up or down by one, the outermost around |
| Terminal.SetCursor | os3k/os3k.c:90-130 | For any stale row, column, x and y the registers end on the screen; the invariant holds afterwards exactly if the panel's start line agreed with roll before or the call scrolls |
| Terminal.Apply | os3k/os3k.c:177-238 | Every byte sent keeps the terminal's invariant |
| Terminal.Run | os3k/os3k.c:177-250 | So does every sequence of bytes and cursor moves |
| Terminal.ScrollArithmetic | os3k/os3k.c:98-111 | The source's additions with one conditional wrap reach the start line one row on or back in the ring |
| Terminal.CursorLine | os3k/os3k.c:122-125 | The same for the cursor's pixel line |
| Terminal.RunConcat | os3k/os3k.c:240-250 | Sending two texts one after the other is sending their concatenation |
| TerminalLaws.CursorArithmetic | os3k/os3k.c:98-125 | The invariant in closed form: roll is a multiple of the height, x is min(6(col-1), W-1), y is ((row-1)height + roll) mod H, and x == W-1 holds exactly when a wrap is pending |
| TerminalLaws.DrawsOneWholeCell | os3k/os3k.c:225-235 | Every bitmap drawn lies inside the framebuffer and on one whole cell |
| Refinement.MoveShows | os3k/os3k.c:90-130 | Every cursor move the ring terminal accepts, scrolling or not, matches the plain terminal's exactly if it does not cut a glyph; the condition looks only at the plain screen and the font |
| Refinement.PrintShows | os3k/os3k.c:223-237 | So does a printed character, with a pending wrap or without |
| Refinement.ApplyShows | os3k/os3k.c:177-238 | So does every byte, without condition, and every move under that condition |
| Refinement.RingRefinesPlain | os3k/os3k.c:90-250 | For every sequence of bytes and cursor moves that cuts no glyph, the ring terminal shows exactly the plain terminal's rows, cursor and scroll count |
| Refinement.InStepIff | os3k/os3k.c:90-250 | The ring terminal shows the plain one after every prefix of a sequence exactly if the sequence cuts no glyph |
| Refinement.LegalRunSplitsNothing | os3k/os3k.c:177-250 | Text of any kind, and moves that keep to the real columns when they scroll, cut no glyph |
| Refinement.SplitGlyphParts | os3k/os3k.c:119-128 | On every screen size: any character with ink in the edge column, put into the top right corner, and a scroll to the column behind it make the two terminals differ |
| Refinement.GlassIsPlainScreen | os3k/os3k.c:32-34 | Every pixel of the glass, read from the start line on, is the font's pixel for the plain terminal's cell |
| Refinement.GlassInPixels | os3k/os3k.c:32-34 | The same in numbers: pixel (x, l) of the glass is the font's pixel (x mod 6, l mod 16 or 8) of the character in row l/16 or l/8, column x/6, and dark where there is none |
| Refinement.ScreenDeterminesTerm | os3k/os3k.c:98-125 | The plain terminal's state determines registers, start line and every framebuffer pixel |
| Refinement.HomeShows | os3k/os3k.c:81-88 | A cleared terminal shows the empty plain screen |
| TextScreen.NewlineAtBottom | os3k/os3k.c:207-213 | A line feed on the bottom row drops the top row and appends an empty one |
| TextScreen.BackspaceAtHome | os3k/os3k.c:200-206 | A backspace at home brings the bottom row to the top, less its last character only |
| TextScreen.MoveIs | os3k/os3k.c:90-130 | What a cursor move does to rows and cursor, on the screen, above it and below it |
| TextScreen.ControlCodes | os3k/os3k.c:188-217 | The effect of the bytes 0x07, 0x08, 0x0A and 0x0D at every cursor position |
| TextScreen.OtherCodes | os3k/os3k.c:223-237 | Every other byte is drawn at the cursor, or after a line feed if the row is full |
| TextScreen.PutsInRow | os3k/os3k.c:223-237 | Text that fits overwrites its own cells of its own row, and never wraps or scrolls |
| TextScreen.WriteAt | os3k/os3k.c:90-130 | Placing the cursor and then writing text that fits changes only those cells |
| TerminalLaws.BellLatches | os3k/os3k.c:36-38 | After any run all pixels are on exactly if they were or a bell was sent |
| TerminalLaws.BellChangesNothingElse | os3k/os3k.c:189-199 | Every other part of the terminal is as after the same run without the bells |
| TerminalLaws.Overtype | os3k/os3k.c:200-237 | From every valid state printing c, backspace, d leaves exactly the terminal that printing d leaves, even where c wraps and scrolls |
| TerminalLaws.TextWraps | os3k/os3k.c:223-237 | The plain screen after any printable text is the text wrapped at the last column |
| TerminalLaws.WrappedArithmetic | os3k/os3k.c:105-125 | Scrolls, row and column after n bytes in closed form |
| TerminalLaws.TailOfText | os3k/os3k.c:81-250 | After n >= 1 printable bytes from a cleared screen: col, row and roll in closed form, and every visible pixel that of the last rows of the wrapped text |
| TerminalLaws.RefocusIsValidIff | os3k/os3k.c:55-75 | Losing and regaining the focus gives a terminal in step with its panel, namely the cleared one, exactly if the cursor was home and roll was 0 |
| TerminalLaws.MoveRecoversIff | os3k/os3k.c:90-130 | The first `SetCursor` after that restores the invariant exactly if roll was 0 or the requested row is off the screen |
| TerminalLaws.ByteRecoversIff | os3k/os3k.c:177-238 | For each byte sent first, exactly when the invariant holds after it |
| TerminalLaws.MoveFromReset | os3k/os3k.c:90-130 | From the zeroed globals, before any `ClearScreen`, the first `SetCursor` leaves the valid terminal that it leaves from home |
| TerminalLaws.ByteFromReset | os3k/os3k.c:177-238 | And the first byte leaves a valid one exactly if it is a line feed, return or backspace; where each of them leaves cursor and start line |
| Os3k.Console.constructor | os3k/os3k.c:3-10 | The zeroed globals are no valid terminal, but moves and bytes are defined on them |
| Os3k.Console.KillFocus | os3k/os3k.c:70-74 | A working terminal keeps its registers on the screen and goes on working exactly if it had not rolled |
| Os3k.Console.SetFocus | os3k/os3k.c:55-68 | Nothing is lit; once the start line is 0 the terminal works without a `ClearScreen` exactly if it stands at home, and is then the cleared one |
| Os3k.Console.ClearScreen | os3k/os3k.c:81-88 | Leaves the cleared terminal, whatever was before |
| Os3k.Console.ScrollTo | os3k/os3k.c:98-114 | A row off the screen is clamped and turns the start line once, in the right direction |
| Os3k.Console.SetCursor | os3k/os3k.c:90-130 | The in-place code reaches the specified terminal, also from stale registers |
| Os3k.Console.Print | os3k/os3k.c:223-237 | The same for a printed character, also from stale or zeroed registers: a parked cursor wraps first |
| Os3k.Console.Fputc | os3k/os3k.c:177-238 | The same for one byte |
| Os3k.Console.Fputs | os3k/os3k.c:240-250 | Sends the bytes before the first NUL, in order, and nothing else |
| Hex.HexCharToNibble | applets/DebugTool/DebugTool.c:162-172 | A nibble for a hex digit of either case, a negative `char` for everything else |
| Hex.DigitsRead | applets/DebugTool/DebugTool.c:162-172 | Exactly two characters are read as each value: its digit in "0123456789ABCDEF" and in "0123456789abcdef" |
| Hex.OnlyDigitsRead | applets/DebugTool/DebugTool.c:162-172 | Exactly the characters of these two strings are digits |
| Hex.PrintedDigit | applets/DebugTool/DebugTool.c:76-80 | The digit printed for n is character n of "0123456789ABCDEF" |
| Hex.HexDigitRoundTrip | applets/DebugTool/DebugTool.c:162-172 | Reading the digit that `%X` prints for a nibble gives the nibble back |
| Editor.MoveIsExact | applets/DebugTool/DebugTool.c:138-151 | A move of up to a row beyond the window lands exactly there modulo 2^32, window aligned and cursor inside, whether or not the window scrolls |
| Editor.ClearLowBits | applets/DebugTool/DebugTool.c:338-344 | With 1, 2, 4 or 8 rows the and-not masks of Home and Ctrl+Home go to the start of the row and of the screen |
| Editor.SetLowBits | applets/DebugTool/DebugTool.c:346-352 | With these rows the or masks of End and Ctrl+End go to the last byte of the row and of the screen |
| Editor.ScreenKeysReachIff | applets/DebugTool/DebugTool.c:342-352 | For 1 to 8 rows: Ctrl+Home and Ctrl+End reach the first and last byte from every cursor exactly if the rows number 1, 2, 4 or 8 |
| Editor.ScreenEndFitsIff | applets/DebugTool/DebugTool.c:350-352 | For 1 to 8 rows: Ctrl+End leaves every cursor inside the window exactly if the rows do not number 5 or 6; with 5 rows cursor 16 ends at 47 |
| Editor.SplitAddress | applets/DebugTool/DebugTool.c:155-156 | The masks of a jump split an address into a row start and a column |
| Editor.ClearCapsLock | applets/DebugTool/DebugTool.c:295 | The mask takes away the caps-lock bit and nothing else |
| Editor.KeysNavigate | applets/DebugTool/DebugTool.c:296-352 | Every cursor key keeps the window aligned and the cursor inside; address plus cursor moves by exactly the requested amount modulo 2^32 |
| Editor.SessionStaysInWindow | applets/DebugTool/DebugTool.c:268-448 | So over every sequence of characters and keys |
| Editor.BackUndoesJump | applets/DebugTool/DebugTool.c:153-160 | A jump goes to the address and remembers the former one; Backspace returns, and two Backspaces restore both addresses |
| Editor.CapsLockIsIgnored | applets/DebugTool/DebugTool.c:295 | Every key code means the same with caps lock |
| KeyCodes.LeftAndRight | applets/DebugTool/DebugTool.c:296-318 | Codes 0x49 and 0x4A in each mode: nibble, address and cursor afterwards |
| KeyCodes.RowKeys | applets/DebugTool/DebugTool.c:320-348 | Codes 0x4B, 0x0D, 0x1F and 0x3E: a row up or down, the ends of the row |
| KeyCodes.PageKeys | applets/DebugTool/DebugTool.c:324-336 | Codes 0x804B and 0x800D: a screen up or down modulo 2^32 |
| KeyCodes.ScreenKeys | applets/DebugTool/DebugTool.c:342-352 | Codes 0x801F and 0x803E: the ends of the screen |
| KeyCodes.BackKey | applets/DebugTool/DebugTool.c:436-439 | Code 0x03: the remembered address, row-aligned, on a high nibble, with the former one remembered |
| KeyCodes.FollowKeys | applets/DebugTool/DebugTool.c:421-434 | Codes 0x8410 and 0x8810: the address in the four bytes from an even cursor on, first byte highest |
| KeyCodes.OtherKeys | applets/DebugTool/DebugTool.c:441-452 | Code 0x34 zeroes 256 bytes and no other; 0x8023 and every code without a case change nothing |
| TypedText.OtherCodes | applets/DebugTool/DebugTool.c:268-292 | Code 9 switches panes, 13 does nothing, and in the hex pane neither does any code but a digit's |
| Editor.FollowGoesToShownDigits | applets/DebugTool/DebugTool.c:421-434 | On an even cursor Ctrl+Shift+G goes to the address whose eight digits the hex pane shows from there on, also across the end of memory, and Backspace returns; on an odd cursor it changes nothing |
| Editor.Zeroed | applets/DebugTool/DebugTool.c:445-448 | Clear File zeroes the scratch buffer and no other byte |
| Editor.AsciiCharIsStored | applets/DebugTool/DebugTool.c:288-291 | In the ASCII pane any character but Tab and Return is stored as it is, and the position advances by one |
| Editor.AsciiTextIsStored | applets/DebugTool/DebugTool.c:288-291 | Text of any length up to 2^32 lands in consecutive bytes modulo 2^32, across any scrolling, and nothing else changes |
| TypedText.AsciiCodesAreStored | applets/DebugTool/DebugTool.c:288-291 | Any bytes but 9 and 13 typed as their codes in the ASCII pane are in memory afterwards, and nothing else has changed |
| NibbleTape.StoreWritesOneNibble | applets/DebugTool/DebugTool.c:96-105 | The masked store changes exactly the nibble under the cursor |
| NibbleTape.StepIsTapeStep | applets/DebugTool/DebugTool.c:274-318 | A hex digit or Left or Right, whichever half of which byte of whichever window it meets, is one step of a flat nibble tape |
| NibbleTape.SessionIsTapeRun | applets/DebugTool/DebugTool.c:274-318 | Every run of digits, Left and Right is a run of that tape |
| NibbleTape.TypingFillsTape | applets/DebugTool/DebugTool.c:274-287 | Digits land in consecutive nibbles modulo 2^33 and nowhere else |
| NibbleTape.TypingStoresBytes | applets/DebugTool/DebugTool.c:274-287 | Typing 2k digits from a high nibble stores exactly their k bytes, across any scrolling |
| NibbleTape.TypingAdvances | applets/DebugTool/DebugTool.c:274-287 | And leaves the position k bytes on, on a high nibble |
| TypedText.HexTextStoresBytes | applets/DebugTool/DebugTool.c:274-287 | Typing the digits of any bytes, each in either letter case, from a high nibble leaves exactly these bytes in memory |
| TypedText.PrintedBytesAreTyped | applets/DebugTool/DebugTool.c:76-80 | What the hex pane prints for some bytes is such a text |
| Painting.RowIsPrintable | applets/DebugTool/DebugTool.c:76-94 | No byte value and no address can send a control character |
| Painting.CursorFindsByte | applets/DebugTool/DebugTool.c:57-70 | Within a row's text, the cursor columns of both panes are where that byte's two digits and character stand |
| Painting.CursorFindsByteOnScreen | applets/DebugTool/DebugTool.c:57-70 | On the screen a redraw leaves, the cell the cursor takes for any byte of the window, in any mode, holds that byte's digit or character |
| Painting.CellsAreDistinct | applets/DebugTool/DebugTool.c:57-70 | Different bytes or modes have different cells: the panes never overlap |
| Picture.PictureCell | applets/DebugTool/DebugTool.c:113-136 | Every cell of the picture in codes: eight digits of the row's address in columns 3 to 10, two digits and a space for each byte, its character or 0xB7, and nothing left and right of them |
| Picture.PictureCursor | applets/DebugTool/DebugTool.c:57-74 | Row and column of the cursor for each byte and mode, shown, with nothing scrolled |
| Painting.RowTextAfterStore | applets/DebugTool/DebugTool.c:96-111 | A store changes its own three hex columns and one ASCII column of the row's text and nothing else |
| Painting.RowTextIgnoresOtherBytes | applets/DebugTool/DebugTool.c:118-133 | A byte outside a row's eight addresses does not show in the row, also where the row wraps around memory |
| Painting.RedrawPaintsImage | applets/DebugTool/DebugTool.c:113-136 | A full redraw leaves exactly the picture of memory, window and cursor, and never wraps or scrolls |
| Painting.RepaintPaintsImage | applets/DebugTool/DebugTool.c:96-111 | The one-byte repaint turns the picture of the old memory into that of the new |
| Coherence.MessagePaintsImage | applets/DebugTool/DebugTool.c:268-448 | Each modelled message turns the picture of the old state into that of the new |
| Coherence.SessionPaintsImage | applets/DebugTool/DebugTool.c:268-448 | So does every sequence of messages |
| Coherence.SessionEqualsFreshRedraw | applets/DebugTool/DebugTool.c:260-448 | After focus and any session, cursor registers, start line and every pixel equal those of a fresh redraw of the current memory |
| Coherence.FocusShowsMemoryIff | applets/DebugTool/DebugTool.c:260-266 | On focus the screen shows memory exactly when the cursor left from before still fits the screen |
| Coherence.FocusAfterFontChangeGoesWrong | applets/DebugTool/DebugTool.c:260-266 | The fifth row's first byte and a change from eight rows to four is a case where it does not |
| DebugTool.Applet.constructor | applets/DebugTool/DebugTool.c:251-257 | Address 0, remembered address 0, cursor 0, high nibble, seven fields of one space |
| DebugTool.Applet.PutText | os3k/os3k.c:256-258 | `puts` sends the text without a newline |
| DebugTool.Applet.DumpSetCursor | applets/DebugTool/DebugTool.c:57-70 | Moves the terminal's cursor to the cell of that byte and pane |
| DebugTool.Applet.DumpSetCursorCur | applets/DebugTool/DebugTool.c:72-74 | The same for the current byte, cursor shown |
| DebugTool.Applet.DumpRedrawByteHex | applets/DebugTool/DebugTool.c:76-80 | Sends two digits and a space |
| DebugTool.Applet.DumpRedrawByteAscii | applets/DebugTool/DebugTool.c:82-94 | Sends the character, or the dot for a control character |
| DebugTool.Applet.DumpWriteAndRedrawCur | applets/DebugTool/DebugTool.c:96-111 | Stores the masked byte and sends exactly the one-byte repaint |
| DebugTool.Applet.RedrawCur | applets/DebugTool/DebugTool.c:107-110 | Sends exactly the one-byte repaint |
| DebugTool.Applet.ReadRow | applets/DebugTool/DebugTool.c:122-126 | Buffers the row's eight bytes, wrapping at 2^32 |
| DebugTool.Applet.DrawHexPane | applets/DebugTool/DebugTool.c:127-129 | The loop sends the row's hex pane |
| DebugTool.Applet.DrawAsciiPane | applets/DebugTool/DebugTool.c:130-132 | The loop sends the row's ASCII pane |
| DebugTool.Applet.DumpRedrawRow | applets/DebugTool/DebugTool.c:118-133 | One row: address and both panes of the right eight bytes |
| DebugTool.Applet.DumpRedrawScreen | applets/DebugTool/DebugTool.c:113-136 | The loop sends exactly the full redraw |
| DebugTool.Applet.DumpMoveCursor | applets/DebugTool/DebugTool.c:138-151 | Moves as specified; redraws exactly when the window moved |
| DebugTool.Applet.DumpSetAddress | applets/DebugTool/DebugTool.c:153-160 | Jumps as specified |
| DebugTool.Applet.SetFocus | applets/DebugTool/DebugTool.c:260-266 | From any terminal state: a full redraw on a cleared terminal, which shows memory if the cursor fits the screen |
| DebugTool.Applet.StoreAndAdvance | applets/DebugTool/DebugTool.c:284-290 | A low nibble or character is stored, repainted, and the cursor moves on, scrolling the window at its end |
| DebugTool.Applet.OnCharMessage | applets/DebugTool/DebugTool.c:268-292 | State and everything sent to the terminal are as specified for every character |
| DebugTool.Applet.KeyLeft | applets/DebugTool/DebugTool.c:296-306 | The same for Left |
| DebugTool.Applet.KeyRight | applets/DebugTool/DebugTool.c:308-318 | The same for Right |
| DebugTool.Applet.KeyVertical | applets/DebugTool/DebugTool.c:320-331 | The same for Up and Down |
| DebugTool.Applet.KeyEdge | applets/DebugTool/DebugTool.c:338-352 | The same for Home and End of row and screen, with the source's masks |
| DebugTool.Applet.OnKeyMessage | applets/DebugTool/DebugTool.c:294-448 | The same for every modelled key |
| DebugTool.Applet.ProcessMessage | applets/DebugTool/DebugTool.c:242-456 | The running tool: every modelled message keeps the terminal a picture of memory, window and cursor |
| NumberGrammar.ReadIsSound | applets/DebugTool/DebugTool.c:174-222 | Accepted text is a literal of the grammar, spelt like that |
| NumberGrammar.ReadIsComplete | applets/DebugTool/DebugTool.c:174-222 | Every literal is accepted and can be read in one way only |
| NumberGrammar.AcceptedIff | applets/DebugTool/DebugTool.c:174-222 | Text is accepted exactly if it is an optional `!`, then `0x` and any hex digits or any decimal digits, then an optional `+` if there is no `!` |
| NumberGrammar.AcceptedExactly | applets/DebugTool/DebugTool.c:174-222 | The same with the grammar written in character codes |
| NumberGrammar.PrintedValue | applets/DebugTool/DebugTool.c:385 | n printed hex digits of a number below 16^n have the number's value |
| NumberGrammar.PrintReadRoundTrip | applets/DebugTool/DebugTool.c:385 | The text `0x%08X` of any 32-bit number reads back as that number |
| NumberGrammar.SmallReadRoundTrip | applets/DebugTool/DebugTool.c:189-197 | So does `0x%08x`, with a small or large X |
| NumberGrammar.DecimalValue | applets/DebugTool/DebugTool.c:199-204 | The decimal text of a number of any length, by division by ten, has the number's value |
| NumberGrammar.DecimalReadRoundTrip | applets/DebugTool/DebugTool.c:199-221 | It is accepted and read as the number modulo 2^32, with a `+` behind it as that plus the scratch address, with a `!` before it as the opcode's address |
| NumberGrammar.DecimalSystemCall | applets/DebugTool/DebugTool.c:207-210 | And a `!` before decimal n gives the opcode 0xA000 + 4 (n mod 512) |
| NumberGrammar.AppendHexDigitBits | applets/DebugTool/DebugTool.c:196 | The shift and or of the hex loop append a digit modulo 2^32 |
| NumberGrammar.OpcodeBits | applets/DebugTool/DebugTool.c:209 | The shift and masks give the opcode of index n mod 512 |
| NumberParser.OpcodeIgnoresHighBits | os3k/syscall.c:1-4 | That opcode does not depend on the reduction modulo 2^32, so `!` and any digits name the system call of that index modulo 512 |
| NumberGrammar.NumberPartOfLiteral | applets/DebugTool/DebugTool.c:189-205 | The digits read out of a literal are the literal's own, in its base |
| NumberParser.Reader.ReadDigits | applets/DebugTool/DebugTool.c:189-205 | The loops stop at the first character that is no digit, with the mathematical value of all digits modulo 2^32 |
| NumberParser.Reader.ReadNumber | applets/DebugTool/DebugTool.c:185-222 | Succeeds exactly on the grammar, with the literal's meaning; otherwise leaves the caller's number alone; `g_rawSysCall` changes exactly on a `!`, accepted or not |
| NumberParser.Reader.NumberFromString | applets/DebugTool/DebugTool.c:174-222 | The same for every C string, with `$` standing for its own text's address |
| Relocation.A5FromPcBits | m68k-elf/tests/crt0.S:7-13 | The instructions compute the RAM base that bit 28 of the program counter selects |
| Relocation.FixupBits | m68k-elf/tests/crt0.S:49-59 | The sign test and the cleared bit of the instructions compute the fix-up |
| Relocation.FirstByteHasSign | m68k-elf/tests/crt0.S:49-56 | The first byte in memory decides whether a word is a RAM address |
| Relocation.WordsOrderAsBytes | m68k-elf/tests/crt0.S:21-24 | Words compare as their bytes in memory do from the first on, so the order is big-endian |
| Relocation.FixupInBytes | m68k-elf/tests/crt0.S:49-59 | What the fix-up comes to, byte by byte |
| Relocation.A5MatchesImages | m68k-elf/tests/build.sh:48-55 | Each of the two test images finds the RAM base at which its sections were placed |
| Relocation.FixupIsIdentityAtLinkBases | m68k-elf/tests/test.lds:5-6 | At the link addresses the fix-up changes nothing |
| Relocation.FixupIsNullIff | m68k-elf/tests/crt0.S:49-59 | Exactly which values the fix-up makes null |
| Relocation.FixupMapsRegions | m68k-elf/tests/crt0.S:49-59 | ROM goes to A6 and RAM to A5, offsets kept, and no linked address becomes null |
| Relocation.FixupIsInjective | m68k-elf/tests/crt0.S:49-59 | Different linked addresses stay different at every admissible pair of bases |
| Relocation.MovedImageIsAdmissible | m68k-elf/tests/build.sh:48-55 | The moved test image's bases are admissible for every layout the linker script allows |
| Relocation.FixedOnce | m68k-elf/tests/crt0.S:20-38 | Of slots that do not overlap, each is fixed up exactly once |
| Relocation.FixSlotsFrame | m68k-elf/tests/crt0.S:20-38 | No other byte of memory changes |
| Relocation.OrderDoesNotMatter | m68k-elf/tests/crt0.S:29-38 | Over one memory, two lists of the same slots in any order leave the same bytes |
| Relocation.LinkBasesChangeNothing | m68k-elf/tests/crt0.S:20-38 | At the link addresses the whole loader changes nothing |
| Loader.DoFixup | m68k-elf/tests/crt0.S:49-59 | The instructions compute the fix-up for every value and every pair of bases |
| Loader.GotLoop | m68k-elf/tests/crt0.S:19-27 | For every zero-terminated table: fixes up each entry up to the first that becomes null, and where A0 is left |
| Loader.RelaLoop | m68k-elf/tests/crt0.S:29-38 | For every zero-terminated list: fixes up each listed slot up to the first entry that becomes null |
| Loader.Start | m68k-elf/tests/crt0.S:6-38 | From the program counter on: all GOT entries and all listed slots are fixed up, in an array of 2^32 bytes; each GOT entry's four bytes are those of base plus offset |
| Loader.GotEntryInBytes | m68k-elf/tests/crt0.S:19-38 | The same for one entry, even if listed slots should overlap each other |
| Loader.ListSurvivesGot | m68k-elf/tests/crt0.S:27-32 | Fixing up the GOT does not disturb the list behind it |
| Loader.GotLoopCompleteIff | m68k-elf/tests/crt0.S:20-27 | The GOT loop fixes up the whole table and leaves A0 at the list exactly when no entry but possibly the last becomes null |
| Loader.NullFixupHidesEntries | m68k-elf/tests/crt0.S:24-25 | A linked table and a ROM base, at which ROM wraps, for which it does not |
| Loader.LinkedTableIsComplete | m68k-elf/tests/crt0.S:19-27 | At admissible bases a table of linked addresses is never cut short |
| Loader.RelaLoopCompleteIff | m68k-elf/tests/crt0.S:30-32 | The list loop reaches the terminator exactly when no entry becomes null |
| Loader.LoaderFixesEachOnce | m68k-elf/tests/crt0.S:19-38 | Over both loops every GOT entry and every listed slot is fixed up once, as words and as bytes, and every word clear of them is unchanged |
| Loader.ListOrderDoesNotMatter | m68k-elf/tests/crt0.S:19-38 | Two loadable memories that differ only in the order of their lists are the same after both loops, but for the lists themselves |
| LoadedImage.CopyIsLoadable | m68k-elf/tests/test.lds:9-36 | A program linked as the script lays it out, copied to any admissible bases, meets everything the loader needs |
| LoadedImage.PointersAreRelocated | m68k-elf/tests/crt0.S:19-38 | Every listed pointer then holds the load address of what it pointed to when linked |
| LoadedImage.RestIsUnchanged | m68k-elf/tests/crt0.S:19-38 | Every other byte of the program is as linked |
| LoadedImage.RunsInPlace | m68k-elf/tests/build.sh:57 | Run at its link addresses the program stays byte for byte as it is |
| LoadedImage.ChainsAreIndependentOfBases | m68k-elf/tests/test.c:129-136 | A pointer chain of any length, followed in the loaded program, ends at the relocation of where it ends in the link image, for every admissible pair of bases |
| LoadedImage.DerefIs | m68k-elf/tests/test.c:129-136 | Following a chain is loading a word, then following the rest |
| LoadedImage.TwoLoads | m68k-elf/tests/test.c:129-136 | The double indirection of test case 16, load by load |
| ByteMoves.MoveBytes | docs/system3-file-allocator-physical-closure.md:81-84 | Copying forward or backward by direction moves overlapping ranges as if through a second buffer |
| ByteMoves.CopyBytes | docs/as3000-file-storage-physical-layer.md:50-54 | Replaces exactly the destination range |
| Arena.Descriptor.Floor | docs/system3-file-allocator-physical-closure.md:110-113 | Whole units, at least one, never below the bytes to preserve, and never a unit too many |
| Arena.FloorIsLeast | docs/system3-file-allocator-physical-closure.md:110-113 | The floor is the least multiple of 512 that is at least 512, recoverable and min_size |
| Arena.PreservedByBytes | docs/system3-file-allocator-physical-closure.md:110-119 | A preserved file has its first `recoverable` and its first `min_size` bytes, byte by byte |
| Arena.TotalIsSpan | docs/system3-file-allocator-physical-closure.md:59-75 | Capacities of a tiled table add up to the distance from the arena's base to the last descriptor's end |
| Arena.TilesAreOrdered | docs/system3-file-allocator-physical-closure.md:59-75 | From the adjacency of neighbours: any earlier descriptor lies wholly below any later one |
| Arena.PassKeepsTiling | docs/system3-file-allocator-physical-closure.md:65-75 | Capacity across one boundary, in either direction, keeps the tiling and the total |
| Arena.PassKeepsPayload | docs/system3-file-allocator-physical-closure.md:115-119 | The overlapping move preserves every file's first max(recoverable, min_size) bytes |
| Arena.StepRight | docs/system3-file-allocator-physical-closure.md:123-127 | One more step of a chain to the right may be taken and gives the longer chain's effect |
| Arena.StepLeft | docs/system3-file-allocator-physical-closure.md:123-127 | The same to the left |
| Arena.TransferKeepsTotal | docs/system3-file-allocator-physical-closure.md:123-127 | A whole chain conserves total capacity |
| Arena.TransferMovesCapacity | docs/system3-file-allocator-physical-closure.md:65-75 | The donor is k smaller, the receiver k larger, every other file as large as before, each beginning where the one before ends |
| Arena.DonorKeepsFloor | docs/system3-file-allocator-physical-closure.md:108-127 | Whatever is asked for, the aligned slack that is given never takes a donor below its floor; asked for enough it keeps less than a unit above; below its floor it gives nothing |
| Arena.DeletedKeepsTiling | docs/system3-file-allocator-physical-closure.md:191-202 | Deletion keeps the tiling, and the total unless the last file goes |
| Arena.DeletionAbsorbs | docs/system3-file-allocator-physical-closure.md:191-198 | The predecessor, or the successor of the first, is larger by exactly what was deleted, and no other file changes size |
| Arena.DeletedLaterKeepsPayload | docs/system3-file-allocator-physical-closure.md:191-193 | Deleting a later file moves no surviving payload |
| Arena.DeletedFirstKeepsPayload | docs/system3-file-allocator-physical-closure.md:195-198 | Deleting the first file preserves every survivor's bytes though its successor's storage moves down |
| Arena.FileStore.GuardedMove | docs/system3-file-allocator-physical-closure.md:86-96 | Moves nothing if a range leaves SRAM, otherwise moves exactly that range |
| Arena.FileStore.PassCapacity | docs/system3-file-allocator-physical-closure.md:121-127 | The in-place step: two descriptors change, all payloads survive, the guard never trips, RAM outside the arena is untouched |
| Arena.FileStore.Transfer | docs/system3-file-allocator-physical-closure.md:121-130 | k bytes from any descriptor to any other, either way along the chain: sizes, tiling, total and donor's floor as stated, and every file keeps its recoverable and minimum bytes |
| Arena.FileStore.Reclaim | docs/system3-file-allocator-physical-closure.md:121-130 | Of any requested amount the donor's aligned slack, and no more than asked for, moves to the receiver; sizes, tiling, total, floor and every file's recoverable and minimum bytes kept |
| Arena.FileStore.DeleteLater | docs/system3-file-allocator-physical-closure.md:191-193 | The predecessor absorbs the capacity, RAM stays as it is |
| Arena.FileStore.DeleteFirst | docs/system3-file-allocator-physical-closure.md:195-198 | The successor moves down, inherits the storage and absorbs the capacity |
| Arena.FileStore.Delete | docs/system3-file-allocator-physical-closure.md:189-198 | Either way: sizes, tiling and total as stated, and every survivor keeps its recoverable and minimum bytes |
| Clipboard.InsertUndoesRemove | docs/clipboard-edit-closure.md:116-118 | Inserting what was removed where it was removed restores the text |
| Clipboard.EditedAt | docs/clipboard-edit-closure.md:114-118 | Deletion, insertion and overwriting, position by position |
| Clipboard.MovedMakesRoom | docs/as3000-file-storage-physical-layer.md:50-54 | Moving the suffix in place and filling the gap is insertion into the text |
| Clipboard.InsertBytes | docs/as3000-file-storage-physical-layer.md:50-54 | The two moves of an insertion insert into the text in place |
| Clipboard.OverwritesStorage | docs/as3000-file-storage-physical-layer.md:50-54 | Writing at the cursor without moving the suffix is overwriting the text, as far as its new end |
| Clipboard.File.DeleteChars | docs/filedeletechars-closure.md:14-43 | Removes as many bytes from the cursor on as there are; cursor, recoverable size and the bytes behind the new end stay |
| Clipboard.File.Append | docs/clipboard-edit-closure.md:116 | Appends at the end, cursor unchanged |
| Clipboard.File.Insert | docs/clipboard-edit-closure.md:117 | Inserts at the cursor in place, cursor behind the insertion |
| Clipboard.File.Overwrite | docs/clipboard-edit-closure.md:118 | Overwrites from the cursor, extending the file where needed |
| Clipboard.File.Write | docs/clipboard-edit-closure.md:114-119 | Dispatch on the mode; any other mode returns -5 and changes nothing |
| Clipboard.FileSystem.Copy | os3k/file_clipboard_edit.h:14-19 | Succeeds exactly on an active file, a count within 2^31 - 1 and the remaining bytes, and a nonzero tag; else -3, -128 or -129, in that order, with nothing changed; the clipboard then holds the range, clipped to its capacity, and the source is untouched |
| Clipboard.FileSystem.Cut | os3k/file_clipboard_edit.h:21-26 | The same conditions and statuses; then prefix + clipboard + suffix is the original text even when the capacity clips the request |
| Clipboard.FileSystem.Paste | os3k/file_clipboard_edit.h:28-35 | Each mode's effect on text and cursor |
| Clipboard.FileSystem.CutAndPaste | docs/clipboard-edit-closure.md:81-119 | Cut and then paste in insert mode restores the text, cursor behind the pasted bytes, even when the allocator takes capacity from the file for the clipboard |
| ArenaEdit.TextIsPreserved | docs/system3-file-allocator-physical-closure.md:115-119 | What the allocator preserves of a file includes its text, as far as the watermark reaches |
| ArenaEdit.FilesAreDisjoint | docs/system3-file-allocator-physical-closure.md:59-75 | Two files of a tiled table never share a byte |
| ArenaEdit.RecoverableKeepsTiling | docs/clipboard-edit-closure.md:56 | Noting the copied size in the clipboard's descriptor keeps the table in order |
| ArenaEdit.CutTexts | docs/clipboard-edit-closure.md:81-92 | In one RAM, the copy and the closing of the gap leave the clipboard with the range and the file without it |
| ArenaEdit.PasteTexts | docs/clipboard-edit-closure.md:114-119 | Opening a gap and filling it from the clipboard inserts the clipboard's text and leaves the clipboard |
| ArenaEdit.EditIsLocal | docs/system3-file-allocator-physical-closure.md:59-75 | An edit inside two files leaves the bytes of every other file and all RAM outside the arena alone |
| ArenaEdit.EditStore.constructor | docs/system3-file-allocator-physical-closure.md:59-75 | Active file and clipboard are two descriptors of one arena |
| ArenaEdit.EditStore.GiveRoom | docs/clipboard-edit-closure.md:44-50 | Capacity moves from the active file to the clipboard along the chain, and the file's text survives wherever its storage goes |
| ArenaEdit.EditStore.TakeText | docs/clipboard-edit-closure.md:81-92 | Copy and deletion in place: text split between file and clipboard, every other file and the tiling kept |
| ArenaEdit.EditStore.Cut | docs/clipboard-edit-closure.md:66-95 | `SYS_A204` in the arena: -128 and -129 under their conditions with nothing changed; otherwise only what the clipboard could hold after the transfer is removed, every other file's bytes and total capacity kept |
| ArenaEdit.EditStore.PasteInsert | docs/clipboard-edit-closure.md:106-119 | `SYS_A208` in insert mode in the arena: the clipboard's text is inserted at the cursor, every other file kept |
| ArenaEdit.EditStore.CutAndPaste | docs/clipboard-edit-closure.md:81-119 | Cut and paste back in one arena restores the text for every request and every amount of capacity moved; every other file, the total and all RAM outside the arena are kept |
| FolderProbe.System.FileSetFolder | docs/filesetfolder-closure.md:27-55 | -64 for an index from 32 on or an empty slot, -7 without flag 0x40 and files, each with zero flags and nothing changed; otherwise selects and returns the former folder |
| FolderProbe.System.AppletFindById | applets/FileSetFolderProbe/FileSetFolderProbe.c:155-157 | The first slot with the id, or 0 |
| FolderProbe.Probe.RunAlphaWordCase | applets/FileSetFolderProbe/FileSetFolderProbe.c:75-89 | Fails one check, and stays in AlphaWord's folder, exactly when the initial folder cannot be selected again |
| FolderProbe.Probe.RunAlphaQuizCase | applets/FileSetFolderProbe/FileSetFolderProbe.c:91-105 | Three checks, none failing, folder restored |
| FolderProbe.Probe.RunRefusedCase | applets/FileSetFolderProbe/FileSetFolderProbe.c:107-150 | Four checks, none failing, when the selection is refused with the expected status; a refused selection leaves the folder |
| FolderProbe.Probe.RunProbe | applets/FileSetFolderProbe/FileSetFolderProbe.c:152-175 | On the documented applet table always 14 checks: 0 failures and folder restored if the initial folder can be selected again, otherwise exactly 1 failure and AlphaWord's folder |

## Left out

- The AS3000 branches (`g_pCurFont == NULL`, `g_isAS3000`), `PutChar`, `_OS3K_*` and streams other than stdout: firmware without a visible body.
- What the glass shows while all pixels are on, the bell's delay, and the blinking cursor overlay. `Refinement.GlassIsPlainScreen` is about panel memory.
- The bounds of `uint8_t` rows and columns beyond what a caller can reach: `Os3k.Console.SetCursor` takes rows 0 to 255 and columns 1 to one past the last.
- Os3k.Console.Fputs: starts from a working terminal; from registers that a change of focus or a cold start left behind, the bytes are described one at a time (`Os3k.Console.Fputc`).
- A font change while focused, and finding the font applet on focus: the geometry is fixed between two focus messages.
- Bus errors: every address answers, so the crossed-out bytes and the suppressed store are not modelled. This concerns:
- DebugTool.Applet.DumpRedrawByteHex: no text for a byte that cannot be read.
- DebugTool.Applet.DumpRedrawByteAscii: no character for a byte that cannot be read.
- DebugTool.Applet.DumpWriteAndRedrawCur: no suppressed store.
- DebugTool.Applet.ReadRow: no error flags.
- DebugTool.Applet.DrawHexPane: no cells of bytes that cannot be read.
- DebugTool.Applet.DrawAsciiPane: no cells of bytes that cannot be read.
- DebugTool.Applet.DumpRedrawRow: no cells of bytes that cannot be read.
- DebugTool.Applet.DumpRedrawScreen: no cells of bytes that cannot be read.
- Ctrl+I, Ctrl+G and the battery key: dialogs of the firmware and calls of arbitrary addresses (`Editor.Modelled`). This concerns:
- Editor.KeysNavigate: a dialog key counts as no key.
- Editor.SessionStaysInWindow: a dialog key counts as no key.
- DebugTool.Applet.OnKeyMessage: without the dialog keys.
- DebugTool.Applet.ProcessMessage: MSG_CHAR and MSG_KEY without the dialog keys; MSG_INIT and MSG_SETFOCUS are the constructor and `SetFocus`.
- `getchar`, `TranslateKeyToChar` and `CallSysInt`: polling and firmware translation.
- Aliasing between dumped memory and the tool's own variables, except Clear File's write to the scratch buffer.
- Writing `g_rawSysCall` into dumped memory; it is a field of the reader.
- The call of `main` and the exit trap in crt0.S, and instruction timing.
- The linker's and build script's own work: `LoadedImage.WellLinked` says what they provide, including that listed slots do not overlap each other or the tables.
- How much capacity the allocator asks for, its two redistribution policies, creation (A1E8) with its retry, and the validator: the documents give no exact amounts.
- File groups, tokens and names: the table of the arena is its ordered descriptors.
- Arena.FileStore.Delete: ends before the final redistribution, whose amounts the documents do not give.
- Arena.FileStore.DeleteLater: does not say that the table's records are moved byte by byte, because a table here is a sequence.
- Clipboard.FileSystem.Copy: takes the capacities that the allocator leaves as parameters and files as arrays of their own; `ArenaEdit` has both in one arena, for cut and insert.
- Clipboard.FileSystem.CutAndPaste: takes for granted that the allocator leaves the file at least its current size; `ArenaEdit.EditStore.CutAndPaste` does not.
- Clipboard.File.Write: without the success value, which the documents do not give.
- Clipboard.FileSystem.Paste: only with an active file that has room, and without the success value, because the documents do not give the other cases; the recoverable size after a write is not stated.
- The filtered paste (`read_variant == 3`), and the clipboard itself as the active file.
- Live mirrors after a write: the documents do not fix what they show.
- The probe's recorded result fields and its drawing.
- Password and printer dialogs, EhBASIC, fonts, version generator and makefiles.
