# kilo++ editor core in Dafny

This project models the core of kilo++, a C++ port of the `kilo` terminal
text editor. The model covers:

- the row buffer: rows with their tab-expanded rendering, the conversions
  between buffer and render columns, row insertion and deletion, and the
  character-level edits;
- the cursor-level edits `insertChar`, `insertNewline` and `deleteChar`,
  and the document text that `save` writes;
- cursor movement, scrolling and the text area that `drawRows` builds;
- incremental search (`findCallback`, `find`) driven by the prompt loop
  `fromPrompt`;
- the key dispatch `processKeypress`, including the Ctrl-Q confirmation
  counter;
- the escape-sequence key decoder `readKey`;
- the first-stage editor in `src/main.cpp`: `editorReadKey`,
  `editorMoveCursor`, `editorProcessKeypress` and `editorDrawRows`.

The editor state is an immutable `Buffer.Editor` record, and every
operation is a pure function that returns the new state.

Some C++ cases have no defined result. Two are modelled as an `Err` value
of `Faults.Result` rather than as preconditions:

- reading `m_rows[i]` past the end of the vector;
- `std::string::substr` with a start past the end, which throws.

The function-local statics become explicit state:

- `quit_times` of `processKeypress` lives in `Keypress.Session`;
- `last_match` and `direction` of `findCallback` live in
  `Search.FindState`.

Terminal input is a parameter. The first byte read is `first`, and
`pending` holds the bytes that are already available after it.

Modules, in dependency order:

| module | file | models |
|---|---|---|
| Keys | keys.dfy | key codes, `CTRL_KEY`, bytes |
| Faults | faults.dfy | out-of-range reads and `substr` throws |
| TabRender | tab_render.dfy | `updateRow`, `convertRowCxToRx`, `convertRowRxToCx` |
| Document | document.dfy | `convertRowsToString`, the line splitting of `open` |
| Buffer | buffer.dfy | row and editor operations, document text under edits |
| KeyDecoder | key_decoder.dfy | `readKey` |
| Screen | screen.dfy | the welcome line, the erase-line sequence |
| View | view.dfy | `scroll`, `drawRows` |
| Keypress | keypress.dfy | `moveCursor`, `processKeypress` |
| Prompt | prompt.dfy | one key of `fromPrompt` |
| Search | search.dfy | `findCallback`, `find` |
| Prototype | prototype.dfy | the editor of `src/main.cpp` |

## Model

| member | source | states |
|---|---|---|
| Keys.CtrlKeyCodes | src/Editor.cpp:24 | Ctrl-F, Ctrl-H, Ctrl-L, Ctrl-Q and Ctrl-S arrive as the bytes 6, 8, 12, 17 and 19. |
| TabRender.PadToTabStop | src/Editor.cpp:77-79 | The padding after a tab ends on a multiple of the tab stop, adds fewer than TAB_STOP spaces, and keeps the text already rendered. |
| TabRender.RenderChars | src/Editor.cpp:72-87 | A rendering never contains a tab and is never shorter than the raw text. |
| TabRender.UpdateRow | src/Editor.cpp:67-88 | The raw text is kept. An empty row keeps its previous rendering, because of the early return. Otherwise the new rendering has no tab, and its width is the render column of the row's end. |
| TabRender.NewRow | src/Editor.cpp:95-97 | The row insertRow creates holds its text and is rendered, even when the text is empty. |
| TabRender.CxToRx | src/Editor.cpp:38-48 | The render column of buffer column cx is the width of the rendering of the first cx characters. It is never less than cx, and it equals cx when there is no tab before it. |
| TabRender.CxToRxWithoutTabs | src/Editor.cpp:38-48 | In a row without tabs, the end of the row is at render column \|row\|. |
| TabRender.NewRowWithoutTabs | src/Editor.cpp:67-88 | A new row without tabs renders as its own text. |
| TabRender.RenderPrefix | src/Editor.cpp:67-88 | The rendering of a prefix of a row is a prefix of the row's rendering. |
| TabRender.RenderWithoutTabs | src/Editor.cpp:67-88 | A row without tabs is rendered unchanged. |
| TabRender.RenderWidth | src/Editor.cpp:38-48 | The rendered width of a row equals the render column of its end, so updateRow and convertRowCxToRx agree on it. |
| TabRender.RenderLayout | src/Editor.cpp:67-88 | Character i occupies render columns [CxToRx(i), CxToRx(i+1)). A non-tab character is copied into a single cell. A tab becomes one to TAB_STOP spaces ending on a tab stop. |
| TabRender.CxToRxStrictlyIncreasing | src/Editor.cpp:38-48 | Render columns grow strictly with buffer columns. |
| TabRender.RxToCxLoop | src/Editor.cpp:52-64 | As written, the loop's result is the row length, whatever render column was asked for. |
| TabRender.RowRxToCx | src/Editor.cpp:50-65 | As written, convertRowRxToCx always sets m_cx to the row length. |
| TabRender.RxToCxFirst | src/Editor.cpp:52-62 | The intended loop stops at the first column whose render end passes rx. No column in between passes it. |
| TabRender.RowRxToCxIntended | src/Editor.cpp:50-65 | The intended result is the buffer column whose character covers render column rx, or the row length when no character does. |
| TabRender.RxToCxIntendedRoundTrip | src/Editor.cpp:50-65 | For every column cx, the intended conversion of CxToRx(cx) gives back cx. |
| TabRender.RxToCxAsWrittenMissesColumn | src/Editor.cpp:50-65 | On "abc", render column 0 converts to 3 as written and to 0 as intended. |
| TabRender.RxToCxInsideTab | src/Editor.cpp:50-65 | In "a\tb", a render column inside the tab's expansion maps to the tab, and column 8 maps to the 'b'. |
| Document.RowsToStringAppend | src/Editor.cpp:199-206 | The saved text of two runs of rows is the first run's text followed by the second's. |
| Document.RowsToStringCons | src/Editor.cpp:199-206 | The saved text starts with the first row and a newline. |
| Document.RowsToStringSplit | src/Editor.cpp:199-206 | Row y sits in the saved text between the text of the rows before it and the text of the rows after it, followed by its newline. |
| Document.RowsToStringSize | src/Editor.cpp:199-206 | The saved text holds \|raw\| + 1 characters per row. |
| Document.NewlineIndex | src/Editor.cpp:217 | The result is the first newline in the text, or the text length when there is none. |
| Document.Lines | src/Editor.cpp:216-217 | No line that getline yields contains a newline. |
| Document.StripLineEnd | src/Editor.cpp:219-220 | The stripped line is a prefix of the line. It does not end in '\n' or '\r', and only '\n' and '\r' were removed. |
| Document.LoadText | src/Editor.cpp:216-223 | open appends one rendered row per line of the text. |
| Document.LinesCons | src/Editor.cpp:216-217 | A line without a newline, followed by a newline, is split off whole. |
| Document.LinesOfRowsToString | src/Editor.cpp:199-206 | Splitting the saved text into lines gives back the rows exactly when no row contains a newline. Both directions are proved. |
| Document.StripLineEndKeeps | src/Editor.cpp:219-220 | A line without a newline and without a trailing '\r' is left unchanged. |
| Document.SaveLoadRoundTrip | src/Editor.cpp:199-227 | Saving and then loading reproduces every row's text, provided no row contains a newline or ends with '\r'. |
| Buffer.Bump | src/Editor.hpp:93 | The 8-bit dirty counter counts up and wraps from 255 to 0. |
| Buffer.InsertRow | src/Editor.cpp:90-101 | Succeeds exactly when 0 <= at <= N, and changes nothing otherwise. On success the new rendered row holding s is at index `at`, the other rows keep their order, dirty is bumped and the view is unchanged. |
| Buffer.DeleteRow | src/Editor.cpp:103-110 | Outside 0 <= at < N nothing changes. Otherwise exactly row `at` is gone, the other rows keep their order and dirty is bumped. |
| Buffer.InsertCharIntoRow | src/Editor.cpp:112-120 | Only row y changes. It gains c at the clamped column, with its text before and after that column kept, and it is re-rendered. |
| Buffer.AppendStringToRow | src/Editor.cpp:122-127 | Only row y changes. It becomes its text followed by s, and it is re-rendered unless the result is empty. |
| Buffer.DeleteCharFromRow | src/Editor.cpp:129-137 | For an index outside the row nothing changes. Otherwise exactly that character is removed from row y. A row emptied this way keeps its old rendering. |
| Buffer.InsertChar | src/Editor.cpp:141-148 | Fails exactly when the cursor is below the line past the end. On success the cursor moves one column right on a real row, and a row is added when typing on the line past the end. |
| Buffer.InsertNewline | src/Editor.cpp:150-172 | Succeeds exactly at column 0, or inside a real row. On success the cursor is at the start of the next line and one row is added, except below the line past the end. |
| Buffer.DeleteChar | src/Editor.cpp:174-195 | Nothing changes on the line past the end or at the very start. Inside a row the cursor moves one column left. At column 0 the row is appended to the previous row, which it leaves. |
| Buffer.InsertCharRow | src/Editor.cpp:141-148 | After typing, the cursor row holds c at the clamped cursor column. |
| Buffer.DeleteCharRow | src/Editor.cpp:183-187 | After a backspace inside a row, the character left of the cursor is gone from the row. |
| Buffer.PositionInText | src/Editor.cpp:199-206 | A cursor on a real row points into the saved text, at most at that row's newline. |
| Buffer.InsertCharShape | src/Editor.cpp:141-148 | Typing inside the document changes only the cursor row, which gains c at the cursor column. |
| Buffer.InsertIntoRowText | src/Editor.cpp:199-206 | When text is inserted into one row at column q, the saved text gains it at that row's offset plus q. |
| Buffer.InsertCharText | src/Editor.cpp:141-148 | Typing inserts the character at the cursor's offset in the saved text, and the cursor's offset moves past it. |
| Buffer.InsertCharPastEnd | src/Editor.cpp:143-146 | Typing on the line past the end appends the character and a newline to the saved text. |
| Buffer.InsertNewlineAtLineStartShape | src/Editor.cpp:152-153 | Enter at column 0 puts an empty row in front of the cursor row. |
| Buffer.InsertNewlineAtLineStartText | src/Editor.cpp:152-153 | Enter at column 0 inserts a newline at the cursor's offset in the saved text, and the cursor moves past it. |
| Buffer.InsertNewlineSplitRows | src/Editor.cpp:160-167 | Enter inside a row replaces it by its head and its tail, and the other rows keep their places. |
| Buffer.SplitRowText | src/Editor.cpp:199-206 | When a row is split at column q, the saved text gains a newline at that row's offset plus q. |
| Buffer.InsertNewlineSplitText | src/Editor.cpp:160-171 | Enter inside a row inserts a newline at the cursor's offset in the saved text, and the cursor moves past it. |
| Buffer.InsertNewlineText | src/Editor.cpp:150-172 | Anywhere on the text, Enter inserts a newline at the cursor's offset and moves the cursor past it. |
| Buffer.DeleteCharShape | src/Editor.cpp:183-187 | A backspace inside a row changes only that row, which loses the character left of the cursor. |
| Buffer.DeleteFromRowText | src/Editor.cpp:199-206 | When one row loses the character before column q, the saved text loses the character before that row's offset plus q. |
| Buffer.DeleteCharInRowText | src/Editor.cpp:183-187 | A backspace inside a row removes the character before the cursor's offset in the saved text, and the offset moves back by one. |
| Buffer.DeleteCharJoinShape | src/Editor.cpp:188-194 | A backspace at column 0 appends the row to the previous one and removes it. The cursor goes to the old end of the previous row. |
| Buffer.JoinRowsText | src/Editor.cpp:199-206 | When a row is joined to the previous one, the saved text loses the newline that ended the previous row. |
| Buffer.DeleteCharJoinText | src/Editor.cpp:188-194 | A backspace at column 0 removes the newline before the cursor's offset. |
| Buffer.DeleteCharText | src/Editor.cpp:174-195 | Anywhere except the very start, a backspace removes exactly the character before the cursor's offset in the saved text, and the offset moves back by one. |
| Buffer.StaleRenderAfterEmptyingRow | src/Editor.cpp:67-70 | Deleting the only character of "a" leaves the raw text "" but the rendering "a". |
| KeyDecoder.ReadKey | src/EditorUtils.cpp:98-181 | Any byte other than ESC is the key itself. An escape sequence yields ESC or one of the symbolic keys. One to four bytes are consumed, never more than are available. |
| KeyDecoder.ReadKeyComplete | src/EditorUtils.cpp:98-181 | Each of the 15 recognised sequences decodes to its key, whatever follows, and is consumed whole. |
| KeyDecoder.ReadKeySound | src/EditorUtils.cpp:98-181 | A decoded key other than ESC comes from a recognised sequence, and exactly that sequence's bytes are consumed. |
| KeyDecoder.ReadKeyUnrecognised | src/EditorUtils.cpp:98-181 | Input that starts with no recognised sequence decodes to ESC, and consumes the ESC plus the two or three bytes readKey tries to read (fewer when not available). |
| KeyDecoder.DecodedKeyStartsSequence | src/EditorUtils.cpp:98-181 | A symbolic key is decoded only when a recognised sequence starts the input. |
| KeyDecoder.BackspaceByte | include/kilo++/EditorUtils.hpp:5 | Byte 127 is the BACKSPACE key. |
| Screen.WelcomeLine | src/Editor.cpp:359-373 | The message is cut to the width and ends the line, with half the free cells as left padding. A non-empty padding starts with '~' followed by spaces. |
| View.Scroll | src/Editor.cpp:331-348 | rx is the cursor's render column. The offsets move only when the cursor is outside the text area. A cursor above or left of the area becomes its first row or column; one below or right of it becomes its last. Afterwards the cursor is inside the area. |
| View.ScrollIgnoresRx | src/Editor.cpp:331-333 | scroll recomputes rx from cx, so the rx it starts from never matters. |
| View.ScrollIdempotent | src/Editor.cpp:331-348 | Scrolling twice is the same as scrolling once. |
| View.Window | src/Editor.cpp:382-386 | The visible part of a rendered row is the piece starting at coloff. It never exceeds screencols, and it stops short of them only at the end of the row. |
| View.ScreenLine | src/Editor.cpp:354-386 | A screen line fails, with the substr fault, exactly when its file row is rendered shorter than coloff. Otherwise it is the visible line. |
| View.VisibleLineShape | src/Editor.cpp:354-386 | A screen line shows at most screencols characters of the file row's rendering from coloff on, as many as fit. It is empty when the row is shorter than coloff, and past the last row it is the filler. |
| View.VisibleLines | src/Editor.cpp:352-390 | There is one line per screen row from y to screenrows - 1, in order. |
| View.DrawFrom | src/Editor.cpp:352-390 | The loop fails exactly when some remaining line does not fit. Otherwise it appends each line with an erase to end of line and CR LF. |
| View.DrawRows | src/Editor.cpp:350-391 | drawRows fails exactly when some visible file row is rendered shorter than coloff. Otherwise it appends every screen line in order. |
| View.DrawRowsIntended | src/Editor.cpp:380-387 | It never fails, and it agrees with drawRows whenever drawRows succeeds. |
| View.ShortRowScroll | src/Editor.cpp:331-348 | A cursor at render column 3 of a 2-column screen scrolls coloff to 2, while row 0 renders empty. |
| View.DrawRowsThrowsOnShortRow | src/Editor.cpp:382-386 | After that scroll, drawRows as written throws on row 0, while the intended clamp draws the screen. |
| Keypress.MoveCursor | src/Editor.cpp:529-567 | Only the cursor changes. A successful move ends on a real row, within it. In an empty buffer every move fails. |
| Keypress.MoveCursorIntended | src/Editor.cpp:529-567 | With the line past the last row read as empty, every move succeeds, changes only the cursor and keeps it valid. It agrees with moveCursor wherever moveCursor succeeds, and Down from a row reaches the next line. |
| Keypress.DownPastLastRow | src/Editor.cpp:537-540 | Down on the only row "a" makes the clamp read the missing row 1, where the intended move lands on the empty line after it. |
| Keypress.ArrowRightAdvances | src/Editor.cpp:552-566 | The right arrow moves one character forward in the saved text, over a row's newline too. It fails exactly when there is no next character. |
| Keypress.ArrowLeftRetreats | src/Editor.cpp:541-551 | In a non-empty buffer the left arrow moves one character back in the saved text, and stays at its start. |
| Keypress.ArrowsVertical | src/Editor.cpp:533-540 | Up and down move one row and keep the column where the new row allows it. Down fails exactly when it would reach the line past the last row. |
| Keypress.MoveRepeat | src/Editor.cpp:626-633 | Repeated arrow moves change only the cursor, and end on a real row. |
| Keypress.RepeatUp | src/Editor.cpp:626-633 | n up arrows end n rows higher, or on the first row. |
| Keypress.RepeatDown | src/Editor.cpp:626-633 | n down arrows succeed exactly when they stay above the last row boundary, and then end n rows lower. |
| Keypress.KeyEffect | src/Editor.cpp:574-648 | Keys handled in place keep the screen size. Only editing, paging and arrow keys can fail. |
| Keypress.ProcessKeypress | src/Editor.cpp:569-651 | Ctrl-Q quits exactly when the buffer is clean or no warnings remain, and otherwise uses up one warning. Ctrl-S and Ctrl-F become the Save and Find commands. Every other key applies its effect, and every key except a warned Ctrl-Q resets the counter to 3. |
| Keypress.PressQuit | src/Editor.cpp:579-591 | Repeated Ctrl-Q never changes the editor, and ends in Continue or Quit. |
| Keypress.QuitPressCount | src/Editor.cpp:579-591 | With unsaved changes, press k quits exactly when k > quitTimes. Before that, each press uses up one warning. |
| Keypress.DirtyQuitNeedsFourPresses | src/Editor.cpp:569-651 | After any other key, a modified buffer quits on the fourth consecutive Ctrl-Q and not the third. An unmodified buffer quits on the first. |
| Keypress.HomeEnd | src/Editor.cpp:595-601 | Home goes to column 0. End goes to the end of the row. Neither changes anything else. |
| Keypress.PageUp | src/Editor.cpp:612-635 | Page Up puts the cursor screenrows lines above the top of the window, or on the first row, without editing. |
| Keypress.PageDown | src/Editor.cpp:612-635 | Page Down succeeds exactly when the bottom of the window plus screenrows stays above the last row boundary, and then lands there. |
| Keypress.DelKeyDeletesUnderCursor | src/Editor.cpp:605-611 | Delete removes the character at the cursor's offset in the saved text, and the offset stays the same. |
| Keypress.BackspaceDeletesBeforeCursor | src/Editor.cpp:605-611 | Backspace removes the character before the cursor's offset, and the offset moves back by one. |
| Keypress.InsertNewlineKeepsCursorValid | src/Editor.cpp:150-172 | Enter keeps the cursor on the text. |
| Keypress.InsertCharKeepsCursorValid | src/Editor.cpp:141-148 | Typing on the text succeeds and keeps the cursor on the text. |
| Keypress.DeleteCharKeepsCursorValid | src/Editor.cpp:174-195 | deleteChar on the text succeeds and keeps the cursor on the text. |
| Keypress.DeleteKeyKeepsCursorValid | src/Editor.cpp:605-611 | Backspace, Ctrl-H and Delete keep the cursor on the text. |
| Keypress.TypedKeyKeepsCursorValid | src/Editor.cpp:645-647 | A key typed into the text succeeds and keeps the cursor on the text. |
| Keypress.KeyEffectKeepsCursorValid | src/Editor.cpp:574-648 | Every key handled in place keeps the cursor on a row within it, or at column 0 of the line past the end. |
| Keypress.CtrlJIsTyped | src/Editor.cpp:645-647 | Byte 10 (Ctrl-J) falls to the default case and is typed as '\n'. |
| Keypress.CtrlJInsertsNewline | src/Editor.cpp:645-647 | Ctrl-J puts a newline character inside a row. After that, splitting the saved text into lines no longer gives back the rows. |
| Prompt.PromptKey | src/Editor.cpp:495-522 | The prompt closes exactly on ESC, with "", or on Enter with a non-empty line, returning that line. A backspace key removes the last character. Printable ASCII is appended. Every other key changes nothing, so the text stays printable. |
| Prompt.CallbackText | src/Editor.cpp:495-525 | The callback sees the line after the key, or the unchanged line on the key that closes the prompt. Either way it is printable when the line was. |
| Prompt.RunPromptPrintable | src/Editor.cpp:486-527 | Whatever keys arrive, the typed text stays printable ASCII. The prompt returns "" only when ESC was among the keys. |
| Search.IndexFrom | src/Editor.cpp:298 | The result is the first occurrence of the query at or after `from`, or none when it occurs nowhere after `from`. |
| Search.Visit | src/Editor.cpp:287-295 | After t > 0 steps from the start, the visited index is a row index. |
| Search.VisitStep | src/Editor.cpp:291-295 | Each step of `current` is one move in the direction, wrapping at both ends. |
| Search.VisitCovers | src/Editor.cpp:289-295 | Within N steps every row is visited. |
| Search.ScanAsWritten | src/Editor.cpp:287-307 | As written, the loop finds something exactly when some row contains the query. It reports the first such row in plain order, at the visit-order index one step past it. |
| Search.ScanIntended | src/Editor.cpp:287-307 | The intended loop reports the first row in visit order that contains the query, with the offset of the match. When it reports nothing, no visited row contains the query. |
| Search.ScanIntendedComplete | src/Editor.cpp:287-307 | A full intended scan finds nothing exactly when no row contains the query. |
| Search.Restart | src/Editor.cpp:262-285 | Arrows keep the last match. Right and Down search forwards, Left and Up backwards. Any other key starts afresh from the top. With no last match the direction is forwards. |
| Search.FindCallback | src/Editor.cpp:257-308 | Enter and ESC reset the search state. With no row containing the query, nothing moves. Otherwise the cursor goes to column 0 of a row, rx is a match offset in the first containing row, and for a non-arrow key that first row is exactly where the cursor goes. For any key the cursor row is the visit-order index one step past that first row, counted from the restarted state, rx is the first match offset in that first row, and the new state records the cursor row as the last match. |
| Search.FindCallbackIntended | src/Editor.cpp:257-308 | The match is in the row the cursor goes to, at render column rx, and cx is its buffer column. When nothing is found, no row contains the query. |
| Search.FindCallbackReportsWrongRow | src/Editor.cpp:289-301 | Searching on from a match in row 0 of ["foo", "bar"], the code as written moves to row 1, which has no "foo". The intended search wraps back to row 0. |
| Search.RunCallback | src/Editor.cpp:317-318 | The callback keeps the search state valid, changes only the cursor, and resets on Enter and ESC. |
| Search.RunFind | src/Editor.cpp:486-527 | The prompt with findCallback, scrolling before each key, changes only the cursor and the scroll offsets. It keeps the cursor within its row and ends with the search state reset. |
| Search.RunFindFollowsPrompt | src/Editor.cpp:486-527 | The search session types and returns exactly what the prompt alone would. |
| Search.FindSession | src/Editor.cpp:310-327 | find keeps the text. When the query comes back empty, cx, cy, coloff and rowoff are restored. |
| Search.FindSessionOutcome | src/Editor.cpp:310-327 | A finished search returns printable text, and "" only after ESC. A cancelled search leaves everything but rx as it was, and the next refresh shows the screen from before the search. |
| Search.AbTypeB | src/Editor.cpp:297-305 | Typing "b" over the row "ab" moves the cursor to row 0 with rx 1: at column 0 as written, at column 1 as intended. |
| Search.EnterEndsSearch | src/Editor.cpp:510-518 | Enter on a non-empty line ends the search with that line and a fresh search state, after one last refresh. |
| Search.AsWrittenRefreshShowsLineStart | src/Editor.cpp:301-304 | After a match, the next scroll puts rx back to 0, the start of the row, and with at least one screen column the screen draws without fault. |
| Search.IntendedCursorCoversMatch | src/Editor.cpp:301-304 | With the intended callback, the next scroll shows the cursor on the character whose cells cover the match. |
| Search.SearchLeavesCursorAtLineStart | src/Editor.cpp:301-304 | Searching "ab" for "b" and pressing Enter ends as written with the cursor shown at column 0, though the match is at column 1; as intended it ends on column 1. |
| Prototype.EditorReadKey | src/main.cpp:90-179 | The prototype's reader, with its reads in order, decodes every input exactly as readKey does. |
| Prototype.ProtoMoveCursor | src/main.cpp:303-332 | Only the cursor changes, by at most one cell in the arrow's direction, and it stays on the grid. It stays put exactly on the edge it moves toward. |
| Prototype.ProtoRepeat | src/main.cpp:354-358 | Repeated moves change only the cursor, and keep it on the grid. |
| Prototype.ProtoRepeatVertical | src/main.cpp:354-358 | n up or down moves end n lines away or on the edge, in the same column. |
| Prototype.ProtoProcessKeypress | src/main.cpp:334-368 | Only Ctrl-Q quits. Other keys change only the cursor, and keep it on the grid. |
| Prototype.ProtoHomeEndPage | src/main.cpp:345-360 | Home and End go to the first and last column. Page Up and Page Down go to the top and bottom line. Each keeps the other coordinate. |
| Prototype.ProtoLines | src/main.cpp:247-274 | There is one line per screen row: the welcome text on line screenrows/3 and '~' on the others, each with an erase to end of line. |
| Prototype.ProtoDrawFrom | src/main.cpp:247-281 | The loop appends the remaining lines separated by CR LF. |
| Prototype.ProtoDrawRows | src/main.cpp:244-282 | editorDrawRows writes the screen lines joined by CR LF, with none after the last. |

## Left out

- Terminal setup is left out: raw mode, window size queries and `die`.
- `readKey`'s blocking retry on the first byte is not modelled. The decoder starts from the byte it eventually gets.
- Bytes are read as unsigned 0..255, in `readKey` and in `editorReadKey`. A signed `char` would turn bytes above 127 negative.
- File I/O in `open` and `save` is left out: opening, writing and closing files, and `m_filename`. The model keeps the text side: `convertRowsToString`, the lines `getline` yields, and the end-of-line stripping.
- The `save` step (src/Editor.cpp:229-253) and its "Save as" prompt are left out. It is I/O. `ProcessKeypress` returns the `Save` command in its place, so the dirty counter is not reset.
- The scroll inside `refreshScreen` is modelled, including the one `fromPrompt` runs before every key. The rest of `refreshScreen` is left out: `drawStatusBar`, `drawMessageBar`, `setStatusMessage`, the status time and the terminal writes, so the prompt's status text is not modelled either.
- Search.RunFind: the drawing in the prompt's refresh is not modelled. A `substr` throw there (see Findings) would end the session, and the model carries on instead.
- The `hl` highlight vector of a row is left out, because nothing writes it.
- The `reserve` call in `insertNewline` only keeps a reference valid, and has no counterpart in a value model.
- The header declares `insertRow` as returning nothing, but the code returns `bool`. The model follows the code.
- The int fields are unbounded naturals: cursor, offsets and window sizes. 32-bit overflow and negative window sizes are not modelled.
- Keypress.ProcessKeypress: requires `screenrows >= 1`, because Page Down's `m_rowoff + m_screenrows - 1` would be negative otherwise.
- Keypress.KeyEffect: requires `screenrows >= 1`, for the same reason.
- `iscntrl` is defined for 0..255 but has undefined behaviour for the special key codes from 1000 up, which the prompt passes to it. The model treats those keys as non-printable, which matches the `c < 128` test after it.
- The `exit(0)` on Ctrl-Q in both editors is returned as the `Quit` command or flag. The screen-clearing writes before it are left out.
- The prompt's callback is a `std::function`. The model has only the one used by `find`, and `Search.Callback` chooses between the as-written and the intended `findCallback`.
- The editor's `m_rows[i]` out-of-range reads are undefined behaviour in C++. The model stops them as a fault and does not model what the program might do next.
- Keypress.MoveCursor: a right arrow or clamp on the line past the last row reads `m_rows[N]`. The model reports it as a fault instead of guessing a row length.
- Prototype.ProtoProcessKeypress: Page Up and Page Down with a negative `screenrows` would loop about 2^32 times. The model treats them as zero moves.

## Findings

| source | as written | input that shows it | evidently intended | confidence | as-written member | corrected member |
|---|---|---|---|---|---|---|
| src/Editor.cpp:50-65 | convertRowRxToCx notes a candidate column but never leaves the loop, and line 64 overwrites m_cx with the loop counter, so the result is always the row length | row "abc", rx 0: the result is 3 | the buffer column whose character covers rx, so the conversion inverts convertRowCxToRx | high; not executed | TabRender.RowRxToCx, TabRender.RxToCxAsWrittenMissesColumn | TabRender.RowRxToCxIntended, TabRender.RxToCxIntendedRoundTrip |
| src/Editor.cpp:289-301 | findCallback searches the rows in plain order (`row`) but reports the wrapped index `current`, which is one step further | rows ["foo", "bar"], last match 0, Down arrow, query "foo": the cursor goes to row 1 | search the row at `current`, so the reported row holds the match | high; not executed | Search.FindCallback, Search.FindCallbackReportsWrongRow | Search.FindCallbackIntended |
| src/Editor.cpp:301-304 | findCallback sets m_rx to the match offset and m_cx to 0, but the next refreshScreen's scroll recomputes m_rx from m_cx, so the cursor is shown at the start of the match row | row "ab", type "b", then Enter: the cursor is shown at column 0, while the match is at column 1 | set m_cx to the buffer column of the match with the column conversion | medium; not executed | Search.FindCallback, Search.SearchLeavesCursorAtLineStart | Search.FindCallbackIntended, Search.IntendedCursorCoversMatch |
| src/Editor.cpp:537-566 | Down on the last row, or Right at its end, moves the cursor to line N, and the clamp then reads `m_rows[N]`, one past the end (undefined behaviour); Page Down in a file shorter than the window does the same | one row "a", cursor at column 0, Down | treat the line past the last row as empty, as the clamp's own length test suggests | medium; not executed | Keypress.MoveCursor, Keypress.DownPastLastRow, Keypress.ArrowsVertical, Keypress.PageDown | Keypress.MoveCursorIntended |
| src/Editor.cpp:382-386 | drawRows clamps a negative length to 0, but `substr(m_coloff, ...)` throws first when the row's rendering is shorter than coloff | rows ["", "abc"], cursor at column 3 of row 1, 2 screen columns: row 0 throws | draw a row shorter than coloff as an empty line | medium; not executed | View.DrawRows, View.DrawRowsThrowsOnShortRow | View.DrawRowsIntended |

convertRowRxToCx has no caller in the source, so only the two conversions
and their lemmas depend on it, and the intended findCallback, which uses the
corrected conversion to place the cursor on the match. The search session (`Search.FindSession`)
takes a `Search.Callback` that selects the as-written or the intended
findCallback, and its properties hold for both. `View.DrawRowsIntended`
is the screen drawn with the corrected clamp.
