# cnano core in Dafny

A model of the core of cnano, a small terminal text editor written in C.
The model covers four parts:

- **Editing** (src/editor.c). The global `editor` record becomes the class `Editor.EditorState`. Its fields are the line buffer with its undo/redo journal (`r`) and the cursor (`curs`). Its methods are insert char, insert newline, backspace, delete-to-start-of-line, undo, redo and plain insert.
- **Line buffer** (`TextBuffer`). The `render_state_*` library those calls go to is described abstractly:
  - a document is a non-empty list of lines without newlines;
  - edits are journalled in undo groups, each with an optional cursor snapshot.
- **Drawing the text area** (src/window.c). This covers the selection table, `window_draw_row`, `window_draw_rows` and `window_scroll`. The terminal output is a sequence of tokens (characters and escape sequences), so the model can state what lands on screen.
- **Input and the older renderer**:
  - the key decoder `keypress_read` and the dispatch of `keypress_handle` (src/keypress.c);
  - the command lexer `lexer_tokenize` (src/lexer.c);
  - the kilo-style renderer of src/render.c: `draw_rows`, `draw_msg_bar`, `draw_stats_bar` and `set_stats_msg`, as methods of a class `Render.Terminal` whose fields are the renderer's global record.

Each loop of the C code is a Dafny `while` loop proved against a specification function. What the source promises is then proved about that function in lemmas. Some examples:

- an insert splices exactly the typed text;
- undo and redo are inverse;
- one undo reverts a whole group;
- every drawn row ends in erase-line and CR LF, and the screen holds one CR LF per row;
- the selected columns are painted exactly;
- the scrolled cursor is visible, and scrolling is idempotent;
- decoding a key's own byte sequence gives the key back;
- the lexer's tokens concatenate back to the input and are the only well-formed split of it.

Modules:

- `Common`: decimal formatting, padding, C strings.
- `Cursor`: include/cursor.h.
- `TextBuffer`, `Editor`
- `Window`
- `Keypress`
- `Lexer`
- `Render`

## Model

| member | source | states |
|---|---|---|
| Editor.EditorState.Init | src/editor.c:70-98 | the editor starts with the cursor at the origin and `render_x` 3. The buffer holds one empty line after the empty insert, with one undo group and no redo. |
| Editor.EditorState.Insert | src/editor.c:13-16 | the text is journalled at the cursor with a snapshot of it, and the cursor does not move |
| Editor.EditorState.InsertChar | src/editor.c:18-26 | the one-character C string is journalled at the cursor and x moves right by one. A non-newline character is spliced into line y at column x, and every other line is unchanged. |
| Editor.CharText | src/editor.c:20-22 | the C string `editor_insert_char` means to build from `c` is `[c]`, or empty for NUL |
| Editor.InsertCharEffect | src/editor.c:18-26 | inserting a non-newline character replaces line y by its head, the character and its tail |
| Editor.EditorState.InsertNewline | src/editor.c:60-68 | line y is cut at x into two lines and the others are unchanged; the cursor moves to (0, y+1) |
| Editor.NewlineEffect | src/editor.c:60-68 | inserting "\n" at (x, y) replaces line y by its head and its tail |
| Editor.EditorState.DeleteChar | src/editor.c:28-47 | at (0,0) nothing changes. With x > 0 the character left of the cursor is deleted and x decreases. At x = 0 the row is joined onto the one above with the -1 sentinel, and the cursor goes to the old length of that row. |
| Editor.DeleteAt | src/editor.c:37-39 | deleting column x of row y removes exactly that character from row y |
| Editor.JoinAt | src/editor.c:40-46 | the -1 delete appends row y to row y-1 and moves the later rows up by one |
| Editor.EditorState.DeleteLineBeforeX | src/editor.c:49-58 | the loop's deletes are journalled with the one snapshot taken on entry, and the cursor ends at column 0 |
| Editor.ClearBeforeX | src/editor.c:53-55 | the loop, run from column x down to 0, computes `Cleared` |
| Editor.Cleared | src/editor.c:53-55 | after k rounds exactly the k characters left of x0 are gone and the history stays valid |
| Editor.ClearedStep | src/editor.c:53-55 | each round is one more delete of the column just left of the position |
| Editor.ClearedEffect | src/editor.c:49-58 | the whole loop leaves row y as its suffix from x0, and with x0 = 0 nothing changes |
| Editor.BackspaceRunEffect | src/editor.c:53-55 | k deletes, right to left, remove the k characters before x0 |
| Editor.BackspaceRunSnoc | src/editor.c:53-55 | one more round appends one delete to the journal |
| Editor.EditorState.Undo | src/editor.c:122-129 | the buffer reverts its top group. Only x and y are copied from the snapshot, and only when a snapshot exists. |
| Editor.EditorState.Redo | src/editor.c:131-139 | the mirror of undo |
| Editor.TypeThenUndo | t/unit/regression.test.c:508-585 | typing a character that opens a group and undoing it restores the document, the cursor position and the undo stack |
| Editor.Backspaces | t/unit/editor.test.c:127-177 | any number of backspaces keeps the buffer valid with at least one line |
| TextBuffer.SplitLines | src/editor.c:60-68 | text is cut into one more line than it has newlines, none of them holding a newline |
| TextBuffer.JoinSplit | src/editor.c:13-16 | joining the split lines with newlines gives the text back |
| TextBuffer.SplitJoin | src/editor.c:13-16 | splitting joined newline-free lines gives the lines back |
| TextBuffer.SplitAround | src/editor.c:13-16 | text without newlines on both sides sticks to the first and the last segment |
| TextBuffer.InsertLength | src/editor.c:13-16 | an insert adds one line per newline of the inserted text |
| TextBuffer.InsertWithinLine | src/editor.c:18-26 | newline-free text is spliced into line y at column x, and every other line is unchanged |
| TextBuffer.InsertAcrossLines | src/editor.c:60-68 | text with newlines ends line y with its first segment. Its middle segments become new lines, and its last segment takes the rest of line y. |
| TextBuffer.Apply | src/editor.c:13-58 | every journalled edit keeps the document valid |
| TextBuffer.DeleteEffect | src/editor.c:37-46 | a delete at column x removes that character; the -1 delete joins row y onto row y-1 |
| TextBuffer.RevertApply | src/editor.c:122-129 | every edit can be reverted, and reverting it gives the document from before |
| TextBuffer.RevertInsert | src/editor.c:122-129 | reverting an insert gives the document from before |
| TextBuffer.RevertDelete | src/editor.c:122-129 | reverting a character delete gives the document from before |
| TextBuffer.RevertJoin | src/editor.c:122-129 | reverting a row join gives the document from before |
| TextBuffer.RevertAllApplyAll | src/editor.c:122-129 | reverting a whole group, last edit first, gives the document from before the group |
| TextBuffer.ApplyAllValid | src/editor.c:131-139 | replaying a group keeps the document valid |
| TextBuffer.Empty | src/editor.c:95 | a fresh buffer is one empty line with empty journals |
| TextBuffer.Record | src/editor.c:13-16 | a change applies its edit, keeps the history valid and empties redo. Unless it joins the top group, it opens a new group holding just that edit and its snapshot on top of the old ones. |
| TextBuffer.RecordJoins | src/editor.c:53-55 | a change that joins the top group is appended to it |
| TextBuffer.Undo | src/editor.c:122-129 | undo on an empty stack changes nothing and gives no snapshot. Otherwise the top undo group moves onto the redo stack, the document becomes the one that group reverts to (replaying it gives the old document back), and the group's snapshot is returned. |
| TextBuffer.Redo | src/editor.c:131-139 | redo on an empty stack changes nothing and gives no snapshot. Otherwise the top redo group moves back onto the undo stack, the document is the one replaying it gives (reverting it gives the old document back), and the group's snapshot is returned. |
| TextBuffer.UndoRecord | t/unit/regression.test.c:508-585 | undo right after a change that opened a group restores the document and hands back that change's snapshot |
| TextBuffer.RedoUndo | src/editor.c:122-139 | redo after undo restores the history exactly |
| TextBuffer.UndoRedo | src/editor.c:122-139 | undo after redo restores the history exactly |
| TextBuffer.RecordSeqSnoc | src/editor.c:53-55 | journalling a series and then one more change is journalling the longer series |
| TextBuffer.RunShape | t/unit/regression.test.c:587-808 | a run of grouped changes leaves exactly one new group holding all of them, with the first snapshot |
| TextBuffer.UndoRun | t/unit/regression.test.c:587-808 | one undo reverts the whole run and restores the first snapshot |
| TextBuffer.UndoWholeFile | t/unit/regression.test.c:785-803 | undoing the load of a file with no snapshot leaves one empty line, and the cursor is untouched |
| Window.LinePad | src/window.c:264-268 | `line_pad` is the number of digits of the line count, at least 3 |
| Window.TextWidth | src/window.c:131-132 | the text width `cols - (line_pad + 1)` is computed in unsigned 32-bit arithmetic and wraps below zero |
| Window.VisibleLen | src/window.c:126-133 | the visible length is at most the width and never runs past the line. It is short of the width only at the line's end. |
| Window.Clip | src/window.c:136-146 | the clipped selection is on exactly when its end is not -1, the selection is active and end >= start. The end is within the visible columns; a start clipped non-negative is at least `col_off`. |
| Window.DrawRow | src/window.c:124-172 | `window_draw_row` emits `RowTokens` |
| Window.DrawCells | src/window.c:149-171 | the column loop emits the cells of the visible slice |
| Window.CellsChars | src/window.c:149-171 | the characters of the drawn cells are exactly the visible slice of the line |
| Window.RowText | src/window.c:124-172 | a drawn row shows exactly `line[col_off .. col_off + len]` |
| Window.CellsPainted | src/window.c:149-171 | column j is painted with BG(218) exactly when the clipped span covers it |
| Window.RowPainted | src/window.c:124-172 | a visible column is painted exactly when the selection is active and `start <= col <= end`; a negative start paints nothing |
| Window.CellsMarks | src/window.c:149-171 | the cells hold one BG(218), where the span opens, and one close, where it ends; nothing else |
| Window.RowMarks | src/window.c:146-171 | the only escapes of a row are the opening BG(218) and the close: BG(238) on the cursor's row, NORM elsewhere |
| Window.SelectRange | src/window.c:69-122 | with the selection inactive the range is (-1, -1) |
| Window.SelectRangeCovers | src/window.c:69-122 | for an ordered selection, a column is in the drawn range exactly when it lies between anchor and offset in reading order. Left to right includes the anchor and excludes the offset; right to left swaps them. |
| Window.RowSelectionPainted | src/window.c:312-350 | a row of text drawn with the selection table for screen row `y` paints its visible column `col_off + j` exactly when the selection is active and covers position (`col_off + j`, `y`) in the order `ltr` names |
| Window.ContentRowCell | src/window.c:278-365 | the visible column `col_off + j` of a row of text is the cell right after the gutter. It is painted exactly when the selection is active and `start <= col_off + j <= end`. |
| Window.DocRowPainted | src/window.c:271-352 | on screen row `y`, showing document row `y + row_off`, a visible column is painted exactly when the selection is active and covers that column on row `y`: the screen row, not the document row |
| Window.DocRowPaintedUnscrolled | src/window.c:271-352 | with `row_off` = 0 a visible character is painted exactly when the selection covers its position in the document |
| Window.ScrolledSelectionFollowsScreenRow | src/window.c:312-350 | scrolled by one row, with only the first character of document row 0 selected, the first character of document row 1 is painted although the selection does not cover it |
| Window.Gutter | src/window.c:279 | the line number is right-aligned in `line_pad` columns and followed by one space |
| Window.GutterFits | src/window.c:263-279 | every line number of the document fits in `line_pad`, and its digits read back as the number |
| Window.DrawTextRow | src/window.c:278-365 | a document row is drawn as the gutter, the cells and, on the cursor's row, the padding |
| Window.DrawScreenRow | src/window.c:271-371 | one screen row is `ln_prefix` past the end of the document, or the row of text; `lineno` counts rows of text |
| Window.DrawRows | src/window.c:261-372 | `window_draw_rows` sets `line_pad` and emits `Screen`, one `ScreenRow` per screen row |
| Window.NextScreenRow | src/window.c:271-371 | one round of the loop extends the screen by one row |
| Window.ScreenSnoc | src/window.c:271-371 | a screen of k rows followed by row k is the screen of k + 1 rows |
| Window.DrawPadding | src/window.c:358-363 | the padding loop emits max(n, 0) spaces |
| Window.TrailerShape | src/window.c:356-365 | the cursor's row ends in the padding spaces and one NORM; other rows add nothing |
| Window.ContentRowChars | src/window.c:278-365 | the characters of a row of text are the gutter, then the visible slice, then the padding on the cursor's row |
| Window.ContentRowMarks | src/window.c:278-365 | the escapes of a row of text are COLOR(3), NORM and BG(238) on the cursor's row, then those of the cells, then NORM on the cursor's row |
| Window.ContentRowNoCrLf | src/window.c:278-365 | a row of text holds no CR LF of its own |
| Window.ScreenRowShape | src/window.c:271-371 | every screen row ends in erase-line and CR LF. A row past the end shows only `ln_prefix`. Each row holds one CR LF. |
| Window.ScreenRowCount | src/window.c:261-372 | a screen of k rows holds exactly k CR LFs |
| Window.CurrentRowWidth | src/window.c:356-365 | when the column offset lies within the line, the text width does not wrap and the line number fits `line_pad`, the cursor's row fills exactly `cols` columns |
| Window.Scroll | src/window.c:212-231 | `window_scroll` changes only the two offsets of the cursor, as `Scrolled` says |
| Window.Scrolled | src/window.c:212-231 | the scroll changes the row and column offsets and nothing else of the cursor |
| Window.ScrolledShowsCursor | src/window.c:212-231 | after scrolling, the cursor lies inside the visible window |
| Window.ScrolledVisible | src/window.c:212-231 | a cursor already visible is left alone |
| Window.ScrolledIdempotent | src/window.c:212-231 | scrolling twice is scrolling once |
| Keypress.Plain | src/keypress.c:132-151 | a byte of at least 32 is returned as itself, and a control byte never is |
| Keypress.Decode | src/keypress.c:19-152 | a read takes at least one byte and no more than there are. A byte other than ESC is decoded on its own. |
| Keypress.Input.ReadByte | src/keypress.c:35-40 | a read succeeds exactly when a byte is pending and then consumes it |
| Keypress.ReadKey | src/keypress.c:19-152 | `keypress_read` returns the key and flags of `Decode` and consumes exactly the bytes it used |
| Keypress.Encode | src/keypress.c:31-130 | every key has a canonical byte sequence, which starts with ESC exactly when it is longer than one byte or is ESC itself |
| Keypress.DecodeEncode | src/keypress.c:19-152 | decoding the canonical sequence of a key, with anything after it, gives the key, its flags and the sequence's length |
| Keypress.LetterDir | src/keypress.c:80-117 | the arrow letters A, B, C and D decode to their directions |
| Keypress.DecodeControlByte | src/keypress.c:132-149 | a control byte other than ESC takes one byte and sets no flag. Bytes 1, 5, 8, 13, 17, 21 and 26 are CTRL-A, CTRL-E, BACKSPACE, ENTER, CTRL-Q, CTRL-U and CTRL-Z, and every other control byte is UNKNOWN. |
| Keypress.DecodeTilde | src/keypress.c:50-60 | `ESC [ d ~` takes four bytes: 3 is DELETE, 1 and 7 HOME, 4 and 8 END, 5 PAGE UP, 6 PAGE DOWN, and 0, 2 and 9 give ESC |
| Keypress.DecodeDigitOther | src/keypress.c:45-129 | `ESC [ d b` with `b` neither `~` nor `;` gives ESC after four bytes |
| Keypress.DecodeModifiedArrow | src/keypress.c:62-110 | `ESC [ d ; m L` with modifier 2, 5 or 6 and an arrow letter gives the shifted, control or control-shifted arrow after six bytes, with SHIFT set for 2 and 6 and CTRL for 5 and 6 |
| Keypress.DecodeOtherModifier | src/keypress.c:67-129 | any other modifier sets no flag and gives ESC after six bytes, whatever the final byte |
| Keypress.DecodeCsiLetter | src/keypress.c:112-129 | `ESC [ L` with a non-digit `L` takes three bytes: A to D are the arrows of that letter, H is HOME, F is END, anything else ESC |
| Keypress.DecodeSs3 | src/keypress.c:122-129 | `ESC O L` takes three bytes: H is HOME, F is END, anything else ESC |
| Keypress.DecodeOtherIntroducer | src/keypress.c:43-129 | `ESC b L` with `b` neither `[` nor `O` gives ESC after three bytes |
| Keypress.DecodeSound | src/keypress.c:19-152 | the flags match the key unless the answer is ESC. Every answer but UNKNOWN is a key with a canonical sequence, and a plain byte is returned as itself after one read. |
| Keypress.Truncated | src/keypress.c:31-130 | a sequence cut short anywhere yields ESC after consuming every byte read |
| Keypress.NoLookahead | src/keypress.c:19-152 | the decoder never reads past the bytes it consumes |
| Keypress.Dispatch | src/keypress.c:160-254 | the switch never clears the selection or snaps the cursor, and it exits exactly on CTRL-Q |
| Keypress.Handle | src/keypress.c:154-261 | CTRL-Q only exits. Otherwise the calls are the switch's, then the selection clear exactly when SHIFT was not seen, then the snap to end. |
| Keypress.DeleteIsRightThenBackspace | src/keypress.c:172-175 | DELETE moves right and then backspaces |
| Keypress.KeypressHandle | src/keypress.c:154-261 | `keypress_handle` makes the calls of `Handle` for the decoded key and consumes its bytes |
| Lexer.WordEnd | src/lexer.c:38-41 | the word loop stops at the first space or at the end, and every character before that is not a space |
| Lexer.Tokenize | src/lexer.c:13-65 | `lexer_tokenize` returns `Lex` of the C string |
| Lexer.NextWord | src/lexer.c:33-59 | one word round emits the word's STRING and, when a space ended it, a SPACE |
| Lexer.ScanWord | src/lexer.c:37-41 | the inner loop collects the maximal run of non-space characters and stops on a space or NUL |
| Lexer.LexConcat | src/lexer.c:13-65 | the token texts concatenated give the input back |
| Lexer.LexWellFormed | src/lexer.c:13-65 | words are non-empty and hold no space, and every word that is not last is followed by a SPACE |
| Lexer.LexUnique | src/lexer.c:13-65 | the lexer's output is the only well-formed token list whose texts make up the input |
| Lexer.LexSpaces | src/lexer.c:25-31 | there is one SPACE token per space of the input |
| Lexer.LexFacts | src/lexer.c:13-65 | together: round trip, well-formedness, one SPACE per space, no tokens exactly for the empty input, and uniqueness |
| Render.Terminal.DrawRows | src/render.c:18-67 | `draw_rows` emits `Screen`, one row per screen row |
| Render.Terminal.DrawRowBody | src/render.c:21-59 | a row is the visible slice of a file row, the branding row or a tilde |
| Render.DrawBranding | src/render.c:36-47 | the branding loop emits `BrandRow` |
| Render.BrandRowShape | src/render.c:36-47 | the brand is cut to the width and centred after a tilde and spaces, with a right margin of p or p + 1 |
| Render.FileRowShape | src/render.c:52-58 | a file row shows `max(0, min(rsize - coloff, cols))` characters starting at `coloff` |
| Render.ScreenPrefix | src/render.c:18-67 | the output of the first `i` screen rows is the start of the output of the first `k`, so a drawn row is never rewritten |
| Render.ScreenRowCases | src/render.c:21-65 | in the output of `k` rows, screen row `line` sits right after the rows above it. It is the visible slice of file row `line + rowoff` when that exists, the branding row when the file is empty and `line` is a third of the way down, and a single tilde otherwise; each ends in erase-line and CR LF. |
| Render.ScreenLines | src/render.c:18-67 | the output holds one newline per screen row and ends in erase-line and CR LF |
| Render.BodyNoNewline | src/render.c:21-59 | no row body holds a newline when the file rows hold none |
| Render.RowEnd | src/render.c:61-65 | a row of the renderer ends in erase-line and CR LF and holds one newline |
| Render.Terminal.DrawMsgBar | src/render.c:76-89 | `draw_msg_bar` emits `MsgBar` |
| Render.MsgBarShape | src/render.c:76-89 | the bar starts with erase-line and is empty exactly when the message is empty, the width is 0 or the message is 5 seconds old. Otherwise it shows the message cut to the width. |
| Render.Terminal.DrawStatsBar | src/render.c:97-142 | `draw_stats_bar` emits `StatsBar` |
| Render.FillBar | src/render.c:122-135 | the padding loop emits `BarMiddle` |
| Render.BarMiddleShape | src/render.c:122-135 | the middle is exactly `cols` wide: the left status cut to the width, then spaces, then the right status flush right when it fits |
| Render.StatsBarShape | src/render.c:97-142 | the bar is inverted video, `cols` wide, then reset and CR LF |
| Render.Terminal.SetStatsMsg | src/render.c:150-168 | `set_stats_msg` stores the message and the time and nothing else |
| Common.Decimal | src/render.c:103-120 | `%d` of a natural number has `DigitCount` digits |
| Common.DecimalValue | src/window.c:279 | the decimal digits read back as the number |
| Common.PadLeft | src/window.c:279 | `%*ld` right-aligns in the given width |
| Common.CStr | src/lexer.c:17-22 | a C string is the prefix before the first NUL |

## Left out

- Terminal I/O is a parameter: the blocking read loop of `keypress_read` (src/keypress.c:24-28) and its `panic` on a read error; `exit(0)` is the call `Exit`.
- The cursor motions called from `keypress_handle` are only named as calls; cursor.c is not part of this model.
- The cursor predicates used by `window_scroll` and by `editor_delete_char` (`cursor_in_cell_zero` and `cursor_not_at_row_begin`, src/editor.c:31,37) come from cursor.c, which is not part of this model. They are modelled as the comparisons their names describe: `x == 0 && y == 0` and `x != 0` for the two in `editor_delete_char`.
- `cursor_is_select_ltr` is an input of the drawing functions.
- The buffer library behind `render_state_*` is not part of this model. `TextBuffer` describes it from its use in editor.c and the tests. Its undo-grouping rule is a parameter `joins`.
- `Editor.EditorState.Init` does not model the terminal size query, the `- 2` rows for the bars, the tab size or the line prefix.
- `editor_open` is not modelled: it reads a file (I/O). `UndoWholeFile` states what undo does after a whole-file insert with no snapshot.
- Key codes and `APPNAME`/`APPVERSION` come from headers that are not part of this model. Keys are a datatype, and the branding string is a parameter of `Render`. Because each key is its own constructor, the model assumes that no key code equals a byte `keypress_read` returns unchanged. If one did (a `BACKSPACE` of 127, say), that byte would reach the key's case of `keypress_handle` in C, but in the model it is inserted as a character.
- `window_draw_status_bar`, `window_draw_command_bar`, `window_refresh` and `window_clear` are not part of the core drawn here.
- Render.Terminal.SetStatsMsg: the `vsnprintf` formatting and the size of `statusmsg` are not modelled; the message is stored as given.
- Render.Terminal.DrawRows: `snprintf` into the 80-byte branding buffer is modelled by requiring the branding to be shorter than 80 characters, so it is never truncated.
- Render.Terminal.DrawStatsBar: the two 80-byte status buffers are assumed to hold their text, which is at most 20 + 3 + 10 + 7 + 10 bytes for a line count below 10^10.
- Window.LinePad: `log10(num_lines) + 1` in floating point is modelled as the number of decimal digits of the line count. The count is never 0: `editor_init` inserts the empty string, which leaves one line, and `TextBuffer.ValidDoc` requires at least one line.
- Lexer.Tokenize: `scanner_next` is not part of this model. It is taken to return NUL at and after the end of the string, so that the read after the NUL which ends a word still sees NUL.
- Field widths of include/cursor.h are unbounded naturals. Only the text width `cols - (line_pad + 1)`, where the code relies on unsigned wrap-around, is reduced modulo 2^32.
- The gutter is formatted with `%*ld `: the line number right-aligned in `line_pad` columns, then one space (src/window.c:279).
- `window_draw_rows` computes the selection range inline with the screen row `y` (src/window.c:312-350). It does not call `window_compute_select_range` (src/window.c:68-122), which takes a row argument. `Window.DocRowPainted` states the consequence and `Window.ScrolledSelectionFollowsScreenRow` shows it.
- Cursor.Initial: C sets the selection anchor and offset from `-1`, which wraps in their unsigned fields. They are unused while the selection is inactive, and the model puts them at the origin.
- Editor.CharText, Editor.EditorState.InsertNewline and Window.DrawRow use the C strings the code means to build. The C code writes past the end of arrays that have no room for the terminating NUL, which is undefined behaviour:
  - `editor_insert_char` writes `cp[1]` of `char cp[1]` (src/editor.c:20-22);
  - `editor_insert_newline` writes `nl[1]` of `char nl[1]` (src/editor.c:62-64);
  - `window_draw_row` copies the line into `char line[row->line_length]`, with no room for a terminator (src/window.c:143).
- Editor.EditorState.Insert accepts text that contains NUL, which no C string can carry. The model journals such text unchanged; in C the string would end at the first NUL.
- Editor.EditorState.Insert, Editor.EditorState.InsertChar, Editor.EditorState.InsertNewline, Editor.EditorState.DeleteChar and Editor.EditorState.DeleteLineBeforeX require the cursor to lie in the document (`CursorInDoc`). The C code does not check this, and the cursor can leave the document in three ways:
  - an undo whose group has no snapshot leaves the cursor where it was, for example at (0, 25) over a one-line document;
  - redo restores the snapshot recorded with the change, which can be stale: record the delete of `a` at (0, 0) on `["a"]` with the cursor at (1, 0), undo, then redo, and the document is `[""]` with the cursor at (1, 0);
  - `editor_insert_char` with NUL inserts nothing but still moves x one to the right.
  What the buffer library does with a position outside the document is not visible, and `editor_delete_char` reads the `line_info` of row `y - 1` (src/editor.c:41). The model therefore states these methods only for a cursor inside the document; it does not clamp.
