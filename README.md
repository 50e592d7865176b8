# mate: a verified model of the editor core

mate is a small terminal text editor written in Rust. This project models
its core in Dafny and proves properties of that model. The core is:

- `UnicodeString`, a string addressed by code point. It keeps the UTF-8
  bytes, a code-point count and a table of the byte offset where each code
  point starts.
- The line buffer `File` and its older near-duplicate `OpenFile`. Each has
  a non-empty list of lines, a `(column, row)` cursor whose column may lie
  past the end of the line, and a viewport offset. They offer edits, cursor
  moves, a viewport scroll and serialisation.
- `FilePath`, with its one-dimensional scroll rule.
- The save decision `save` and the Editing / Saving / Overwriting / Quitting
  state machine that calls it.
- The older flag-based event loop of `app.rs`.

Modules, one per source concern:

| module | file | models |
|---|---|---|
| `Optional` | option.dfy | the `Option` type |
| `Utf8` | utf8.dfy | UTF-8 widths, encoding and a one-code-point decoder (section 3 of RFC 3629) |
| `Unicode`, `UnicodeSelfTest` | unicode.dfy | `UnicodeString` as a class, and its debug self-test |
| `Viewport` | viewport.dfy | the per-axis scroll rule of `adjust_viewport` |
| `FilePaths` | file_path.dfy | `FilePath` and its own scroll rule |
| `Lines` | lines.dfy | the text a buffer serialises to: join on '\n', split on '\n' |
| `Buffer` | buffer.dfy | `File` / `OpenFile`: edit specifications on values, and the class that edits in place |
| `Keys` | keys.dfy | crossterm key events |
| `SaveFile` | save.dfy | `save` over an abstract filesystem |
| `Functionality` | functionality.dfy | the mode state machine |
| `App` | app.dfy | the flag-based precursor loop |

How each concern is modelled:

- **UnicodeString.** The class keeps the concrete bytes, length and offset
  table, plus a ghost sequence of code points. `Valid` says three things:
  the bytes are the UTF-8 encoding of the code points, the length is their
  number, and entry `i` of the table is the byte length of the first `i`
  code points. Every operation keeps `Valid` and performs the obvious splice
  on the code points. `Remove` reads the width of the removed code point by
  decoding the bytes, as `String::remove` does.
- **Line buffer.** `Buffer.Doc` holds the lines and the stored cursor as a
  value. Each edit function on it says how the serialised text
  `Lines.Join(lines)` changes and where the cursor lands, measured as
  `Pos`, the cursor's index in that text. The class `Buffer.File` performs
  the same edits in place. Each of its methods is proved to leave the state
  the edit function gives.
- **Saving.** The filesystem is a map from paths to byte contents; a path
  exists when it is a key. Whether `File::create` and `write_all` succeed is
  a parameter.
- **Prompts.** The prompt type is not shown in the source. A prompt is
  therefore an opaque value; what functionality.rs calls on it is passed in
  as functions.

## Model

| member | source | states |
|---|---|---|
| `Utf8.Width` | src/app/unicode.rs:60 | `len_utf8` is 1 to 4 bytes. It is 1 exactly below U+0080 and 4 exactly from U+10000. |
| `Utf8.EncodeChar` | src/app/unicode.rs:39 | A code point takes `Width` bytes: one lead byte that is not a continuation byte, then only continuation bytes. |
| `Utf8.DecodeChar` | src/app/unicode.rs:71 | A decoded code point has the width its lead byte announces, and enough bytes are present. |
| `Utf8.DecodeEncodeChar` | src/app/unicode.rs:71 | Decoding the encoding of `c`, whatever follows it, gives back `c`. This is what `String::remove` relies on to find the width of the removed code point. |
| `Utf8.EncodeLength` | src/app/unicode.rs:38 | The byte length of a string is the sum of its code points' widths. |
| `Utf8.OffsetsIncrease` | src/app/unicode.rs:3-7 | The start offsets of code points strictly increase. |
| `Utf8.DecodeAtOffset` | src/app/unicode.rs:3-7 | Decoding the bytes at the recorded offset of code point `i` gives code point `i`, so the table is checked by an independent decoder. |
| `Unicode.UnicodeString.Valid` | src/app/unicode.rs:3-7 | The invariant: the bytes are the UTF-8 encoding of the code points, `length` counts them, and entry `i` of the offset table is the byte length of the first `i`. It gives a byte length equal to the sum of the widths and one offset per code point. |
| `Unicode.TableInRange` | src/app/unicode.rs:3-7 | Every offset of the table lies inside the bytes. |
| `Unicode.InsertTable` | src/app/unicode.rs:55-61 | Duplicating the offset at `idx` and raising every entry after it by the inserted width gives the table of the spliced string. |
| `Unicode.DrainTable` | src/app/unicode.rs:88-99 | Dropping the entries of `[start, end)` and lowering every later one by the drained byte count never goes below 0 and gives the table of the drained string. |
| `Unicode.InsertShifts` | src/app/unicode.rs:55-61 | Against the table of the old string, the new table keeps the entries before `idx`, holds the old byte offset at `idx`, and has each later entry one place on and higher by the inserted width. |
| `Unicode.RemoveShifts` | src/app/unicode.rs:71-75 | The new table keeps the entries before `idx`, and each later entry is the old one a place further on, lower by the removed code point's width. |
| `Unicode.DrainShifts` | src/app/unicode.rs:88-99 | The new table is shorter by the number of drained code points. It keeps the entries before `start`, and each later entry is the old one `end - start` places on, lower by the drained byte count. |
| `Unicode.UnicodeString.constructor` | src/app/unicode.rs:10-16 | `new` is the empty string: no bytes, length 0, empty table. |
| `Unicode.UnicodeString.From` | src/app/unicode.rs:18-31 | `from(src)` holds the UTF-8 bytes of `src`. Its length is the number of code points and entry `i` is the start offset of code point `i`. |
| `Unicode.UnicodeString.Length` | src/app/unicode.rs:33-35 | `length` is the number of code points. |
| `Unicode.UnicodeString.AsStr` | src/app/unicode.rs:106-108 | `as_str` is the UTF-8 encoding of the code points, with the sum of their widths as its length. |
| `Unicode.UnicodeString.Push` | src/app/unicode.rs:37-41 | `push` records the old byte length as the new offset, appends the encoding and increments the length. |
| `Unicode.UnicodeString.PushStr` | src/app/unicode.rs:43-47 | `push_str(s)` appends the code points of `s` in order and keeps the existing offsets. |
| `Unicode.UnicodeString.ShiftUp` | src/app/unicode.rs:59-61 | The loop raises every entry from `from` on by `w` and leaves the earlier ones. |
| `Unicode.UnicodeString.ShiftDown` | src/app/unicode.rs:73-75 | The loop lowers every entry from `from` on by `w` and leaves the earlier ones. It is called only where no entry would go below 0, so `usize` subtraction never underflows. The same loop is at unicode.rs:97-99. |
| `Unicode.UnicodeString.Insert` | src/app/unicode.rs:49-65 | The code points become prefix, `ch`, suffix, and the length grows by one. The invariant is kept, so the bytes are the new encoding and the offsets are the new table, which `InsertShifts` relates to the old one. |
| `Unicode.UnicodeString.Remove` | src/app/unicode.rs:67-78 | Exactly code point `idx` is dropped, with its width read by decoding the bytes at its offset. The length drops by one and the invariant is kept; `RemoveShifts` gives the new offsets. |
| `Unicode.UnicodeString.Drain` | src/app/unicode.rs:80-104 | The bytes of code points `[start, end)` are returned, prefix ++ suffix remains and the length drops by `end - start`. The invariant is kept, so `DrainShifts` gives the new offsets. `start == end` returns nothing and leaves the bytes and offsets alone. |
| `Unicode.InsertThenRemove` | src/app/unicode.rs:49-78 | `insert(i, c)` then `remove(i)` restores the bytes, the length and the offset table. |
| `UnicodeSelfTest.SelfTest` | src/app/unicode.rs:110-176 | The self-test returns true: every expected string, length and offset table holds. |
| `UnicodeSelfTest.Insertions` | src/app/unicode.rs:124-131 | From "test", inserting '!' at 4, '_' at 0 and 'y' at 5, then pushing '_', gives "_testy!_". |
| `UnicodeSelfTest.Removals` | src/app/unicode.rs:133-139 | Removing at 0, 6 and 4 gives "test!". |
| `UnicodeSelfTest.RemoveAll` | src/app/unicode.rs:141-146 | Removing the first code point until the length is 0 leaves the empty string. |
| `UnicodeSelfTest.TwoByteInsert` | src/app/unicode.rs:148-153 | Pushing 'å' and 'ö' then inserting 'ä' at 1 gives "åäö" with offsets [0, 2, 4]. |
| `UnicodeSelfTest.TwoByteRemove` | src/app/unicode.rs:155-163 | From "åäö", removing at 1 gives "åö" with offsets [0, 2], and draining everything returns the bytes of "åö" and leaves the empty string. |
| `UnicodeSelfTest.PushStrAndDrain` | src/app/unicode.rs:165-173 | Pushing "asd" and draining `[1, 3)` returns "sd" and leaves "a" with offsets [0]. |
| `Viewport.Scroll` | src/app/file.rs:134-150 | One axis of `adjust_viewport` with a window of at least one cell. Afterwards the cursor is visible. A window that already shows it is kept, and no window showing it is closer to the old offset. |
| `Viewport.ScrollIdempotent` | src/app/file.rs:134-150 | A second `adjust_viewport` changes nothing. |
| `Viewport.ScrollTowardCursor` | src/app/file.rs:135-141 | The offset moves toward the cursor and never past it. |
| `FilePaths.ScrollAsWritten` | src/app/file_path.rs:29-37 | `FilePath::adjust_viewport` as written. A cursor before the offset becomes the offset, the cursor is never past the window's right edge, and a cursor at or after the offset never moves the offset back. |
| `FilePaths.AsWrittenMovesVisibleWindow` | src/app/file_path.rs:33-36 | Testing the absolute cursor against `width - 1` moves a window that already shows the cursor, and can scroll the cursor out of view. |
| `FilePaths.AsWrittenDrifts` | src/app/file_path.rs:33-36 | Repeated calls keep moving the offset: width 5, cursor 6 gives offsets 0, 2, 4, 6, 8, and at 8 the cursor is hidden. |
| `FilePaths.AsWrittenAgreesAtZero` | src/app/file_path.rs:29-37 | From offset 0 the rule agrees with the buffer's minimal scroll. |
| `FilePaths.AsWrittenAgreesAtCursorZero` | src/app/file_path.rs:15-25 | At cursor 0, the only cursor a `FilePath` ever has, both rules give offset 0. |
| `FilePaths.FilePath.constructor` | src/app/file_path.rs:15-21 | `new` gives an empty path, cursor 0 and offset 0. |
| `FilePaths.FilePath.AdjustViewport` | src/app/file_path.rs:29-37 | Updates the offset in place by the rule as written. |
| `FilePaths.FilePath.AdjustViewportCorrected` | src/app/file.rs:138 | The rule compares the cursor's distance from the offset, as the buffer does. It leaves the offset where the minimal scroll puts it, with the cursor visible. |
| `FilePaths.FilePath.CloneFrom` | src/app/file_path.rs:7 | `clone` copies path, cursor and offset. |
| `Lines.Split` | src/app/file.rs:41-50 | Splitting any text gives at least one line. |
| `Lines.JoinSplice` | src/app/file.rs:41-50 | Replacing a run of lines changes the serialised text only between the text before and the text after that run. |
| `Lines.JoinAt` | src/app/file.rs:41-50 | The text is the text before line `r`, then line `r`, then '\n' before each later line. |
| `Lines.SplitJoin` | src/app/file.rs:41-50 | Splitting `to_string` on '\n' gives back the lines when none of them contains '\n'. |
| `Lines.JoinSplit` | src/app/file.rs:41-50 | Joining the pieces of a split gives back the text. |
| `Lines.SplitHasNoNewlines` | src/app/file.rs:41-50 | No piece of a split contains '\n'. |
| `Buffer.Doc.Valid` | src/app/file.rs:24-30 | The buffer invariant: there is at least one line and the row indexes one, so `get_line` and `get_line_mut` never reach their `expect`. `File::new` establishes it (file.rs:13-20) and every edit and move keeps it (the `r.Valid()` clause of each edit function). |
| `Buffer.Doc.Clamped` | src/app/file.rs:32-39 | `clamped_file_cursor` (`clamped_local_cursor`, open_file.rs:114-121) is the stored column, capped at the line's length. |
| `Buffer.PosInText` | src/app/file.rs:80-92 | The cursor is at the end of the text exactly when it is at the end of the last line. |
| `Buffer.WriteChar` | src/app/file.rs:54-61 | `write_character` leaves `lines` non-empty and the row in range, and changes no other line. `ch` enters the text at the cursor, and the column becomes clamped + 1. Same code as open_file.rs:26-33. |
| `Buffer.Backspace` | src/app/file.rs:63-78 | With column > 0 the character before the cursor leaves the text: it is cut from line `row`, no other line changes and the column decrements. At column 0 of row > 0 the removed character is the '\n': line `row` is appended to line `row - 1`, the lines before and after stay, and the cursor goes to (previous line's old length, row − 1). At the text's start it changes nothing but the stored column, which becomes 0. Same code as open_file.rs:35-50. |
| `Buffer.DeleteForward` | src/app/file.rs:80-92 | The character after the cursor leaves the text. Inside a line it is cut from line `row` and no other line changes. At the end of a line that character is the '\n': line `row + 1` is appended to line `row` and the lines before and after stay. At the end of the text nothing changes. The cursor is clamped and stays in place. Same code as open_file.rs:52-64. |
| `Buffer.LineBreak` | src/app/file.rs:94-104 | '\n' enters the text at the cursor. Line `row` becomes the prefix up to the clamped column and the suffix is inserted at `row + 1`. The two halves make up the old line, the line count grows by one and the cursor is (0, row + 1). Same code as open_file.rs:66-76. |
| `Buffer.MoveUp` | src/app/file.rs:106-110 | Only the row changes, one up unless it is 0. The column is kept unclamped. |
| `Buffer.MoveDown` | src/app/file.rs:112-116 | Only the row changes, one down unless on the last line. The column is kept unclamped. |
| `Buffer.MoveLeft` | src/app/file.rs:118-123 | The column is clamped, then moves one back within `[0, line length]`. The cursor moves one back in the text unless it is at the line's start. |
| `Buffer.MoveRight` | src/app/file.rs:125-130 | The column is clamped, then moves one on within `[0, line length]`. The cursor moves one on in the text unless it is at the line's end. |
| `Buffer.BackspaceUndoesWriteChar` | src/app/file.rs:54-78 | Backspace after typing a character restores the lines and the clamped cursor. |
| `Buffer.BackspaceUndoesLineBreak` | src/app/file.rs:63-104 | Backspace after Enter rejoins the line and restores the clamped cursor. |
| `Buffer.UpUndoesDown` | src/app/file.rs:106-116 | Down then Up restores the row and the stored column. |
| `Buffer.ClampKeepsPos` | src/app/file.rs:32-39 | Clamping the stored column does not move the cursor in the text. |
| `Buffer.File.constructor` | src/app/file.rs:13-20 | `new` gives one empty line, cursor (0, 0) and viewport (0, 0), as does `OpenFile::new` (open_file.rs:15-22). |
| `Buffer.File.ToString` | src/app/file.rs:41-50 | `to_string` joins the lines with one '\n' between neighbours and none at the end, as open_file.rs:148-157 does. Splitting the result gives back the lines when none contains '\n'. |
| `Buffer.File.WriteCharacter` | src/app/file.rs:54-61 | The in-place edit leaves exactly the state `WriteChar` gives. |
| `Buffer.File.RemoveCharacterBefore` | src/app/file.rs:63-78 | The in-place edit, including `prev.length() - curr.length()`, leaves exactly the state `Backspace` gives. |
| `Buffer.File.RemoveCharacterAfter` | src/app/file.rs:80-92 | The in-place edit leaves exactly the state `DeleteForward` gives. |
| `Buffer.File.BreakLine` | src/app/file.rs:94-104 | Draining the suffix and inserting it as a new line leaves exactly the state `LineBreak` gives. |
| `Buffer.File.MoveCursorUp` | src/app/file.rs:106-110 | Leaves the state `MoveUp` gives. |
| `Buffer.File.MoveCursorDown` | src/app/file.rs:112-116 | Leaves the state `MoveDown` gives. |
| `Buffer.File.MoveCursorLeft` | src/app/file.rs:118-123 | Leaves the state `MoveLeft` gives. |
| `Buffer.File.MoveCursorRight` | src/app/file.rs:125-130 | Leaves the state `MoveRight` gives. |
| `Buffer.File.AdjustViewport` | src/app/file.rs:134-150 | On a rectangle of at least 1×1, each axis scrolls by `Scroll` on the stored column and row. Afterwards the stored cursor lies in the window. Same code as open_file.rs:123-139. |
| `Buffer.File.GlobalCursor` | src/app/file.rs:152-158 | The screen cell is the rectangle's origin plus the clamped column and the raw row, each minus its offset. The result is absent exactly when an unsigned subtraction would underflow. `global_cursor_pos` (open_file.rs:141-146) is the same computation. |
| `Buffer.File.RenderCursorAsWritten` | src/app/open_file.rs:175-176 | `render` scrolls on the stored column, then places the cursor. The same pair of calls is at rendering.rs:16-22. |
| `Buffer.File.AdjustViewportClamped` | src/app/file.rs:134-150 | The same scroll on the clamped column, the one the cursor is drawn at. |
| `Buffer.File.RenderCursor` | src/app/file.rs:152-158 | After scrolling on the clamped column, the cursor always gets a cell inside the rectangle. |
| `Buffer.CursorOnScreen` | src/app/file.rs:152-158 | A window that shows the clamped cursor puts it on a cell of the rectangle. |
| `Buffer.UnclampedScrollLosesCursor` | src/app/file.rs:138-155 | When the stored column is at least a window's width past the end of its line, scrolling on it leaves the offset beyond the clamped column, and `global_cursor` underflows. |
| `Buffer.UnderflowKeys` | src/app/file.rs:54-110 | Enter, "aa" and Up from a new buffer leave the lines ["", "aa"] and the stored cursor (2, 0). |
| `Buffer.UnderflowReachable` | src/app/file.rs:153-155 | The keys Enter, "aa", Up and a window 2 cells wide lead to that underflow. |
| `SaveFile.ShouldWrite` | src/app/functionality/save.rs:8 | The write decision is "the path is free, or overwriting is forced". |
| `SaveFile.Save` | src/app/functionality/save.rs:5-16 | An existing path without force gives `Ok(false)` and no write. `Ok(false)` happens in no other case, so never with force. `Ok(true)` comes exactly when a write was due and both create and write succeeded; the file then holds the UTF-8 bytes of `to_string()`. A failed create changes nothing, and a failed write leaves a prefix of those bytes. No other path is touched. |
| `SaveFile.SaveAgainSameContents` | src/app/functionality/save.rs:9-10 | Saving the same text again, with force, leaves the same filesystem. |
| `Functionality.IsYes` | src/app/functionality.rs:94 | `to_lowercase() == "y"`: the answer is one character that lower-cases to 'y'. |
| `Functionality.PromptKeyOf` | src/app/functionality.rs:46-57 | Left, Right, Backspace, Delete and characters are prompt edits. Up, Down, Enter and other keys are not. |
| `Functionality.EditByKey` | src/app/functionality.rs:17-37 | Each non-Control key performs its one buffer operation. A character or Enter enters the text at the cursor. Backspace removes the character before the cursor and Delete the one after it, and at the text's start or end they leave the lines alone. Arrows leave the lines alone, and other keys change nothing. |
| `Functionality.Data.HandleEditKey` | src/app/functionality.rs:9-38 | Ctrl+c goes to Quitting. Ctrl+s goes to Saving with the save prompt's answer set to the buffer's path. Other Control keys change nothing. Other keys perform `EditByKey` and leave the state and prompts alone. |
| `Functionality.Data.HandleSaveKey` | src/app/functionality.rs:40-71 | Ctrl+c goes to Editing. Prompt keys edit only the save prompt. Enter runs `save` without force: `Ok(true)` goes to Editing with the path set to the answer, `Ok(false)` goes to Overwriting, and `Err` panics. |
| `Functionality.Data.HandleOverwriteKey` | src/app/functionality.rs:73-108 | Ctrl+c goes to Saving. Prompt keys edit only the overwrite prompt. Enter leaves both prompts alone and tests the answer as it was before the key: a yes answer runs `save` with force and goes to Editing with the path updated, or panics on `Err`; the `Ok(false)` panic is proved unreachable. Any other answer goes to Saving without saving. |
| `Functionality.Data.HandleEvent` | src/app/functionality.rs:110-118 | Non-key events are ignored. A key in Editing or Quitting performs exactly what `HandleEditKey` promises, in Saving what `HandleSaveKey` promises and in Overwriting what `HandleOverwriteKey` promises, with the buffer untouched in the two prompt states. The filesystem changes only on Enter in Saving, or in Overwriting with a yes answer, and only at the save prompt's path. An existing file is kept outside Overwriting. Overwriting is entered only from Saving with an existing path. The buffer's path changes only together with a successful save of its text there. |
| `App.EditFlags` | src/app.rs:21-28 | `edit_events`: Ctrl+c sets `is_quitting`, Ctrl+s sets `is_saving`, and nothing else changes a flag. |
| `App.SaveFlags` | src/app.rs:30-37 | `save_events`: Ctrl+c clears `is_saving` and nothing quits. |
| `App.StepFlags` | src/app.rs:54-61 | Keys go to `save_events` when `is_saving`, else to `edit_events`. Quitting starts only from a Ctrl+c outside save mode. |
| `App.RunFlags` | src/app.rs:47-63 | `run` stops consuming once quitting, and otherwise consumes every event. |
| `App.QuitsRightAfterCtrlC` | src/app.rs:50-52 | When a run ends in quitting, the last event it consumed was a Ctrl+c. |
| `App.CtrlCQuitsAtOnce` | src/app.rs:22-23 | In edit mode a Ctrl+c ends the run after that one event. |
| `App.App.constructor` | src/app.rs:42-45 | `run` starts with both flags false, a new open file and a new file path. |
| `App.App.EditEvents` | src/app.rs:21-28 | The flags become `EditFlags`. Ctrl+s copies the open file's path into the typed path, and the typed path is otherwise unchanged. |
| `App.App.SaveEvents` | src/app.rs:30-37 | The flags become `SaveFlags`. Enter without Ctrl+c copies the typed path into the open file, and nothing is written. |
| `App.App.Step` | src/app.rs:55-61 | One event is dispatched by `is_saving`: save mode touches only the open file's path, edit mode only the typed path. In save mode, Enter without Ctrl+c copies the typed path into the open file's path (app.rs:34), and every other key leaves it unchanged. In edit mode, Ctrl+s copies the open file's path into the typed path (app.rs:26), and every other key leaves it unchanged. |
| `App.App.Run` | src/app.rs:39-64 | The loop leaves exactly the flags and the event count `RunFlags` gives. |

## Left out

- Rendering: every `render` function, rendering.rs and prompt.rs, and the slicing through `UnicodeString`'s `Index` impl (not shown) are left out. They are drawing only.
- The terminal setup in main.rs, and the polling, reading and drawing inside `run`, are left out. `App.App.Run` takes the events as a sequence, and it stops when they run out, where the source would keep polling.
- App.App.Run: its contract gives the final flags and the number of events consumed, not the final contents of the two paths; what each event does to them is stated by `App.App.Step`.
- The real filesystem is not modelled. A path "exists" when it is a key of the map, so directories and permissions are not modelled. Success or failure of `File::create` and `write_all` is the `IoOutcome` parameter.
- Panics on `Err` (functionality.rs:67 and 101) are the `Panic` outcome. The state the handler leaves is stated, but nothing that would happen after a panic is modelled.
- The `Prompt`, `Data` and `State` definitions are not part of this model. A prompt is an opaque value whose `get_answer`, `set_answer` and editing actions are parameters (`PromptOps`). `Functionality.Data.constructor` assumes an editor starts in Editing on a new buffer.
- `to_lowercase() == "y"` is modelled as an answer of exactly "y" or "Y". This holds under Unicode's lower-case mapping, where only 'Y' maps to "y" and no code point maps to the empty string. Full case mapping is not modelled.
- The lines of a buffer are sequences of code points, not `UnicodeString` objects. The `UnicodeString` operations are modelled and proved in their own module, and the buffer uses their abstract effect.
- `File` and `OpenFile` share one class, `Buffer.File`. The differences are as follows. `OpenFile.path` is a `FilePath` (`App.App.openFilePath`). `clamped_local_cursor` returns only the column. `adjust_viewport` is private and called only from `render` (open_file.rs:175).
- Integer widths are not modelled. `usize`/`u16` arithmetic is unbounded, and the `u16` casts and additions in `global_cursor` (file.rs:155-156) are not truncated. The unsigned subtractions that could underflow are modelled as requirements or as error results. `width - 1` and `height - 1` need a rectangle of at least 1×1, which is a precondition of the scroll methods. The `assert!`s of `insert`, `remove` and `drain` are preconditions.
- `drain` returns the UTF-8 bytes of the removed code points, not a borrowing `Drain` iterator.

## Findings

| source | as written | input that shows it | evidently intended | confidence | as-written member | corrected member |
|---|---|---|---|---|---|---|
| src/app/file_path.rs:33-36 | `FilePath::adjust_viewport` compares the absolute cursor with `width - 1` | Width 5, cursor 6: repeated calls move the offset 0, 2, 4, 6, 8, and at 8 the cursor is no longer visible. | Compare `cursor - offset` with `width - 1`, as file.rs:138 does. In the app the cursor never leaves 0, where both rules agree. | not executed | `FilePaths.AsWrittenDrifts` | `FilePaths.FilePath.AdjustViewportCorrected` |
| src/app/file.rs:134-155 | `adjust_viewport` scrolls on the stored (unclamped) column, but `global_cursor` subtracts the offset from the clamped column. The same pair is at open_file.rs:175-176 and rendering.rs:16-22. | Press Enter, type "aa", press Up, and draw in a window 2 cells wide. The cursor is stored at (2, 0) with clamped column 0 and the offset becomes 1, so `0 - 1` underflows: a panic in a debug build. | Scroll on the clamped column, so the cursor is always drawn inside the window. | not executed | `Buffer.UnderflowReachable` | `Buffer.File.RenderCursor` |
