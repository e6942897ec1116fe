# typp editor core in Dafny

This project models the editor of typp, a small modal terminal navigator
(`src/editor.rs`). The editor keeps a quit flag and a cursor position. Its
main loop repeats three steps: refresh the screen, stop if the flag is up,
and read and handle one key. The keys `k j h l H L M 0 $` move the cursor
inside the terminal's bounds, control-q raises the quit flag, and every
other key is ignored. A refresh hides the cursor and homes it. It then
either clears the screen and says goodbye, or draws every terminal row but
the last and places the cursor at its logical position. Each drawn row
shows the document's line, the centred welcome banner, or `~`. Every
refresh, the farewell included, ends by showing the cursor and flushing.

Modules, from the bottom up:

- `Keys`: the key events the terminal delivers, and the classes of
  movement keys.
- `Navigation`: terminal size (`u16` columns and rows), cursor position,
  the editor state, and two functions. `Moved` gives the effect of one
  movement key. `Interpret` gives the effect of one key on the whole state.
- `Terminal`: the terminal operations a refresh and a key read perform,
  written as a trace of `Op` values. It also has counting and ordering
  facts about traces.
- `Screen`: the welcome banner, the per-row classification, the operations
  of `draw_rows`, and the operations of a whole `refresh_screen`.
- `Session`: the main loop as a function `Run`. Its inputs are the key
  stream `keys` and the terminal size for each iteration (`sizes`, one more
  than `keys`). Its result is the trace, the final state and how the loop
  ended. This module also holds the lemmas about whole runs.
- `Editor`: the class `Editor`. Its fields `shouldQuit` and
  `cursorPosition` are updated in place. Its methods follow the Rust
  methods, with one change: `ProcessKeypress` takes the key as an argument,
  while Rust's `process_keypress` reads it itself and can fail there
  (src/editor.rs:56). The read and its failure live in `Run`. Each method is proved equal to the matching function above:
  - `MoveCursor` to `Moved`;
  - `ProcessKeypress` to `Interpret`;
  - `RefreshScreen` to `Refresh`;
  - `DrawRows`, whose `for` loop carries an invariant, to `DrawnRows`;
  - `Run`, whose `loop`/`break` is a `while` loop with the invariant
    `Session.Resumes`, to `Session.Run`. `Run` also states the guarantees
    that `Session.Guaranteed` bundles together.

Environment and inputs:

- The key stream is a parameter. Running out of keys stands for
  `Terminal::read_key` failing. The loop then ends with the outcome
  `ReadFailed`, where the program would call `die`.
- The terminal's size is read once per iteration and passed in.
- The document is a value with three uninterpreted parts: `row` (an
  optional line per index), `isEmpty`, and `render`, standing for
  `Row::render`.
- The package version shown in the banner is a parameter `version`.

Points of the code's behaviour that are easy to misread:

- `M` moves to `(height - 1) / 2`, because the halving applies to the
  decremented bound. On a 20-row terminal that is row 9
  (`Navigation.MiddleRows`).
- The banner text for version 1.0.0 is 21 characters long. The padding at
  width 40 is 8 spaces (`Screen.WelcomeAtWidthForty`).
- Nothing pulls the cursor back inside the bounds when the terminal
  shrinks. A cursor left below the last row stays there
  (`Navigation.ShrinkLeavesCursorOutside`). For that reason, "the cursor
  stays in bounds" is proved only for a terminal whose size does not change
  (`Session.RunKeepsCursorInBounds`).

## Model

| member | source | states |
|---|---|---|
| Navigation.SaturatingSub | src/editor.rs:76-77 | the result never exceeds the minuend; it is the exact difference when no underflow occurs, and 0 when it would |
| Navigation.Moved | src/editor.rs:73-100 | vertical keys leave the column unchanged and horizontal keys leave the row unchanged; unrecognised keys leave the cursor unchanged; a coordinate within its bound stays within it |
| Navigation.StepKeys | src/editor.rs:79-90 | k and h decrease the row or column by one and stop at 0, never increasing it; j and l add one only while strictly below the last row or column, and otherwise leave it unchanged |
| Navigation.JumpKeys | src/editor.rs:91-95 | H sets the row to 0; L sets it to the last row; M sets it to half the last row, which is within bounds; 0 sets the column to 0; $ sets it to the last column; none of them depends on the old coordinate |
| Navigation.JumpsIgnoreOldCoordinate | src/editor.rs:91-95 | a jump key lands on the same row (H, L, M) or column (0, $) from any starting position |
| Navigation.Interpret | src/editor.rs:55-71 | control-q raises the flag and leaves the cursor unchanged; a movement key changes only the cursor, as `Moved` says; any other key changes nothing; the flag is up afterwards exactly when it was up before or the key is control-q, so nothing lowers it |
| Navigation.MovesStayInBounds | src/editor.rs:76-90 | however many keys are pressed on a terminal of one size, a cursor inside the bounds stays inside |
| Navigation.AxesStayIndependent | src/editor.rs:78-99 | a run of horizontal keys keeps the row, and a run of vertical keys keeps the column |
| Navigation.UpStaysAtTop | src/editor.rs:79 | any number of k presses on the top row leave the cursor unchanged |
| Navigation.TopThenUp | src/editor.rs:79-91 | H followed by any number of k presses ends on the top row |
| Navigation.MiddleRows | src/editor.rs:93 | M lands on row 9 of a 20-row terminal and on row 10 of a 21-row one |
| Navigation.ShrinkLeavesCursorOutside | src/editor.rs:80-84 | after the terminal shrinks, a cursor below the new last row is still outside the bounds after j |
| Screen.WelcomeMessage | src/editor.rs:139 | the banner text is the 16-character prefix followed by the version string |
| Screen.Padding | src/editor.rs:141-142 | twice the padding never exceeds the room the message leaves; when there is any padding, the ~ marker, the padding and the message fit in the width together |
| Screen.Spaces | src/editor.rs:142 | n spaces: the length is n and every character is a space |
| Screen.Truncate | src/editor.rs:144 | keeps the first min(length, n) characters of the string, unchanged |
| Screen.WelcomeLine | src/editor.rs:138-146 | the banner is never wider than the terminal; its length is the width or 1 + padding + message length, whichever is smaller; it starts with ~ when the width is at least 1 |
| Screen.WelcomeLayout | src/editor.rs:139-144 | after the ~ come padding spaces and then the message, cut off at the width; a message narrower than the terminal is shown whole, and the columns left and right of it differ by at most one |
| Screen.WelcomeAtWidthForty | src/editor.rs:139-145 | at width 40 and version 1.0.0 the banner is ~, eight spaces and the 21-character message |
| Screen.Classify | src/editor.rs:128-134 | no contract of its own: the three-way choice between the document line, the banner and `~`; `Screen.NonEmptyNeverShowsBanner`, `Screen.BannerAtMostOnce` and `Screen.RowTextCases` state its behaviour |
| Screen.RowText | src/editor.rs:117-134 | no contract of its own: the text of one row, including `draw_row`'s rendering over columns 0 to the width; `Screen.RowTextCases` states it case by case |
| Screen.RowTextCases | src/editor.rs:117-134 | a row with a document line shows that line rendered over columns 0 to the width; otherwise it shows the banner if the document is empty and the row is height / 3, and ~ if not |
| Screen.DrawnRows | src/editor.rs:124-136 | drawing n rows takes exactly 2n operations |
| Screen.DrawnRowsLayout | src/editor.rs:126-135 | row r is drawn by operation 2r, which clears the line, and operation 2r + 1, which prints that row's text |
| Screen.NonEmptyNeverShowsBanner | src/editor.rs:128-131 | a non-empty document never shows the banner |
| Screen.BannerAtMostOnce | src/editor.rs:130 | the banner is shown on at most one row |
| Screen.EmptyDocumentShowsBanner | src/editor.rs:124-131 | an empty document with no line at row height / 3, on a terminal at least two rows high, prints the banner on that row |
| Screen.DrawnRowsOnlyLines | src/editor.rs:126-135 | drawing rows only clears lines and prints text; it never flushes, clears the screen or reads a key |
| Screen.Refresh | src/editor.rs:102-115 | a refresh starts by hiding the cursor and homing it, and ends by showing it and flushing; when quitting it is exactly the farewell (clear screen, "Goodbye."), wrapped by that start and end |
| Screen.RefreshLayout | src/editor.rs:109-112 | when not quitting, the middle of a refresh is the drawn rows, for all rows but the bottom one, followed by moving the cursor to its logical position |
| Screen.RefreshCounts | src/editor.rs:102-115 | every refresh flushes exactly once, and clears the screen exactly when it quits |
| Screen.RefreshReadsNoKey | src/editor.rs:102-115 | a refresh reads no key |
| Session.Run | src/editor.rs:42-54 | no contract of its own: the main loop as a function of the start state, the key stream and the size at each iteration; the `Session.Run*` lemmas and `Session.QuitKeyEndsRun` below state its behaviour, and `Editor.Editor.Run` is proved equal to it |
| Session.QuitKeyEndsRun | src/editor.rs:43-58 | after control-q is read, the next refresh paints the farewell and the loop ends with the flag up, the cursor unchanged and no further read |
| Session.RunWhenQuitting | src/editor.rs:43-49 | once the flag is up, exactly one more refresh (the farewell) runs and the loop exits without reading a key |
| Session.RunOutcome | src/editor.rs:42-58 | the loop ends on the farewell exactly when the flag was up at the start or control-q is among the keys; the final flag is up exactly then |
| Session.RunReadsPrefix | src/editor.rs:42-56 | the keys read are a prefix of the key stream; all keys are read when reading fails; none is read when the flag is up at the start |
| Session.RunReadsUntilQuit | src/editor.rs:47-58 | no key read before the last is control-q |
| Session.RunQuitsOnQuitKey | src/editor.rs:47-58 | when the loop quits and the flag was down at the start, the last key read is control-q |
| Session.RunRefreshesOncePerIteration | src/editor.rs:43-53 | the number of flushes is the number of keys read plus one: one refresh per iteration |
| Session.RunFarewellOnce | src/editor.rs:43-49 | the screen is cleared exactly once if the loop quits and never otherwise, and a quitting run ends with the farewell |
| Session.RunRefreshesBeforeEveryRead | src/editor.rs:43-53 | every key read comes directly after a flush, that is, after a complete refresh |
| Session.RunNoReadAfterFarewell | src/editor.rs:44-49 | no key is read after the screen has been cleared for the farewell |
| Session.RunMovesAlongReadKeys | src/editor.rs:42-99 | for any sequence of terminal sizes, the final cursor is where the keys read take it, applied one by one with `Moved`, each key against the size of its own iteration (`Navigation.MovedAlongSized`) |
| Session.RunMovesAlongFixedSize | src/editor.rs:42-99 | on a terminal of fixed size, the final cursor is where the keys read take it on that one size |
| Navigation.MovedAlongOneSize | src/editor.rs:75-77 | when every iteration has the same size, moving key by key against the sizes equals moving against that one size |
| Session.RunKeepsCursorInBounds | src/editor.rs:42-99 | on a terminal of fixed size, a cursor that starts within bounds is within bounds when the loop ends |
| Session.RunGuarantees | src/editor.rs:42-54 | every run satisfies `Session.Guaranteed`, which bundles the whole-run facts above. These are the outcome iff and the final flag; reads coming after flushes and never after the clear; the ClearScreen and Flush counts; a quitting trace ending with the farewell; the keys read being a prefix of the keys, all of them on read failure and none from a raised flag; control-q only last, and last when quitting on a key; and the final cursor given by `MovedAlongSized` over the keys read. It leaves out the exact traces of `RunWhenQuitting` and `QuitKeyEndsRun` and the fixed-size bound of `RunKeepsCursorInBounds` |
| Editor.Editor.constructor | src/editor.rs:33-38 | a new editor shows the given document, is not quitting, and has its cursor at the origin |
| Editor.Editor.MoveCursor | src/editor.rs:73-100 | the cursor becomes `Moved` of the old cursor, the key and the terminal size; no other field changes |
| Editor.Editor.ProcessKeypress | src/editor.rs:55-71 | the new state is `Interpret` of the old state, the key and the size; the key is passed in, and `Run` performs the read (src/editor.rs:56) |
| Editor.Editor.RefreshScreen | src/editor.rs:102-115 | the operations performed are `Refresh` of the current state |
| Editor.Editor.DrawRows | src/editor.rs:124-136 | the operations performed are `DrawnRows` for all rows but the bottom one |
| Editor.Editor.Run | src/editor.rs:42-54 | the trace, final state and outcome are those of `Session.Run` from the state at entry, and they satisfy `Session.Guaranteed` |

## Left out

- `Editor::default` reads the command line, opens the file and sets up the terminal (src/editor.rs:24-39). This is process and file I/O. The constructor takes the opened document instead.
- `die` panics on an I/O error (src/editor.rs:149-151). A failing key read is modelled as the loop ending with outcome `ReadFailed`. A flush that fails is not modelled: every refresh succeeds.
- The termion calls behind `Terminal` and the buffering of `println!` are I/O. Each one is a trace operation, and `PrintLine(t)` stands for printing `t` followed by a carriage return and a newline. Any coordinate conversion inside `Terminal::cursor_position` is not part of this model.
- `Row::render` and the inside of `Document` are not part of this model. They are the uninterpreted fields of `Screen.Document`.
- Editor.Editor.RefreshScreen: requires at least one terminal row unless quitting. At height 0 the `height - 1` in `draw_rows` underflows `u16`, and the model does not follow that case (src/editor.rs:126).
- Editor.Editor.Run: requires every size in `sizes` to have at least one row. That includes the farewell iteration, where the program never reaches `draw_rows`, so a 0-row terminal would do no harm there. It also includes sizes after the loop has stopped. `Session.Run` has the same precondition.
- Editor.Editor.Run: the terminal size is sampled once per iteration. The program asks for the size separately in `move_cursor`, `draw_rows`, `draw_row` and the banner, so a resize between those calls within one iteration is not modelled.
- Navigation.Moved: coordinates are unbounded naturals, not `usize`. The `saturating_add` in j and l only runs below a bound smaller than 2^16, so it never saturates.
- Screen.WelcomeLine: lengths are counted in characters, while the program counts bytes and truncates at a byte index. The two agree for an ASCII version string. A non-ASCII version is not modelled; the program could panic on it.
