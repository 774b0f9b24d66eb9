# Hecto viewport and ncurses todo list, modelled in Dafny

This project models the pure logic of two small terminal programs.

- **hecto** is a text viewer. It keeps a cursor inside a document of lines and scrolls a
  window over the document so the cursor stays on screen. The model covers:
  - cursor movement under the keys `h j k l ^ $ Ctrl-u Ctrl-d`;
  - the scroll rule;
  - the key dispatch, including `Ctrl-q`;
  - the choice of what each screen row shows and where the terminal cursor goes;
  - the draw/read/update loop;
  - the grapheme-based line renderer.
- **ncurses-todo** keeps two lists (to do, done), each with its own cursor. The model
  covers cursor movement, moving an item between the lists, the tab toggle, and the
  bookkeeping of its immediate-mode UI (row counter, open list, highlight choice).

Files:
- `outcomes.dfy` defines `Option` and `Result`.
- `hecto_row.dfy` (module `HectoRow`) models a line.
- `hecto_editor.dfy` (module `HectoEditor`) models movement, scrolling and key dispatch.
- `hecto_screen.dfy` (module `HectoScreen`) models the frame and the run loop.
- `todo_ui.dfy` (module `TodoUi`) models the UI state machine.
- `todo_app.dfy` (module `TodoApp`) models the lists, the keys and the main loop.

Modelling choices:
- A line is the sequence of its grapheme clusters. Each cluster is an opaque, non-empty
  byte string. The line's text is their concatenation.
- Positions are unbounded naturals.
- A panic of the source is an `Err` value: the `height - 1` underflow on an empty
  document, and the two UI assertions.
- The terminal size and the sequence of keys are parameters.

Behaviour the model fixes, following the code:
- `h` wraps to the end of the previous line and `l` wraps to the start of the next.
- The last row the cursor can reach is `|doc| - 1`.
- The quit flag is tested before each refresh. The "Goodbye." screen is never drawn
  (`HectoScreen.Run` proves every screen it draws is a frame).
- A window of height 0 leaves the cursor off screen, and `scroll` is then not idempotent.
  The visibility and idempotence results are stated for windows of at least 1×1.

## Model

| member | source | states |
|---|---|---|
| HectoRow.Concat | demo/hecto/src/row.rs:25-31 | the joined bytes of a run of clusters are at least as many as the clusters, and empty exactly when there are no clusters |
| HectoRow.From | demo/hecto/src/row.rs:9-18 | a row built from a text keeps exactly the given clusters, caches their count, and that count never exceeds the byte length |
| HectoRow.Len | demo/hecto/src/row.rs:37-40 | on a constructed row, `len()` is the grapheme count and is at most the byte length |
| HectoRow.IsEmpty | demo/hecto/src/row.rs:42-45 | on a constructed row, `is_empty()` on the cached count holds exactly when the text has no bytes |
| HectoRow.Window | demo/hecto/src/row.rs:21-33 | the intended slice: empty when start is not before end, at most `end - start` clusters, consecutive clusters from index `start`, everything from `start` when `end` reaches the line end |
| HectoRow.Render | demo/hecto/src/row.rs:21-33 | `render` as written, which clamps `end` to the byte length rather than the cluster count, yields exactly the joined clusters of the intended window |
| HectoRow.RenderEmptyWhenStartNotBeforeEnd | demo/hecto/src/row.rs:22-30 | `render(s, e)` with `s >= e` is the empty string |
| HectoRow.RenderWholeRow | demo/hecto/src/row.rs:21-33 | `render(0, n)` with `n >= len()` is the whole line |
| HectoRow.RenderClampsEnd | demo/hecto/src/row.rs:22-23 | an `end` past the line length renders as the line length |
| HectoRow.RenderWholeClusters | demo/hecto/src/row.rs:25-32 | the rendered text is whole clusters, consecutive from `start`, at most `end - start` of them |
| HectoEditor.Initial | demo/hecto/src/editor.rs:61-67 | the editor starts not quitting, with a cursor that lies on any document and is visible in any window of at least 1×1 |
| HectoEditor.Step | demo/hecto/src/editor.rs:130-171 | the `match key` alone fails exactly for `j`, `Ctrl-d`, and `l` at the row end, on an empty document; a row index on the document stays on it |
| HectoEditor.MoveCursor | demo/hecto/src/editor.rs:116-185 | a move fails exactly for `j`, `Ctrl-d`, and `l` at column 0 on an empty document; otherwise `x` ends within the new row's length and a cursor on the document stays on it |
| HectoEditor.OrdinalInjective | demo/hecto/src/editor.rs:130-159 | distinct cursor positions on the document have distinct reading-order places |
| HectoEditor.MoveRightSteps | demo/hecto/src/editor.rs:150-159 | `l` advances one stop in reading order: `(0, y+1)` at the end of a non-final row, unchanged at the end of the document |
| HectoEditor.MoveLeftSteps | demo/hecto/src/editor.rs:131-143 | `h` goes back one stop in reading order: `(len(row y-1), y-1)` at column 0 of a later row, unchanged at the origin |
| HectoEditor.LeftUndoesRight | demo/hecto/src/editor.rs:131-159 | `h` after `l` restores the cursor everywhere except the end of the document |
| HectoEditor.RightUndoesLeft | demo/hecto/src/editor.rs:131-159 | `l` after `h` restores the cursor everywhere except the origin |
| HectoEditor.VerticalSteps | demo/hecto/src/editor.rs:144-149 | `j` moves down one row unless on the last row, `k` moves up one row floored at 0, and `x` is re-capped to the new row |
| HectoEditor.PageSteps | demo/hecto/src/editor.rs:160-167 | `Ctrl-u` moves to `y - t` or row 0, `Ctrl-d` to `min(y + t, last row)`, with `x` re-capped |
| HectoEditor.PageDownThenUp | demo/hecto/src/editor.rs:160-167 | a page down that the document end does not clamp is undone row-wise by a page up |
| HectoEditor.LineEnds | demo/hecto/src/editor.rs:168-169 | `^` sets `x` to 0 and `$` sets `x` to the row's length, leaving `y` |
| HectoEditor.ScrollAxis | demo/hecto/src/editor.rs:99-113 | with a window of at least one line or column, the cursor lies inside it after scrolling |
| HectoEditor.Scroll | demo/hecto/src/editor.rs:92-114 | with a window of at least 1×1, the cursor is visible after `scroll` on both axes |
| HectoEditor.ScrollSnaps | demo/hecto/src/editor.rs:99-105 | a cursor below the window becomes its bottom row (`offset = y - height + 1`), one above it its top row, and a visible cursor leaves the offset unchanged |
| HectoEditor.ScrollMinimal | demo/hecto/src/editor.rs:99-113 | the new offset is the nearest to the old one among all offsets that show the cursor |
| HectoEditor.ScrollIdempotent | demo/hecto/src/editor.rs:99-113 | a second `scroll` with the same cursor and window size changes nothing |
| HectoEditor.ProcessKeypress | demo/hecto/src/editor.rs:70-90 | `Ctrl-q` raises the quit flag, other keys leave it as it was; non-movement keys leave the cursor alone; movement keys move as `move_cursor`; `scroll` always follows; failure only on an empty document |
| HectoEditor.KeypressKeepsViewport | demo/hecto/src/editor.rs:70-114 | every key keeps the cursor on the document and, in a non-empty window, on screen |
| HectoEditor.PanicsOnlyOnEmptyDocument | demo/hecto/src/editor.rs:144-167 | from a cursor on the document, a key panics exactly when the document is empty and the key is `j`, `l` or `Ctrl-d` |
| HectoScreen.DrawRows | demo/hecto/src/editor.rs:210-247 | the frame has one line per screen row; line `i` is document row `offset.y + i` rendered over `[offset.x, offset.x + width)`, or `~` when that row is absent |
| HectoScreen.ShownRowFitsWindow | demo/hecto/src/editor.rs:235-246 | a shown document row is the joined text of whole clusters of that row, consecutive from column `offset.x`, and never more of them than the window is wide |
| HectoScreen.ScreenCursor | demo/hecto/src/editor.rs:201-204 | the terminal cursor plus the offset gives back the logical cursor, and a coordinate left of or above the window becomes 0 |
| HectoScreen.ScreenCursorShowsCursor | demo/hecto/src/editor.rs:197-204 | with the viewport invariant, the terminal cursor is inside the window, on the screen row showing the cursor's line, over the very cluster the logical cursor designates |
| HectoScreen.RefreshScreen | demo/hecto/src/editor.rs:188-208 | the goodbye screen exactly when quitting; otherwise the lines `draw_rows` produces, one per screen row, and the screen-relative cursor |
| HectoScreen.Run | demo/hecto/src/editor.rs:28-44 | the loop draws only frames, never the goodbye screen; each frame's cursor is inside a non-empty window; it stops at the first `Ctrl-q`, after one frame per key read; it dies only on an empty document |
| HectoScreen.TwoRowsDownScrollsByOne | demo/hecto/src/editor.rs:92-148 | lines of lengths 5, 0, 10 in a 2×4 window: two `j` give cursor `(0, 2)` and offset row 1, which shows the empty line and four clusters of the last |
| TodoUi.Initial | demo/ncurses-todo/src/main.rs:11-16 | `Ui::default()` has no list open and its position at row 0, column 0 |
| TodoUi.Begin | demo/ncurses-todo/src/main.rs:19-22 | the next label goes to the given row and column; an open list stays open |
| TodoUi.PutLabel | demo/ncurses-todo/src/main.rs:47-53 | the given text is drawn with the given pair at the current row and column, and the row advances by exactly 1 |
| TodoUi.BeginList | demo/ncurses-todo/src/main.rs:24-27 | opening a list fails exactly when one is already open, and otherwise records its current id |
| TodoUi.ListElement | demo/ncurses-todo/src/main.rs:29-41 | an element fails exactly outside a list; inside one it is drawn at the current row and column with its text, in the highlight pair iff its id is the current id and in the regular pair otherwise, and the row advances by 1 |
| TodoUi.EndList | demo/ncurses-todo/src/main.rs:43-45 | closing leaves no list open and the position unchanged |
| TodoApp.Toggle | demo/ncurses-todo/src/main.rs:65-71 | toggling always changes the tab |
| TodoApp.ToggleTwice | demo/ncurses-todo/src/main.rs:65-71 | toggling twice is the identity |
| TodoApp.ListUp | demo/ncurses-todo/src/main.rs:78-82 | the cursor goes up one only when above 0, and a valid cursor stays valid |
| TodoApp.ListDown | demo/ncurses-todo/src/main.rs:84-88 | the cursor goes down one only when an item is below it, and a valid cursor stays valid |
| TodoApp.UpDownInverse | demo/ncurses-todo/src/main.rs:78-88 | up undoes down and down undoes up away from the ends of the list |
| TodoApp.ListTransfer | demo/ncurses-todo/src/main.rs:90-102 | with a cursor in range the current item moves to the end of `dst` and is removed from `src`, order otherwise kept; out of range both lists stay; items are conserved; the cursor keeps its index while it still points at an item, steps back by one when it fell off the end of a non-empty `src`, and ends valid |
| TodoApp.TransferKeepsDestinationCursor | demo/ncurses-todo/src/main.rs:90-102 | the destination list's own cursor stays valid through a transfer |
| TodoApp.Initial | demo/ncurses-todo/src/main.rs:115-123 | the program starts with both cursors valid |
| TodoApp.KeyChar | demo/ncurses-todo/src/main.rs:151-152 | the key is the low byte of the `getch` code: below 256 and congruent to the code modulo 256, for every `i32` code; so a code in 0..255 is itself and a code in -256..-1 is itself plus 256 |
| TodoApp.ShownUp | demo/ncurses-todo/src/main.rs:163-166 | `k` on the shown list conserves the items and keeps both cursors valid |
| TodoApp.ShownDown | demo/ncurses-todo/src/main.rs:167-170 | `j` on the shown list conserves the items and keeps both cursors valid |
| TodoApp.ShownTransfer | demo/ncurses-todo/src/main.rs:171-174 | space on the shown tab conserves the items of both lists together and keeps both cursors valid |
| TodoApp.HandleKey | demo/ncurses-todo/src/main.rs:152-181 | only `q` ends the loop; `k`/`j` are `list_up`/`list_down` on the shown list, space is `list_transfer` from the shown list to the other, `J` toggles the tab, any other key changes nothing; every key but `q` conserves the items of both lists and keeps both cursors valid |
| TodoApp.DrawElements | demo/ncurses-todo/src/main.rs:133-135 | inside a list each item becomes one label on the next row, highlighted iff its index is the current id; outside a list a non-empty list fails |
| TodoApp.DrawApp | demo/ncurses-todo/src/main.rs:126-146 | drawing a frame fails exactly when a list is left open |
| TodoApp.DrawAppHighlightsCursor | demo/ncurses-todo/src/main.rs:126-146 | with no list open, a frame is the header on row 0 and one row per item; item label `k` is at row `k`, column 0, with the tab's `- [ ] ` or `- [x] ` marker before the item's text; the highlighted row is exactly the item under the cursor and every other row is in the regular pair; some row is highlighted iff the cursor is in range |
| TodoApp.DrawFrame | demo/ncurses-todo/src/main.rs:126-148 | from a UI with no list open, a frame is drawn without failing and leaves no list open; it is the shown tab's header at row 0, column 0 in the regular pair, then for each item `k - 1` of the shown list the label at row `k`, column 0, with the tab's marker before the item's text, in the highlight pair exactly when the item is under the cursor and the regular pair otherwise |
| TodoApp.Run | demo/ncurses-todo/src/main.rs:125-182 | the UI assertions never fire; the loop stops at the first `q`, after one frame per key; every frame opens with a tab header label at row 0, column 0; items are conserved and both cursors stay valid |

## Left out

- Terminal I/O is not modelled: key reads, escape sequences, colours, flushing, `die`, the status and message bars, and the ncurses calls and set-up in `main`. A frame is modelled as row texts plus a cursor position, and a todo label as its text, position and colour pair.
- `Document::open`, the command-line argument, and the `Document` and `Terminal` modules are not part of this model. The document is a given sequence of rows. The terminal size is a fixed parameter, because hecto's terminal stores its size once.
- Unicode segmentation is not modelled. A line is given as its clusters.
- `draw_welcome_msg` is not modelled. It is never called.
- `Ui::end` (`todo!()`), the commented-out file save, and `Ui::col` beyond being copied are not modelled.
- `usize` overflow is not modelled: `saturating_add`, `offset.x + width` in `draw_row`, and `*list_curr + 1` all use unbounded naturals.
- Terminal width and height are `u16` in the source. The model does not bound them.
- HectoEditor.MoveCursor: `height - 1` on an empty document is modelled as the debug-build panic. A release build would wrap around instead, and that is not modelled.
- TodoApp.Run: the source always starts from `Initial()`, with both lists empty and no way to add items. The loop is stated for any valid start state.
- TodoApp.Run: the final state is promised to conserve the items and keep both cursors valid, not to equal `HandleKey` applied key by key, because that is a separate fact about each step. Per-frame contents beyond the header are promised by `DrawFrame`, not collected by the loop.
