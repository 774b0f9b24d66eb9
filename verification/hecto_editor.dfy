/** The cursor/viewport engine of the hecto editor: the cursor position inside the
    document, the scroll offset that keeps it on screen, and the key dispatch that
    moves the one and recomputes the other. Positions are unbounded naturals; the
    `usize` saturation at the top of the range is not modelled. */
module HectoEditor {
  import opened Outcomes
  import opened HectoRow

  /** A 0-indexed column `x` and row `y`: the logical cursor, or the top-left corner
      of the visible window within the document. */
  datatype Position = Position(x: nat, y: nat)

  /** The key events the editor tells apart; every other termion key is `OtherKey`. */
  datatype Key = Char(c: char) | Ctrl(c: char) | OtherKey

  /** The terminal window, in columns and rows. */
  datatype Size = Size(width: nat, height: nat)

  /** `height - 1` in `usize` with `height == 0`: the panic of an empty document. */
  datatype Panic = SubtractOverflow

  /** The editor state the key loop updates. */
  datatype Editor = Editor(shouldQuit: bool, cursor: Position, offset: Position)

  /** The rows of the open file, in order. */
  type Document = seq<Row>

  /** `Editor::default`: not quitting, cursor and offset at the origin. The start state
      already has the viewport invariant on any document and any non-empty window. */
  function Initial(): (ed: Editor)
    ensures !ed.shouldQuit
    ensures forall doc: Document :: CursorInDocument(doc, ed.cursor)
    ensures forall size: Size :: size.width >= 1 && size.height >= 1 ==> CursorVisible(ed.cursor, ed.offset, size)
  {
    Editor(false, Position(0, 0), Position(0, 0))
  }

  /** Length of row `y`, or 0 when the document has no such row. */
  function RowLen(doc: Document, y: nat): nat
  {
    if y < |doc| then doc[y].len else 0
  }

  /** `usize::saturating_sub`. */
  function SatSub(a: nat, b: nat): nat
  {
    if a >= b then a - b else 0
  }

  /** The cursor lies on the document: on an existing row (or at the origin of an
      empty document), at most one column past that row's last cluster. */
  predicate CursorInDocument(doc: Document, c: Position)
  {
    && (c.y < |doc| || (|doc| == 0 && c.y == 0))
    && c.x <= RowLen(doc, c.y)
  }

  /** The cursor lies inside the window anchored at `offset`. */
  predicate CursorVisible(c: Position, offset: Position, size: Size)
  {
    && offset.y <= c.y < offset.y + size.height
    && offset.x <= c.x < offset.x + size.width
  }

  // ---------------------------------------------------------------------------
  // Cursor movement

  /** The move a key asks for, before `x` is re-capped to the new row's length. It fails
      exactly where `height - 1` is evaluated on an empty document, and never takes a
      cursor on an existing row off the document's rows. */
  function Step(key: Key, cursor: Position, doc: Document, tHeight: nat): (r: Result<Position, Panic>)
    ensures r.Err? <==>
      |doc| == 0 && (key == Char('j') || key == Ctrl('d') || (key == Char('l') && cursor.x == RowLen(doc, cursor.y)))
    ensures r.Ok? && (cursor.y < |doc| || (|doc| == 0 && cursor.y == 0)) ==>
      r.value.y < |doc| || (|doc| == 0 && r.value.y == 0)
  {
    var x, y := cursor.x, cursor.y;
    var width := RowLen(doc, y);
    match key
    case Char('h') =>
      if x > 0 then Ok(Position(x - 1, y))
      else if y > 0 then Ok(Position(RowLen(doc, y - 1), y - 1))
      else Ok(cursor)
    case Char('j') =>
      if |doc| == 0 then Err(SubtractOverflow)
      else if y < |doc| - 1 then Ok(Position(x, y + 1))
      else Ok(cursor)
    case Char('k') => Ok(Position(x, SatSub(y, 1)))
    case Char('l') =>
      if x == width then
        if |doc| == 0 then Err(SubtractOverflow)
        else if y < |doc| - 1 then Ok(Position(0, y + 1))
        else Ok(cursor)
      else if x < width then Ok(Position(x + 1, y))
      else Ok(cursor)
    case Ctrl('u') => Ok(Position(x, if y > tHeight then y - tHeight else 0))
    case Ctrl('d') =>
      if |doc| == 0 then Err(SubtractOverflow)
      else Ok(Position(x, if y + tHeight < |doc| - 1 then y + tHeight else |doc| - 1))
    case Char('^') => Ok(Position(0, y))
    case Char('$') => Ok(Position(width, y))
    case _ => Ok(cursor)
  }

  /** `move_cursor`: the requested move, then `x` capped to the length of the row the
      cursor ends on. `tHeight` is the terminal height used by the page keys. It fails
      exactly where the source evaluates `height - 1` on an empty document. */
  function MoveCursor(key: Key, cursor: Position, doc: Document, tHeight: nat): (r: Result<Position, Panic>)
    ensures r.Err? <==>
      |doc| == 0 && (key == Char('j') || key == Ctrl('d') || (key == Char('l') && cursor.x == 0))
    ensures r.Ok? ==> r.value.x <= RowLen(doc, r.value.y)
    ensures r.Ok? && CursorInDocument(doc, cursor) ==> CursorInDocument(doc, r.value)
  {
    match Step(key, cursor, doc, tHeight)
    case Err(e) => Err(e)
    case Ok(p) => Ok(Position(Min(p.x, RowLen(doc, p.y)), p.y))
  }

  // ---------------------------------------------------------------------------
  // Reading order: `l` and `h` walk the document one cursor stop at a time

  /** Cursor stops on the rows above `y`: a row of length n offers n + 1 columns. */
  function StopsBefore(doc: Document, y: nat): nat
  {
    if y == 0 then 0 else StopsBefore(doc, y - 1) + RowLen(doc, y - 1) + 1
  }

  /** The place of a cursor position in reading order. */
  function Ordinal(doc: Document, p: Position): nat
  {
    StopsBefore(doc, p.y) + p.x
  }

  /** The last cursor stop of a non-empty document: the end of its last row. */
  predicate AtDocumentEnd(doc: Document, p: Position)
  {
    |doc| > 0 && p.y == |doc| - 1 && p.x == RowLen(doc, p.y)
  }

  lemma {:induction false} StopsBeforeGrows(doc: Document, y1: nat, y2: nat)
    requires y1 < y2
    ensures StopsBefore(doc, y2) >= StopsBefore(doc, y1) + RowLen(doc, y1) + 1
    decreases y2
  {
    if y2 > y1 + 1 {
      StopsBeforeGrows(doc, y1, y2 - 1);
    }
  }

  /** Different positions on the document have different ordinals, so the ordinal
      is a faithful reading-order index. */
  lemma OrdinalInjective(doc: Document, p: Position, q: Position)
    requires CursorInDocument(doc, p) && CursorInDocument(doc, q)
    requires Ordinal(doc, p) == Ordinal(doc, q)
    ensures p == q
  {
    if p.y < q.y {
      StopsBeforeGrows(doc, p.y, q.y);
    } else if q.y < p.y {
      StopsBeforeGrows(doc, q.y, p.y);
    }
  }

  /** `l` advances the cursor to the next stop in reading order, wrapping from the end
      of a row to the start of the next; at the end of the document it stays put. */
  lemma MoveRightSteps(doc: Document, c: Position, t: nat)
    requires |doc| > 0 && CursorInDocument(doc, c)
    ensures MoveCursor(Char('l'), c, doc, t).Ok?
    ensures AtDocumentEnd(doc, c) ==> MoveCursor(Char('l'), c, doc, t).value == c
    ensures !AtDocumentEnd(doc, c) ==>
      Ordinal(doc, MoveCursor(Char('l'), c, doc, t).value) == Ordinal(doc, c) + 1
    ensures c.x == RowLen(doc, c.y) && c.y < |doc| - 1 ==>
      MoveCursor(Char('l'), c, doc, t).value == Position(0, c.y + 1)
  {
  }

  /** `h` moves the cursor to the previous stop in reading order, wrapping from the
      start of a row to the end of the previous one; at the origin it stays put. */
  lemma MoveLeftSteps(doc: Document, c: Position, t: nat)
    requires CursorInDocument(doc, c)
    ensures MoveCursor(Char('h'), c, doc, t).Ok?
    ensures c == Position(0, 0) ==> MoveCursor(Char('h'), c, doc, t).value == c
    ensures c != Position(0, 0) ==>
      Ordinal(doc, MoveCursor(Char('h'), c, doc, t).value) + 1 == Ordinal(doc, c)
    ensures c.x == 0 && c.y > 0 ==>
      MoveCursor(Char('h'), c, doc, t).value == Position(RowLen(doc, c.y - 1), c.y - 1)
  {
  }

  /** `h` undoes `l` everywhere but at the end of the document. */
  lemma LeftUndoesRight(doc: Document, c: Position, t: nat)
    requires |doc| > 0 && CursorInDocument(doc, c) && !AtDocumentEnd(doc, c)
    ensures MoveCursor(Char('l'), c, doc, t).Ok?
    ensures MoveCursor(Char('h'), MoveCursor(Char('l'), c, doc, t).value, doc, t) == Ok(c)
  {
    MoveRightSteps(doc, c, t);
    var d := MoveCursor(Char('l'), c, doc, t).value;
    MoveLeftSteps(doc, d, t);
    OrdinalInjective(doc, MoveCursor(Char('h'), d, doc, t).value, c);
  }

  /** `l` undoes `h` everywhere but at the origin. */
  lemma RightUndoesLeft(doc: Document, c: Position, t: nat)
    requires CursorInDocument(doc, c) && c != Position(0, 0)
    ensures MoveCursor(Char('h'), c, doc, t).Ok?
    ensures MoveCursor(Char('l'), MoveCursor(Char('h'), c, doc, t).value, doc, t) == Ok(c)
  {
    MoveLeftSteps(doc, c, t);
    var d := MoveCursor(Char('h'), c, doc, t).value;
    MoveRightSteps(doc, d, t);
    OrdinalInjective(doc, MoveCursor(Char('l'), d, doc, t).value, c);
  }

  /** `j` and `k` move one row within the document; `x` is re-capped to the new row. */
  lemma VerticalSteps(doc: Document, c: Position, t: nat)
    requires |doc| > 0 && CursorInDocument(doc, c)
    ensures var y := if c.y + 1 < |doc| then c.y + 1 else c.y;
      MoveCursor(Char('j'), c, doc, t) == Ok(Position(Min(c.x, RowLen(doc, y)), y))
    ensures var y := SatSub(c.y, 1);
      MoveCursor(Char('k'), c, doc, t) == Ok(Position(Min(c.x, RowLen(doc, y)), y))
  {
  }

  /** The page keys move by the terminal height, clamped to the document: `Ctrl-u` to
      `y - t` or row 0, `Ctrl-d` to `min(y + t, last row)`. */
  lemma PageSteps(doc: Document, c: Position, t: nat)
    ensures var y := SatSub(c.y, t);
      MoveCursor(Ctrl('u'), c, doc, t) == Ok(Position(Min(c.x, RowLen(doc, y)), y))
    ensures |doc| > 0 ==> var y := Min(c.y + t, |doc| - 1);
      MoveCursor(Ctrl('d'), c, doc, t) == Ok(Position(Min(c.x, RowLen(doc, y)), y))
  {
  }

  /** A page down that is not clamped by the end of the document is undone, as far as
      the row goes, by a page up. */
  lemma PageDownThenUp(doc: Document, c: Position, t: nat)
    requires c.y + t < |doc|
    ensures MoveCursor(Ctrl('d'), c, doc, t).Ok?
    ensures var d := MoveCursor(Ctrl('d'), c, doc, t).value;
      MoveCursor(Ctrl('u'), d, doc, t).Ok? && MoveCursor(Ctrl('u'), d, doc, t).value.y == c.y
  {
  }

  /** `^` and `$` move to the start and the end of the current row. */
  lemma LineEnds(doc: Document, c: Position, t: nat)
    ensures MoveCursor(Char('^'), c, doc, t) == Ok(Position(0, c.y))
    ensures MoveCursor(Char('$'), c, doc, t) == Ok(Position(RowLen(doc, c.y), c.y))
  {
  }

  // ---------------------------------------------------------------------------
  // Scrolling

  /** One axis of `scroll`: a cursor past the far edge becomes the last visible line
      or column; a cursor before the near edge becomes the first; otherwise the offset
      stays. With a non-empty window the cursor is visible afterwards. */
  function ScrollAxis(c: nat, o: nat, extent: nat): (o': nat)
    ensures extent >= 1 ==> o' <= c < o' + extent
  {
    if c >= o + extent then SatSub(c, extent) + 1
    else if c < o then c
    else o
  }

  /** `scroll`: recompute the offset from the cursor and the window size. */
  function Scroll(cursor: Position, offset: Position, size: Size): (o: Position)
    ensures size.height >= 1 && size.width >= 1 ==> CursorVisible(cursor, o, size)
  {
    Position(ScrollAxis(cursor.x, offset.x, size.width), ScrollAxis(cursor.y, offset.y, size.height))
  }

  /** Scrolling snaps by exactly the overflow: a cursor below the window becomes its
      bottom row, a cursor above it its top row, and a visible cursor moves nothing. */
  lemma ScrollSnaps(c: nat, o: nat, extent: nat)
    requires extent >= 1
    ensures c >= o + extent ==> ScrollAxis(c, o, extent) == c - extent + 1
    ensures c < o ==> ScrollAxis(c, o, extent) == c
    ensures o <= c < o + extent ==> ScrollAxis(c, o, extent) == o
  {
  }

  function Dist(a: nat, b: nat): nat
  {
    if a <= b then b - a else a - b
  }

  /** The new offset is the one nearest the old among all offsets that show the
      cursor: scrolling never moves the window further than it must. */
  lemma ScrollMinimal(c: nat, o: nat, extent: nat, other: nat)
    requires other <= c < other + extent
    ensures Dist(ScrollAxis(c, o, extent), o) <= Dist(other, o)
  {
  }

  /** A second `scroll` with the same cursor and window size changes nothing. */
  lemma ScrollIdempotent(cursor: Position, offset: Position, size: Size)
    requires size.height >= 1 && size.width >= 1
    ensures Scroll(cursor, Scroll(cursor, offset, size), size) == Scroll(cursor, offset, size)
  {
    var o := Scroll(cursor, offset, size);
    ScrollSnaps(cursor.x, o.x, size.width);
    ScrollSnaps(cursor.y, o.y, size.height);
  }

  // ---------------------------------------------------------------------------
  // Key dispatch

  /** The keys `process_keypress` hands to `move_cursor`. */
  predicate IsMoveKey(key: Key)
  {
    key in {Char('h'), Char('j'), Char('k'), Char('l'), Ctrl('u'), Ctrl('d'), Char('^'), Char('$')}
  }

  /** `process_keypress` after the key is read: a movement key moves the cursor,
      `Ctrl-q` raises the quit flag, any other key does nothing; then, whatever the
      key, the offset is recomputed by `scroll`. */
  function ProcessKeypress(ed: Editor, key: Key, doc: Document, size: Size): (r: Result<Editor, Panic>)
    ensures r.Err? ==> |doc| == 0 && IsMoveKey(key)
    ensures r.Ok? ==> r.value.shouldQuit == (ed.shouldQuit || key == Ctrl('q'))
    ensures r.Ok? ==> r.value.offset == Scroll(r.value.cursor, ed.offset, size)
    ensures !IsMoveKey(key) ==> r.Ok? && r.value.cursor == ed.cursor
    ensures IsMoveKey(key) && r.Ok? ==> Ok(r.value.cursor) == MoveCursor(key, ed.cursor, doc, size.height)
  {
    var moved := if IsMoveKey(key) then MoveCursor(key, ed.cursor, doc, size.height) else Ok(ed.cursor);
    match moved
    case Err(e) => Err(e)
    case Ok(c) => Ok(Editor(ed.shouldQuit || key == Ctrl('q'), c, Scroll(c, ed.offset, size)))
  }

  /** The viewport invariant every key re-establishes: the cursor stays on the
      document and, in a non-empty window, on screen. */
  lemma KeypressKeepsViewport(ed: Editor, key: Key, doc: Document, size: Size)
    requires CursorInDocument(doc, ed.cursor)
    requires ProcessKeypress(ed, key, doc, size).Ok?
    ensures var next := ProcessKeypress(ed, key, doc, size).value;
      && CursorInDocument(doc, next.cursor)
      && (size.height >= 1 && size.width >= 1 ==> CursorVisible(next.cursor, next.offset, size))
  {
  }

  /** On a document with rows no key panics. On an empty one, exactly `j`, `Ctrl-d`
      and `l` panic (for `l`, because the cursor there is always at column 0). */
  lemma PanicsOnlyOnEmptyDocument(ed: Editor, key: Key, doc: Document, size: Size)
    requires CursorInDocument(doc, ed.cursor)
    ensures ProcessKeypress(ed, key, doc, size).Err? <==>
      |doc| == 0 && key in {Char('j'), Char('l'), Ctrl('d')}
  {
  }
}
