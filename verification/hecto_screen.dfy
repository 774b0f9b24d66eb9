/** What hecto puts on the terminal each cycle, and the loop that alternates drawing
    with reading a key. The escape sequences, colours, status and message bars are
    terminal output and are not modelled; a frame is the list of row texts and the
    screen position of the terminal cursor. */
module HectoScreen {
  import opened Outcomes
  import opened HectoRow
  import opened HectoEditor

  /** The text drawn for a screen row past the end of the document. */
  const Filler: seq<byte> := [0x7E]   // "~"

  /** One refresh: either the goodbye message or a painted frame. */
  datatype Screen = Goodbye | Painted(rows: seq<seq<byte>>, cursor: Position)

  /** How a run of the key loop ended. */
  datatype Stop = Quit(consumed: nat) | InputExhausted | Died(panic: Panic)

  /** Every row the document holds has its cluster count cached. */
  predicate DocumentValid(doc: Document)
  {
    forall i :: 0 <= i < |doc| ==> Valid(doc[i])
  }

  /** The rule `draw_rows` with `draw_row` follows for screen row `i`: document row
      `offset.y + i` sliced to the columns `[offset.x, offset.x + width)`, or the filler
      when the document has no such row. */
  function ShownRow(doc: Document, offset: Position, size: Size, i: nat): seq<byte>
  {
    if offset.y + i < |doc| then Render(doc[offset.y + i], offset.x, offset.x + size.width) else Filler
  }

  /** A shown document row is whole clusters of that row, consecutive from column
      `offset.x`, and never more of them than the window is wide. */
  lemma ShownRowFitsWindow(doc: Document, offset: Position, size: Size, i: nat)
    requires offset.y + i < |doc|
    ensures var w := Window(doc[offset.y + i].clusters, offset.x, offset.x + size.width);
      && ShownRow(doc, offset, size, i) == Concat(w)
      && |w| <= size.width
      && forall k :: 0 <= k < |w| ==>
           offset.x + k < |doc[offset.y + i].clusters| && w[k] == doc[offset.y + i].clusters[offset.x + k]
  {
  }

  /** `draw_rows`: one line per screen row, top to bottom, each chosen by `ShownRow`. */
  method DrawRows(doc: Document, offset: Position, size: Size) returns (frame: seq<seq<byte>>)
    ensures |frame| == size.height
    ensures forall i :: 0 <= i < |frame| ==> frame[i] == ShownRow(doc, offset, size, i)
  {
    frame := [];
    var rowId := 0;
    while rowId < size.height
      invariant rowId <= size.height
      invariant |frame| == rowId
      invariant forall i {:trigger frame[i]} :: 0 <= i < rowId ==> frame[i] == ShownRow(doc, offset, size, i)
    {
      var line := ShownRow(doc, offset, size, rowId);
      frame := frame + [line];
      rowId := rowId + 1;
    }
  }

  /** Where the terminal cursor goes: the logical cursor made relative to the window,
      each coordinate subtracted with saturation. */
  function ScreenCursor(cursor: Position, offset: Position): (s: Position)
    ensures offset.x <= cursor.x ==> offset.x + s.x == cursor.x
    ensures offset.y <= cursor.y ==> offset.y + s.y == cursor.y
    ensures cursor.x < offset.x ==> s.x == 0
    ensures cursor.y < offset.y ==> s.y == 0
  {
    Position(SatSub(cursor.x, offset.x), SatSub(cursor.y, offset.y))
  }

  /** With the viewport invariant in force, the terminal cursor sits inside the window,
      on the screen row that shows the cursor's document row, and over the very
      cluster the logical cursor designates (when it is not at the end of the row). */
  lemma ScreenCursorShowsCursor(doc: Document, cursor: Position, offset: Position, size: Size)
    requires DocumentValid(doc)
    requires CursorInDocument(doc, cursor)
    requires CursorVisible(cursor, offset, size)
    ensures var s := ScreenCursor(cursor, offset);
      && s.x < size.width && s.y < size.height
      && offset.y + s.y == cursor.y
    ensures cursor.x < RowLen(doc, cursor.y) ==>
      var s := ScreenCursor(cursor, offset);
      var w := Window(doc[cursor.y].clusters, offset.x, offset.x + size.width);
      s.x < |w| && w[s.x] == doc[cursor.y].clusters[cursor.x]
  {
    if cursor.x < RowLen(doc, cursor.y) {
      var s := ScreenCursor(cursor, offset);
      var c := doc[cursor.y].clusters;
      var w := Window(c, offset.x, offset.x + size.width);
      assert |c| == doc[cursor.y].len;
      assert w == c[offset.x..Min(offset.x + size.width, |c|)];
    }
  }

  /** `refresh_screen`: the goodbye message once quitting, otherwise the rows and the
      screen cursor. */
  method RefreshScreen(ed: Editor, doc: Document, size: Size) returns (screen: Screen)
    ensures ed.shouldQuit <==> screen.Goodbye?
    ensures screen.Painted? ==> screen.cursor == ScreenCursor(ed.cursor, ed.offset)
    ensures screen.Painted? ==> |screen.rows| == size.height
    ensures screen.Painted? ==> forall i :: 0 <= i < size.height ==>
      screen.rows[i] == ShownRow(doc, ed.offset, size, i)
  {
    if ed.shouldQuit {
      screen := Goodbye;
    } else {
      var rows := DrawRows(doc, ed.offset, size);
      screen := Painted(rows, ScreenCursor(ed.cursor, ed.offset));
    }
  }

  /** `Editor::run` over a given sequence of keys: check the quit flag, refresh, read a
      key, process it; stop on quit, on a panic, or when the keys run out. The quit
      flag is tested before the refresh, so the goodbye message is never drawn, and
      each frame keeps the terminal cursor inside a non-empty window. */
  method Run(doc: Document, size: Size, keys: seq<Key>) returns (screens: seq<Screen>, stop: Stop)
    ensures forall k :: 0 <= k < |screens| ==> screens[k].Painted?
    ensures size.width >= 1 && size.height >= 1 ==> forall k :: 0 <= k < |screens| ==>
      screens[k].cursor.x < size.width && screens[k].cursor.y < size.height
    ensures stop.Quit? ==>
      && 1 <= stop.consumed == |screens| <= |keys|
      && keys[stop.consumed - 1] == Ctrl('q')
      && forall j :: 0 <= j < stop.consumed - 1 ==> keys[j] != Ctrl('q')
    ensures stop.InputExhausted? ==>
      |screens| == |keys| + 1 && forall j :: 0 <= j < |keys| ==> keys[j] != Ctrl('q')
    ensures stop.Died? ==> |doc| == 0
  {
    var ed := Initial();
    var i := 0;
    screens := [];
    while !ed.shouldQuit
      invariant i <= |keys|
      invariant |screens| == i
      invariant CursorInDocument(doc, ed.cursor)
      invariant size.width >= 1 && size.height >= 1 ==> CursorVisible(ed.cursor, ed.offset, size)
      invariant forall k :: 0 <= k < |screens| ==> screens[k].Painted?
      invariant size.width >= 1 && size.height >= 1 ==> forall k :: 0 <= k < |screens| ==>
        screens[k].cursor.x < size.width && screens[k].cursor.y < size.height
      invariant ed.shouldQuit <==> i > 0 && keys[i - 1] == Ctrl('q')
      invariant forall j :: 0 <= j < i - 1 ==> keys[j] != Ctrl('q')
      decreases |keys| - i
    {
      var screen := RefreshScreen(ed, doc, size);
      if size.width >= 1 && size.height >= 1 {
        ScreenCursorInWindow(ed.cursor, ed.offset, size);
      }
      screens := screens + [screen];
      if i == |keys| {
        stop := InputExhausted;
        return;
      }
      var next := ProcessKeypress(ed, keys[i], doc, size);
      i := i + 1;
      if next.Err? {
        stop := Died(next.error);
        return;
      }
      KeypressKeepsViewport(ed, keys[i - 1], doc, size);
      ed := next.value;
    }
    stop := Quit(i);
  }

  /** The visibility half of `ScreenCursorShowsCursor`, which needs no document. */
  lemma ScreenCursorInWindow(cursor: Position, offset: Position, size: Size)
    requires CursorVisible(cursor, offset, size)
    ensures ScreenCursor(cursor, offset).x < size.width
    ensures ScreenCursor(cursor, offset).y < size.height
  {
  }

  /** A line of `n` one-byte clusters. */
  function AsciiRow(n: nat): (row: Row)
    ensures Valid(row) && Len(row) == n
  {
    From(seq(n, _ => [0x61]))
  }

  /** Lines of lengths 5, 0 and 10 in a window of 2 rows by 4 columns: two presses of
      `j` put the cursor at (0, 2) and scroll down by one row, so the frame shows the
      empty line 1 and the first four clusters of line 2. */
  lemma TwoRowsDownScrollsByOne()
    ensures var doc := [AsciiRow(5), AsciiRow(0), AsciiRow(10)];
      var size := Size(4, 2);
      var e1 := ProcessKeypress(Initial(), Char('j'), doc, size);
      e1.Ok? &&
      var e2 := ProcessKeypress(e1.value, Char('j'), doc, size);
      && e2.Ok?
      && e2.value.cursor == Position(0, 2)
      && e2.value.offset == Position(0, 1)
      && Render(doc[1], 0, 4) == []
      && Render(doc[2], 0, 4) == Concat(doc[2].clusters[..4])
  {
    var doc := [AsciiRow(5), AsciiRow(0), AsciiRow(10)];
  }
}
