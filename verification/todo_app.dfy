/** The ncurses todo list: two lists of items (to do, done), a cursor into each, and a
    tab that selects which list is shown. Keys move the cursor of the shown list,
    transfer its current item to the other list, or switch tabs. */
module TodoApp {
  import opened Outcomes
  import opened TodoUi

  /** `getch()` returns an `i32`. */
  newtype i32 = x: int | -0x8000_0000 <= x < 0x8000_0000

  /** Which list the screen shows. */
  datatype Status = Todo | Done

  /** The program state of `main`. */
  datatype App = App(todos: seq<string>, dones: seq<string>, todoCurr: nat, doneCurr: nat, status: Status)

  /** The source and destination lists after a transfer, with the source's cursor. */
  datatype Transfer = Transfer(dst: seq<string>, src: seq<string>, srcCurr: nat)

  /** `Status::toggle`: the other tab. */
  function Toggle(s: Status): (t: Status)
    ensures t != s
  {
    match s
    case Todo => Done
    case Done => Todo
  }

  /** Toggling twice returns to the same tab. */
  lemma ToggleTwice(s: Status)
    ensures Toggle(Toggle(s)) == s
  {
  }

  /** A cursor designates an item of its list, or is 0 on an empty list. */
  predicate CursorValid(list: seq<string>, curr: nat)
  {
    curr < |list| || (|list| == 0 && curr == 0)
  }

  /** `list_up`: one item up unless already at the top. The list is not touched, so only
      the new cursor is returned. */
  function ListUp(list: seq<string>, curr: nat): (c: nat)
    ensures curr > 0 ==> c + 1 == curr
    ensures curr == 0 ==> c == 0
    ensures CursorValid(list, curr) ==> CursorValid(list, c)
  {
    if curr > 0 then curr - 1 else curr
  }

  /** `list_down`: one item down unless already at the last item. */
  function ListDown(list: seq<string>, curr: nat): (c: nat)
    ensures curr + 1 < |list| ==> c == curr + 1
    ensures curr + 1 >= |list| ==> c == curr
    ensures CursorValid(list, curr) ==> CursorValid(list, c)
  {
    if curr + 1 < |list| then curr + 1 else curr
  }

  /** Up undoes down, and down undoes up, away from the ends of the list. */
  lemma UpDownInverse(list: seq<string>, curr: nat)
    ensures curr + 1 < |list| ==> ListUp(list, ListDown(list, curr)) == curr
    ensures 0 < curr < |list| ==> ListDown(list, ListUp(list, curr)) == curr
  {
  }

  /** `list_transfer`: move the current item of `src` to the end of `dst`, then pull the
      cursor back if it fell off the end of a non-empty `src`. */
  function ListTransfer(dst: seq<string>, src: seq<string>, srcCurr: nat): (t: Transfer)
    ensures srcCurr < |src| ==>
      t.dst == dst + [src[srcCurr]] && t.src == src[..srcCurr] + src[srcCurr + 1..]
    ensures srcCurr >= |src| ==> t.dst == dst && t.src == src
    ensures multiset(t.dst) + multiset(t.src) == multiset(dst) + multiset(src)
    ensures |t.dst| + |t.src| == |dst| + |src|
    ensures srcCurr <= |src| ==> CursorValid(t.src, t.srcCurr)
    ensures srcCurr < |t.src| ==> t.srcCurr == srcCurr
    ensures 0 < |t.src| == srcCurr ==> t.srcCurr == srcCurr - 1
  {
    var (dst', src') :=
      if srcCurr < |src| then (dst + [src[srcCurr]], src[..srcCurr] + src[srcCurr + 1..])
      else (dst, src);
    assert srcCurr < |src| ==> src == src[..srcCurr] + [src[srcCurr]] + src[srcCurr + 1..];
    var curr' := if |src'| != 0 && srcCurr == |src'| then srcCurr - 1 else srcCurr;
    Transfer(dst', src', curr')
  }

  /** A transfer never invalidates the destination's own cursor: its list only grows. */
  lemma TransferKeepsDestinationCursor(dst: seq<string>, src: seq<string>, srcCurr: nat, dstCurr: nat)
    requires CursorValid(dst, dstCurr)
    ensures CursorValid(ListTransfer(dst, src, srcCurr).dst, dstCurr)
  {
  }

  /** Both cursors valid: what every key of the main loop keeps. */
  predicate AppValid(app: App)
  {
    CursorValid(app.todos, app.todoCurr) && CursorValid(app.dones, app.doneCurr)
  }

  /** All items of both lists. */
  function Items(app: App): multiset<string>
  {
    multiset(app.todos) + multiset(app.dones)
  }

  /** The state `main` starts from: two empty lists, the todo tab. */
  function Initial(): (app: App)
    ensures AppValid(app)
  {
    App([], [], 0, 0, Todo)
  }

  /** `getch() as u8 as char`: the low byte of the key code. */
  function KeyChar(code: i32): (c: char)
    ensures c as int < 256
    ensures (c as int - code as int) % 256 == 0
    ensures 0 <= code < 256 ==> c as int == code as int
    ensures -256 <= code < 0 ==> c as int == code as int + 256
  {
    ((code as int) % 256) as char
  }

  /** `k`: `list_up` on the list of the shown tab. */
  function ShownUp(app: App): (a: App)
    ensures Items(a) == Items(app)
    ensures AppValid(app) ==> AppValid(a)
  {
    if app.status == Todo then app.(todoCurr := ListUp(app.todos, app.todoCurr))
    else app.(doneCurr := ListUp(app.dones, app.doneCurr))
  }

  /** `j`: `list_down` on the list of the shown tab. */
  function ShownDown(app: App): (a: App)
    ensures Items(a) == Items(app)
    ensures AppValid(app) ==> AppValid(a)
  {
    if app.status == Todo then app.(todoCurr := ListDown(app.todos, app.todoCurr))
    else app.(doneCurr := ListDown(app.dones, app.doneCurr))
  }

  /** Space: `list_transfer` from the list of the shown tab to the other list. */
  function ShownTransfer(app: App): (a: App)
    ensures Items(a) == Items(app)
    ensures AppValid(app) ==> AppValid(a)
  {
    if app.status == Todo then
      var t := ListTransfer(app.dones, app.todos, app.todoCurr);
      // Multiset union commutes, but only pointwise: the todo list is the source here.
      assert forall x :: (multiset(t.src) + multiset(t.dst))[x] == (multiset(t.dst) + multiset(t.src))[x];
      assert forall x :: (multiset(app.todos) + multiset(app.dones))[x] == (multiset(app.dones) + multiset(app.todos))[x];
      app.(dones := t.dst, todos := t.src, todoCurr := t.srcCurr)
    else
      var t := ListTransfer(app.todos, app.dones, app.doneCurr);
      app.(todos := t.dst, dones := t.src, doneCurr := t.srcCurr)
  }

  /** One key of the main loop, after `getch() as u8 as char`: `q` ends it (no next
      state); `k` and `j` move the shown list's cursor up and down; space transfers the
      shown list's current item to the other list; `J` switches tabs; any other key
      leaves the state as it is. Every key but `q` conserves the items and keeps both
      cursors valid. */
  function HandleKey(app: App, key: char): (r: Option<App>)
    ensures r.None? <==> key == 'q'
    ensures key == 'k' ==> r == Some(
      if app.status == Todo then app.(todoCurr := ListUp(app.todos, app.todoCurr))
      else app.(doneCurr := ListUp(app.dones, app.doneCurr)))
    ensures key == 'j' ==> r == Some(
      if app.status == Todo then app.(todoCurr := ListDown(app.todos, app.todoCurr))
      else app.(doneCurr := ListDown(app.dones, app.doneCurr)))
    ensures key == ' ' && app.status == Todo ==>
      var t := ListTransfer(app.dones, app.todos, app.todoCurr);
      r == Some(app.(dones := t.dst, todos := t.src, todoCurr := t.srcCurr))
    ensures key == ' ' && app.status == Done ==>
      var t := ListTransfer(app.todos, app.dones, app.doneCurr);
      r == Some(app.(todos := t.dst, dones := t.src, doneCurr := t.srcCurr))
    ensures key == 'J' ==> r == Some(app.(status := Toggle(app.status)))
    ensures key !in {'q', 'k', 'j', ' ', 'J'} ==> r == Some(app)
    ensures r.Some? ==> Items(r.value) == Items(app)
    ensures r.Some? && AppValid(app) ==> AppValid(r.value)
  {
    match key
    case 'q' => None
    case 'k' => Some(ShownUp(app))
    case 'j' => Some(ShownDown(app))
    case ' ' => Some(ShownTransfer(app))
    case 'J' => Some(app.(status := Toggle(app.status)))
    case _ => Some(app)
  }

  // ---------------------------------------------------------------------------
  // Drawing

  /** The labels drawn for one frame, and the UI state after them. */
  datatype Frame = Frame(ui: Ui, labels: seq<Label>)

  /** The highlight pair an element with `id` gets in a list whose current id is `curr`. */
  function PairFor(id: nat, curr: nat): int
  {
    if id == curr then HighlightPair else RegularPair
  }

  /** The loop `for (index, item) in items.iter().enumerate()` calling `list_element`,
      with ids counted from `first`. Inside an open list each item becomes one label on
      the next row, highlighted exactly when its id is the list's current id. */
  function DrawElements(ui: Ui, items: seq<string>, prefix: string, first: nat): (r: Result<Frame, UiError>)
    ensures ui.listCurr.None? && |items| > 0 ==> r == Err(ElementOutsideList)
    ensures ui.listCurr.Some? ==>
      && r.Ok?
      && r.value.ui == ui.(row := ui.row + |items|)
      && |r.value.labels| == |items|
      && forall k :: 0 <= k < |items| ==>
           r.value.labels[k] == Label(ui.row + k, ui.col, prefix + items[k], PairFor(first + k, ui.listCurr.value))
    decreases |items|
  {
    if |items| == 0 then Ok(Frame(ui, []))
    else
      match ListElement(ui, prefix + items[0], first)
      case Err(e) => Err(e)
      case Ok(d) =>
        match DrawElements(d.ui, items[1..], prefix, first + 1)
        case Err(e) => Err(e)
        case Ok(rest) => Ok(Frame(rest.ui, [d.shown] + rest.labels))
  }

  /** The header naming the shown tab. */
  function Header(status: Status): string
  {
    match status
    case Todo => "[TODO]  DONE "
    case Done => " TODO  [DONE]"
  }

  /** The marker drawn before each item of the shown tab's list. */
  function Prefix(status: Status): string
  {
    match status
    case Todo => "- [ ] "
    case Done => "- [x] "
  }

  /** The drawing half of one iteration of `main`: from row 0, the header, then the
      shown list as a UI list whose current id is that list's cursor. */
  function DrawApp(ui: Ui, app: App): (r: Result<Frame, UiError>)
    ensures ui.listCurr.Some? <==> r == Err(NestedList)
  {
    var d := PutLabel(Begin(ui, 0, 0), Header(app.status), RegularPair);
    var (items, curr) := if app.status == Todo then (app.todos, app.todoCurr) else (app.dones, app.doneCurr);
    match BeginList(d.ui, curr)
    case Err(e) => Err(e)
    case Ok(u) =>
      match DrawElements(u, items, Prefix(app.status), 0)
      case Err(e) => Err(e)
      case Ok(f) => Ok(Frame(EndList(f.ui), [d.shown] + f.labels))
  }

  /** The list shown on the current tab, with its cursor. */
  function ShownList(app: App): seq<string>
  {
    if app.status == Todo then app.todos else app.dones
  }

  function ShownCurr(app: App): nat
  {
    if app.status == Todo then app.todoCurr else app.doneCurr
  }

  /** A frame drawn with no list open succeeds and leaves no list open; it is the header
      on row 0 and one row per item below it, and the highlighted row is exactly the
      item under the shown list's cursor, so a valid cursor on a non-empty list
      highlights exactly one item. */
  lemma DrawAppHighlightsCursor(ui: Ui, app: App)
    requires ui.listCurr.None?
    ensures DrawApp(ui, app).Ok?
    ensures var f := DrawApp(ui, app).value;
      && f.ui.listCurr.None?
      && |f.labels| == |ShownList(app)| + 1
      && f.labels[0] == Label(0, 0, Header(app.status), RegularPair)
      && (forall k :: 1 <= k < |f.labels| ==> f.labels[k].row == k)
      && (forall k :: 1 <= k < |f.labels| ==>
            (f.labels[k].pair == HighlightPair <==> k - 1 == ShownCurr(app)))
      && (forall k :: 1 <= k < |f.labels| ==>
            f.labels[k] == Label(k, 0, Prefix(app.status) + ShownList(app)[k - 1], PairFor(k - 1, ShownCurr(app))))
    ensures var f := DrawApp(ui, app).value;
      (exists k :: 1 <= k < |f.labels| && f.labels[k].pair == HighlightPair) <==>
      ShownCurr(app) < |ShownList(app)|
  {
    var f := DrawApp(ui, app).value;
    if ShownCurr(app) < |ShownList(app)| {
      assert f.labels[ShownCurr(app) + 1].pair == HighlightPair;
    }
  }

  /** A frame that opens with the header of one of the two tabs, at row 0, column 0. */
  predicate OpensWithHeader(labels: seq<Label>)
  {
    && |labels| >= 1
    && (labels[0] == Label(0, 0, Header(Todo), RegularPair) || labels[0] == Label(0, 0, Header(Done), RegularPair))
  }

  /** The drawing half of one iteration of `main` (`erase` through `refresh`), from a
      UI with no list open: it succeeds, leaves no list open, and draws the header of
      the shown tab on row 0 followed by one row per item of the shown list, of which
      exactly the one under the cursor is highlighted. */
  method DrawFrame(ui: Ui, app: App) returns (f: Frame)
    requires ui.listCurr.None?
    ensures f.ui.listCurr.None?
    ensures |f.labels| == |ShownList(app)| + 1
    ensures f.labels[0] == Label(0, 0, Header(app.status), RegularPair)
    ensures forall k :: 1 <= k < |f.labels| ==> f.labels[k].row == k
    ensures forall k :: 1 <= k < |f.labels| ==>
      (f.labels[k].pair == HighlightPair <==> k - 1 == ShownCurr(app))
    ensures forall k :: 1 <= k < |f.labels| ==>
      f.labels[k] == Label(k, 0, Prefix(app.status) + ShownList(app)[k - 1], PairFor(k - 1, ShownCurr(app)))
  {
    DrawAppHighlightsCursor(ui, app);
    f := DrawApp(ui, app).value;
  }

  /** `main` over a given sequence of key codes, from a given state (the program itself
      starts from `Initial()`): draw, read a key, handle it, until `q` or the end of the
      keys. The UI assertions never fire, each frame starts with a tab header on row 0,
      and the items are never lost or duplicated. */
  method Run(start: App, keys: seq<i32>) returns (frames: seq<seq<Label>>, app: App, quit: bool)
    requires AppValid(start)
    ensures AppValid(app) && Items(app) == Items(start)
    ensures |frames| >= 1
    ensures quit ==> |frames| <= |keys| && KeyChar(keys[|frames| - 1]) == 'q'
    ensures !quit ==> |frames| == |keys| + 1
    ensures forall j :: 0 <= j < |frames| - 1 ==> KeyChar(keys[j]) != 'q'
    ensures forall k :: 0 <= k < |frames| ==> OpensWithHeader(frames[k])
  {
    var ui := TodoUi.Initial();
    app := start;
    var f := DrawFrame(ui, app);
    ui := f.ui;
    frames := [f.labels];
    quit := false;
    var i := 0;
    while i < |keys| && !quit
      invariant i <= |keys| && |frames| == i + 1
      invariant quit ==> i < |keys| && KeyChar(keys[i]) == 'q'
      invariant ui.listCurr.None?
      invariant AppValid(app) && Items(app) == Items(start)
      invariant forall j :: 0 <= j < i ==> KeyChar(keys[j]) != 'q'
      invariant forall k :: 0 <= k < |frames| ==> OpensWithHeader(frames[k])
      decreases |keys| - i, if quit then 0 else 1
    {
      var next := HandleKey(app, KeyChar(keys[i]));
      if next.None? {
        quit := true;
      } else {
        app := next.value;
        f := DrawFrame(ui, app);
        ui := f.ui;
        frames := frames + [f.labels];
        i := i + 1;
      }
    }
  }
}
