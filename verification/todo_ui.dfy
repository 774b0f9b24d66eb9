/** The immediate-mode UI of the ncurses todo list: a cursor row that advances with
    each label, and an optional open list whose current id decides which element is
    highlighted. The ncurses calls themselves (`mv`, `attron`, `addstr`, `attroff`)
    are output; a label is recorded as what would be drawn, and where. */
module TodoUi {
  import opened Outcomes

  /** Colour pair for ordinary text. */
  const RegularPair: int := 0
  /** Colour pair for the selected list element. */
  const HighlightPair: int := 1

  /** `Ui`: the id of the current element of the open list, if a list is open, and the
      screen position of the next label. */
  datatype Ui = Ui(listCurr: Option<nat>, row: nat, col: nat)

  /** The two assertions of the UI, as errors: a list opened inside a list, and an
      element drawn outside any list. */
  datatype UiError = NestedList | ElementOutsideList

  /** A string drawn at a screen position in a colour pair. */
  datatype Label = Label(row: nat, col: nat, text: string, pair: int)

  /** The state after drawing one label, with the label drawn. */
  datatype Drawn = Drawn(ui: Ui, shown: Label)

  /** `Ui::default`. */
  function Initial(): (ui: Ui)
    ensures ui.listCurr.None? && ui.row == 0 && ui.col == 0
  {
    Ui(None, 0, 0)
  }

  /** `begin`: place the next label at `(row, col)`. */
  function Begin(ui: Ui, row: nat, col: nat): (u: Ui)
    ensures u.row == row && u.col == col
    ensures u.listCurr == ui.listCurr
  {
    ui.(row := row, col := col)
  }

  /** `label`: draw `text` at the current position, then move one row down. */
  function PutLabel(ui: Ui, text: string, pair: int): (d: Drawn)
    ensures d.shown.row == ui.row && d.shown.col == ui.col
    ensures d.shown.text == text && d.shown.pair == pair
    ensures d.ui.row == ui.row + 1
    ensures d.ui.col == ui.col && d.ui.listCurr == ui.listCurr
  {
    Drawn(ui.(row := ui.row + 1), Label(ui.row, ui.col, text, pair))
  }

  /** `begin_list`: open a list whose current element is `id`; a list already open
      is an error. */
  function BeginList(ui: Ui, id: nat): (r: Result<Ui, UiError>)
    ensures r.Err? <==> ui.listCurr.Some?
    ensures r.Ok? ==> r.value.listCurr == Some(id) && r.value.row == ui.row && r.value.col == ui.col
  {
    if ui.listCurr.Some? then Err(NestedList) else Ok(ui.(listCurr := Some(id)))
  }

  /** `list_element`: draw one element of the open list, highlighted exactly when its
      id is the list's current id; outside a list it is an error. */
  function ListElement(ui: Ui, text: string, id: nat): (r: Result<Drawn, UiError>)
    ensures r.Err? <==> ui.listCurr.None?
    ensures r.Ok? ==> (r.value.shown.pair == HighlightPair <==> ui.listCurr == Some(id))
    ensures r.Ok? && ui.listCurr != Some(id) ==> r.value.shown.pair == RegularPair
    ensures r.Ok? ==> r.value.shown.col == ui.col
    ensures r.Ok? ==> r.value.shown.text == text
    ensures r.Ok? ==> r.value.shown.row == ui.row && r.value.ui.row == ui.row + 1
    ensures r.Ok? ==> r.value.ui.listCurr == ui.listCurr && r.value.ui.col == ui.col
  {
    match ui.listCurr
    case None => Err(ElementOutsideList)
    case Some(idCurr) => Ok(PutLabel(ui, text, if idCurr == id then HighlightPair else RegularPair))
  }

  /** `end_list`: close the open list, if any. */
  function EndList(ui: Ui): (u: Ui)
    ensures u.listCurr.None?
    ensures u.row == ui.row && u.col == ui.col
  {
    ui.(listCurr := None)
  }
}
