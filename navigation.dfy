/**
 * The navigation state machine of the grid: logical focus as two optional
 * coordinates (the focused cell, and the cell whose inner product card holds a
 * focus trap), the key handler's transitions on them, grid entry from outside
 * and the inner-mode effect that clears the focused cell.
 */
module Navigation {
  import opened GridTypes
  import FocusTrap
  import BoundaryRouter

  datatype Key = ArrowUp | ArrowDown | ArrowLeft | ArrowRight | Home | End | Enter | Escape | Tab | OtherKey

  datatype KeyEvent = KeyEvent(key: Key, shift: bool, ctrl: bool, meta: bool, defaultPrevented: bool)

  /** The grid's last row and last column index. */
  datatype Dims = Dims(lastRow: int, lastCol: int)

  /** Logical focus: the focused cell and the inner-mode cell. */
  datatype NavState = NavState(focused: Option<Cell>, inner: Option<Cell>)

  /** What the inner-mode branch reads from the card inside the cell: whether the
      card's root element was found, how many buttons it holds, and the index of
      the active element in [card, ...buttons] (-1 when it is not in that list). */
  datatype CardView = CardView(cardPresent: bool, buttonCount: nat, activeIndex: int)

  /** The imperative focus call a key press asks for: an element of the trap list
      now, or an element outside the grid on the next turn of the event loop. */
  datatype Effect = NoEffect | FocusTrapElement(index: int) | FocusOutsideLater(target: BoundaryRouter.Target)

  /** The new logical focus, whether the handler called preventDefault, and the
      focus call it requests. */
  datatype KeyResult = KeyResult(state: NavState, preventsDefault: bool, effect: Effect)

  /** The last row and column index of a grid of rowCount x columnCount cells: a
      non-empty grid holds its first and its last cell, and no cell one past the
      last row or column. */
  function GridDims(rowCount: nat, columnCount: nat): (d: Dims)
    ensures rowCount > 0 && columnCount > 0 ==> InGrid(Cell(0, 0), d) && InGrid(Cell(rowCount - 1, columnCount - 1), d)
    ensures !InGrid(Cell(rowCount, 0), d) && !InGrid(Cell(0, columnCount), d)
  {
    Dims(rowCount - 1, columnCount - 1)
  }

  predicate InGrid(c: Cell, d: Dims) {
    0 <= c.row <= d.lastRow && 0 <= c.col <= d.lastCol
  }

  /** Both recorded coordinates lie inside the grid. */
  predicate StateInGrid(s: NavState, d: Dims) {
    (s.focused.Some? ==> InGrid(s.focused.value, d)) && (s.inner.Some? ==> InGrid(s.inner.value, d))
  }

  /** Cell focus and inner mode are not both recorded. */
  predicate Settled(s: NavState) {
    !(s.focused.Some? && s.inner.Some?)
  }

  predicate IsArrow(k: Key) {
    k == ArrowUp || k == ArrowDown || k == ArrowLeft || k == ArrowRight
  }

  /** The cell one step away in the arrow's direction. */
  function ArrowNeighbour(c: Cell, k: Key): Cell
    requires IsArrow(k)
  {
    match k
    case ArrowUp => Cell(c.row - 1, c.col)
    case ArrowDown => Cell(c.row + 1, c.col)
    case ArrowLeft => Cell(c.row, c.col - 1)
    case ArrowRight => Cell(c.row, c.col + 1)
  }

  /** Keys in inner mode: Escape returns to the cell, Tab cycles the trap, all
      else passes through. Nothing happens when the cell's element is missing.
      Leaving inner mode always returns cell focus to the inner-mode cell; staying
      in it changes nothing; focus never leaves the grid from here, and a trap
      index requested from a valid active index lies in the trap list. */
  function InnerModeKey(s: NavState, ev: KeyEvent, proxyMounted: bool, card: CardView): (r: KeyResult)
    requires s.inner.Some?
    ensures r.state.inner.None? ==> r.state.focused == s.inner && r.preventsDefault
    ensures r.state.inner.Some? ==> r.state == s
    ensures !r.effect.FocusOutsideLater?
    ensures r.effect.FocusTrapElement? && -1 <= card.activeIndex < FocusTrap.TrapLength(card.cardPresent, card.buttonCount) ==>
      0 <= r.effect.index < FocusTrap.TrapLength(card.cardPresent, card.buttonCount)
    ensures !proxyMounted ==> r == KeyResult(s, false, NoEffect)
  {
    var cur := s.inner.value;
    if !proxyMounted then KeyResult(s, false, NoEffect)
    else match ev.key
      case Escape => KeyResult(NavState(Some(cur), None), true, NoEffect)
      case Tab =>
        var n := FocusTrap.TrapLength(card.cardPresent, card.buttonCount);
        KeyResult(s, true, if n > 0 then FocusTrapElement(FocusTrap.NextTrapIndex(card.activeIndex, n, ev.shift)) else NoEffect)
      case _ => KeyResult(s, false, NoEffect)
  }

  /** Keys in cell mode, from the focused cell `cur`. A focus move from a cell in
      the grid lands in the grid; only Enter touches inner mode, and it records the
      current cell; only Tab schedules focus outside, and it clears the focused
      cell; a key the handler does not prevent changes nothing. */
  function CellModeKey(s: NavState, cur: Cell, ev: KeyEvent, d: Dims, page: BoundaryRouter.Page): (r: KeyResult)
    ensures InGrid(cur, d) && r.state.focused.Some? && r.state.focused != s.focused ==>
      InGrid(r.state.focused.value, d)
    ensures r.state.inner != s.inner ==> ev.key == Enter && r.state.inner == Some(cur)
    ensures r.effect != NoEffect ==> ev.key == Tab && r.effect.FocusOutsideLater? && r.state.focused.None?
    ensures !r.preventsDefault ==> r == KeyResult(s, false, NoEffect)
  {
    var accel := ev.ctrl || ev.meta;
    match ev.key
    case ArrowUp =>
      KeyResult(if cur.row > 0 then s.(focused := Some(Cell(cur.row - 1, cur.col))) else s, true, NoEffect)
    case ArrowDown =>
      KeyResult(if cur.row < d.lastRow then s.(focused := Some(Cell(cur.row + 1, cur.col))) else s, true, NoEffect)
    case ArrowLeft =>
      KeyResult(if cur.col > 0 then s.(focused := Some(Cell(cur.row, cur.col - 1))) else s, true, NoEffect)
    case ArrowRight =>
      KeyResult(if cur.col < d.lastCol then s.(focused := Some(Cell(cur.row, cur.col + 1))) else s, true, NoEffect)
    case Home =>
      KeyResult(s.(focused := Some(if accel then Cell(0, 0) else Cell(cur.row, 0))), true, NoEffect)
    case End =>
      KeyResult(s.(focused := Some(if accel then Cell(d.lastRow, d.lastCol) else Cell(cur.row, d.lastCol))), true, NoEffect)
    case Enter =>
      KeyResult(s.(inner := Some(cur)), true, NoEffect)
    case Tab =>
      var t := BoundaryRouter.Route(page, ev.shift);
      KeyResult(s.(focused := None), true, if t.Some? then FocusOutsideLater(t.value) else NoEffect)
    case _ =>
      KeyResult(s, false, NoEffect)
  }

  /** The grid's key handler as a transition on logical focus. Every change of
      logical focus and every requested focus call comes with preventDefault; a
      recorded inner-mode cell is either kept or handed back as the focused cell,
      and a new one is always the cell that was focused. */
  function KeyTransition(s: NavState, ev: KeyEvent, d: Dims, proxyMounted: bool, card: CardView,
                         page: BoundaryRouter.Page): (r: KeyResult)
    ensures !r.preventsDefault ==> r == KeyResult(s, false, NoEffect)
    ensures s.inner.Some? ==> r.state.inner == s.inner || (r.state.inner.None? && r.state.focused == s.inner)
    ensures s.inner.None? && r.state.inner.Some? ==> r.state.inner == s.focused && ev.key == Enter
  {
    if ev.defaultPrevented then KeyResult(s, false, NoEffect)
    else if s.inner.Some? then InnerModeKey(s, ev, proxyMounted, card)
    else if s.focused.None? then KeyResult(s, false, NoEffect)
    else CellModeKey(s, s.focused.value, ev, d, page)
  }

  /** The inner-mode effect: once inner mode is recorded, the focused cell is cleared. */
  function AfterInnerModeEffect(s: NavState): (r: NavState)
    ensures r.inner == s.inner
    ensures Settled(r)
    ensures s.inner.None? ==> r == s
  {
    if s.inner.Some? then s.(focused := None) else s
  }

  /** Where focus arriving from outside enters: the last cell when the element it
      came from lies after the grid, the first cell otherwise, including when there
      is no such element. */
  function EntryCell(related: Option<BoundaryRouter.Rect>, grid: BoundaryRouter.Rect, d: Dims): (c: Cell)
    ensures c == Cell(0, 0) || c == Cell(d.lastRow, d.lastCol)
    ensures d.lastRow >= 0 && d.lastCol >= 0 ==> InGrid(c, d)
    ensures grid.top <= grid.bottom && related.Some? && BoundaryRouter.IsBeforeGrid(related.value, grid) ==>
      c == Cell(0, 0)
  {
    if related.Some? && BoundaryRouter.IsAfterGrid(related.value, grid) then Cell(d.lastRow, d.lastCol) else Cell(0, 0)
  }

  /** A cell is inside the handler's bounds exactly when it lies in the
      rowCount x columnCount range the registry is built for. */
  lemma GridDimsMatchRegistryRange(rowCount: nat, columnCount: nat, c: Cell)
    ensures InGrid(c, GridDims(rowCount, columnCount)) <==> 0 <= c.row < rowCount && 0 <= c.col < columnCount
  {
  }

  // ---------------------------------------------------------------------------
  // Properties of the key handler

  /** An event some nested handler already prevented, or one arriving while no
      cell is current, changes nothing and is not prevented again. */
  lemma IgnoredWithoutCurrentCell(s: NavState, ev: KeyEvent, d: Dims, proxyMounted: bool, card: CardView,
                                  page: BoundaryRouter.Page)
    requires ev.defaultPrevented || (s.focused.None? && s.inner.None?)
    ensures KeyTransition(s, ev, d, proxyMounted, card, page) == KeyResult(s, false, NoEffect)
  {
  }

  /** In cell mode an arrow moves exactly one step when the neighbour lies in the
      grid and leaves the state unchanged otherwise; it is always prevented. */
  lemma ArrowMovesOneStepWithinBounds(s: NavState, ev: KeyEvent, d: Dims, proxyMounted: bool, card: CardView,
                                      page: BoundaryRouter.Page)
    requires !ev.defaultPrevented && IsArrow(ev.key)
    requires s.inner.None? && s.focused.Some? && InGrid(s.focused.value, d)
    ensures var r := KeyTransition(s, ev, d, proxyMounted, card, page);
      var next := ArrowNeighbour(s.focused.value, ev.key);
      && r.preventsDefault && r.effect == NoEffect && r.state.inner.None?
      && r.state.focused == Some(if InGrid(next, d) then next else s.focused.value)
  {
  }

  /** Plain Home and End go to the current row's edges; with Ctrl or Meta they go
      to the grid's corners whatever the current cell. */
  lemma HomeAndEndTargets(s: NavState, ev: KeyEvent, d: Dims, proxyMounted: bool, card: CardView,
                          page: BoundaryRouter.Page)
    requires !ev.defaultPrevented && (ev.key == Home || ev.key == End)
    requires s.inner.None? && s.focused.Some?
    ensures var r := KeyTransition(s, ev, d, proxyMounted, card, page);
      var row, accel := s.focused.value.row, ev.ctrl || ev.meta;
      && r.preventsDefault && r.effect == NoEffect && r.state.inner.None?
      && (ev.key == Home && !accel ==> r.state.focused == Some(Cell(row, 0)))
      && (ev.key == End && !accel ==> r.state.focused == Some(Cell(row, d.lastCol)))
      && (ev.key == Home && accel ==> r.state.focused == Some(Cell(0, 0)))
      && (ev.key == End && accel ==> r.state.focused == Some(Cell(d.lastRow, d.lastCol)))
  {
  }

  /** The state after pressing ArrowDown k times in cell mode. */
  function PressArrowDown(s: NavState, k: nat, d: Dims, page: BoundaryRouter.Page): NavState
    decreases k
  {
    if k == 0 then s
    else
      var ev := KeyEvent(ArrowDown, false, false, false, false);
      PressArrowDown(KeyTransition(s, ev, d, false, CardView(false, 0, -1), page).state, k - 1, d, page)
  }

  /** Repeated ArrowDown walks down one row per press and stops at the last row. */
  lemma {:induction false} RepeatedArrowDownStopsAtLastRow(c: Cell, k: nat, d: Dims, page: BoundaryRouter.Page)
    requires InGrid(c, d)
    ensures PressArrowDown(NavState(Some(c), None), k, d, page) ==
      NavState(Some(Cell(if c.row + k <= d.lastRow then c.row + k else d.lastRow, c.col)), None)
    decreases k
  {
    if k > 0 {
      var ev := KeyEvent(ArrowDown, false, false, false, false);
      var next := KeyTransition(NavState(Some(c), None), ev, d, false, CardView(false, 0, -1), page).state;
      var c' := if c.row < d.lastRow then Cell(c.row + 1, c.col) else c;
      assert next == NavState(Some(c'), None);
      RepeatedArrowDownStopsAtLastRow(c', k - 1, d, page);
    }
  }

  /** Enter opens inner mode on the current cell; after the inner-mode effect only
      inner mode is recorded; Escape then restores cell focus on the same
      coordinate, so the round trip returns exactly the starting state. */
  lemma EnterThenEscapeIsRoundTrip(c: Cell, d: Dims, card: CardView, page: BoundaryRouter.Page,
                                   enter: KeyEvent, escape: KeyEvent)
    requires enter.key == Enter && !enter.defaultPrevented
    requires escape.key == Escape && !escape.defaultPrevented
    ensures var s0 := NavState(Some(c), None);
      var r1 := KeyTransition(s0, enter, d, true, card, page);
      var s1 := AfterInnerModeEffect(r1.state);
      var r2 := KeyTransition(s1, escape, d, true, card, page);
      && r1.state == NavState(Some(c), Some(c)) && r1.preventsDefault
      && s1 == NavState(None, Some(c))
      && r2.state == s0 && r2.preventsDefault && r2.effect == NoEffect
  {
  }

  /** Tab in inner mode keeps inner mode and cycles focus inside the trap list,
      always to an index of that list. */
  lemma InnerTabIsFocusTrap(s: NavState, ev: KeyEvent, d: Dims, card: CardView, page: BoundaryRouter.Page)
    requires !ev.defaultPrevented && ev.key == Tab && s.inner.Some?
    requires -1 <= card.activeIndex < FocusTrap.TrapLength(card.cardPresent, card.buttonCount)
    ensures var r := KeyTransition(s, ev, d, true, card, page);
      var n := FocusTrap.TrapLength(card.cardPresent, card.buttonCount);
      && r.state == s && r.preventsDefault
      && (n == 0 ==> r.effect == NoEffect)
      && (n > 0 ==> r.effect.FocusTrapElement? && 0 <= r.effect.index < n
                    && r.effect.index == FocusTrap.NextTrapIndex(card.activeIndex, n, ev.shift))
  {
  }

  /** In inner mode every key but Escape and Tab passes through untouched, and no
      key ever leaves inner mode except Escape. */
  lemma InnerModeOnlyEscapeExits(s: NavState, ev: KeyEvent, d: Dims, proxyMounted: bool, card: CardView,
                                 page: BoundaryRouter.Page)
    requires s.inner.Some?
    ensures var r := KeyTransition(s, ev, d, proxyMounted, card, page);
      && (ev.key != Escape && ev.key != Tab ==> r == KeyResult(s, false, NoEffect))
      && (r.state.inner.None? <==> ev.key == Escape && !ev.defaultPrevented && proxyMounted)
  {
  }

  /** Tab in cell mode clears the focused cell and hands the router's choice to
      the deferred focus call; nothing is scheduled when the router finds nothing. */
  lemma CellTabLeavesGrid(s: NavState, ev: KeyEvent, d: Dims, proxyMounted: bool, card: CardView,
                          page: BoundaryRouter.Page)
    requires !ev.defaultPrevented && ev.key == Tab && s.inner.None? && s.focused.Some?
    ensures var r := KeyTransition(s, ev, d, proxyMounted, card, page);
      var t := BoundaryRouter.Route(page, ev.shift);
      && r.state == NavState(None, None) && r.preventsDefault
      && (t.Some? ==> r.effect == FocusOutsideLater(t.value))
      && (t.None? ==> r.effect == NoEffect)
  {
  }

  /** No transition moves a recorded coordinate out of the grid. */
  lemma TransitionStaysInGrid(s: NavState, ev: KeyEvent, d: Dims, proxyMounted: bool, card: CardView,
                              page: BoundaryRouter.Page)
    requires d.lastRow >= 0 && d.lastCol >= 0 && StateInGrid(s, d)
    ensures StateInGrid(KeyTransition(s, ev, d, proxyMounted, card, page).state, d)
  {
  }

  /** From a settled state, a key press leaves both coordinates set only after
      Enter, and then on the same cell; the inner-mode effect settles it again. */
  lemma KeyPressKeepsModesExclusive(s: NavState, ev: KeyEvent, d: Dims, proxyMounted: bool, card: CardView,
                                    page: BoundaryRouter.Page)
    requires Settled(s)
    ensures var r := KeyTransition(s, ev, d, proxyMounted, card, page).state;
      && (!Settled(r) ==> ev.key == Enter && r.focused == r.inner && r.focused == s.focused)
      && Settled(AfterInnerModeEffect(r))
  {
  }

  // ---------------------------------------------------------------------------
  // Properties of grid entry

  /** Entering from an element above the grid, or from nowhere, lands on the first
      cell; entering from an element below it lands on the last cell. */
  lemma EntryFromAboveOrBelow(related: Option<BoundaryRouter.Rect>, grid: BoundaryRouter.Rect, d: Dims)
    requires grid.top <= grid.bottom
    ensures related.None? ==> EntryCell(related, grid, d) == Cell(0, 0)
    ensures related.Some? && related.value.top < grid.top ==> EntryCell(related, grid, d) == Cell(0, 0)
    ensures related.Some? && related.value.top > grid.bottom ==> EntryCell(related, grid, d) == Cell(d.lastRow, d.lastCol)
  {
  }

  /** Tabbing out of the grid and straight back: Shift+Tab returning from the
      element forward Tab chose lands on the last cell, and Tab returning from the
      element Shift+Tab chose lands on the first cell. */
  lemma LeaveAndReturnEntersAtMatchingEnd(page: BoundaryRouter.Page, backward: bool, d: Dims)
    requires page.gridRect.top <= page.gridRect.bottom
    requires BoundaryRouter.Route(page, backward).Some?
    requires BoundaryRouter.Route(page, backward).value.PageElement?
    ensures var i := BoundaryRouter.Route(page, backward).value.index;
      && i < |page.elements|
      && EntryCell(Some(page.elements[i]), page.gridRect, d) ==
           (if backward then Cell(0, 0) else Cell(d.lastRow, d.lastCol))
  {
    BoundaryRouter.RouteChoosesBoundaryElement(page, backward);
    var i := BoundaryRouter.Route(page, backward).value.index;
    if backward {
      BoundaryRouter.BeforeAndAfterAreDisjoint(page.elements[i], page.gridRect);
    }
  }
}
