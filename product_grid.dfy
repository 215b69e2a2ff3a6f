/**
 * The grid component: its state (rows, focused cell, inner-mode cell, loading
 * flag, focus registry), the key, focus and blur handlers that update it, the
 * two focus-delegation effects and the two steps of the infinite load.
 */
module ProductGrid {
  import opened GridTypes
  import opened Navigation
  import RowStore
  import FocusRegistry
  import FocusTrap
  import BoundaryRouter
  import GridRow

  /** The back-to-top button is displayed exactly while the first row is not fully visible. */
  function ShouldShowBackToTop(firstRowVisible: bool): bool {
    !firstRowVisible
  }

  /** Forward Tab out of the grid goes to the back-to-top button exactly while the
      first row is scrolled out of view; otherwise it goes to a page element or
      nowhere. */
  lemma ForwardTabReachesBackToTopWhenScrolled(elements: seq<BoundaryRouter.Rect>, gridRect: BoundaryRouter.Rect,
                                               firstRowVisible: bool)
    ensures var t := BoundaryRouter.Route(BoundaryRouter.Page(elements, gridRect, ShouldShowBackToTop(firstRowVisible)), false);
      && (t == Some(BoundaryRouter.BackToTopButton) <==> !firstRowVisible)
      && (firstRowVisible ==> t.None? || t.value.PageElement?)
  {
  }

  class Grid {
    const columnCount: nat
    var rows: seq<RowData>
    var focused: Option<Cell>
    var inner: Option<Cell>
    var loading: bool
    /** The row count a started load captured; its batch continues from there. */
    var pendingCount: nat
    var refs: seq<seq<Ref>>
    /** The number of registry rebuilds so far. */
    var generation: nat

    ghost predicate Valid()
      reads this
    {
      && columnCount > 0
      && |rows| >= 1 && RowStore.RowsFromOne(rows)
      && StateInGrid(State(), Dimensions())
      && (loading ==> pendingCount == |rows|)
      && |refs| <= |rows|
      && FocusRegistry.WellFormed(refs, columnCount, generation)
    }

    function Dimensions(): Dims
      reads this
    {
      GridDims(|rows|, columnCount)
    }

    function State(): NavState
      reads this
    {
      NavState(focused, inner)
    }

    /** Whether the registry handle of cell `c` exists and its element is mounted.
        In a valid grid that only happens for a cell inside the grid, on the handle
        created for that cell. */
    function ProxyMounted(c: Option<Cell>, attached: set<Ref>): (m: bool)
      reads this
      ensures m ==> c.Some? && FocusRegistry.RefAt(refs, c.value).Some?
      ensures Valid() && m ==> InGrid(c.value, Dimensions())
      ensures Valid() && m ==>
        FocusRegistry.RefAt(refs, c.value).value.row == c.value.row &&
        FocusRegistry.RefAt(refs, c.value).value.col == c.value.col
    {
      c.Some? && FocusRegistry.RefAt(refs, c.value).Some? && FocusRegistry.RefAt(refs, c.value).value in attached
    }

    /** The grid's first render state: the seed rows, no logical focus, not loading,
        an empty registry. */
    constructor (columnCount: nat)
      requires columnCount > 0
      ensures Valid()
      ensures this.columnCount == columnCount && rows == InitialRows
      ensures focused == None && inner == None && !loading && refs == [] && generation == 0
    {
      this.columnCount := columnCount;
      rows := InitialRows;
      focused, inner := None, None;
      loading, pendingCount := false, 0;
      refs, generation := [], 0;
      RowStore.SeedRowsFromOne();
    }

    /** Run on every render: rebuilds the registry when its row count differs from
        the grid's, keeping the existing handle at every surviving coordinate. */
    method InitializeGridCellRefs()
      requires Valid()
      modifies this`refs, this`generation
      ensures Valid()
      ensures |refs| == |rows|
      ensures old(|refs|) == |rows| ==> refs == old(refs) && generation == old(generation)
      ensures old(|refs|) != |rows| ==>
        && refs == FocusRegistry.Rebuilt(old(refs), |rows|, columnCount, old(generation))
        && generation == old(generation) + 1
      ensures forall r, c :: 0 <= r < old(|refs|) && 0 <= c < columnCount ==> refs[r][c] == old(refs)[r][c]
    {
      if |refs| != |rows| {
        FocusRegistry.RebuildKeepsExistingRefs(refs, |rows|, columnCount, generation);
        refs := FocusRegistry.Rebuilt(refs, |rows|, columnCount, generation);
        generation := generation + 1;
      }
    }

    /** The rendered cells of every row: one per column, each holding the handle
        created for its coordinate, and tabIndex 0 on exactly the focused cell
        while inner mode is off. */
    function RenderedCells(): (cells: seq<seq<GridRow.CellProps>>)
      reads this
      requires Valid() && |refs| == |rows|
      ensures |cells| == |rows|
      ensures forall r :: 0 <= r < |rows| ==> |cells[r]| == columnCount
      ensures forall r, c :: 0 <= r < |rows| && 0 <= c < columnCount ==>
        cells[r][c].cellRef.row == r && cells[r][c].cellRef.col == c
      ensures forall r, c :: 0 <= r < |rows| && 0 <= c < columnCount ==>
        (cells[r][c].tabIndex == 0 <==> focused == Some(Cell(r, c)) && inner.None?)
    {
      var f := GridRow.FocusedOrSentinel(focused);
      var cells := GridRow.GridCells(|rows|, f, inner, refs, columnCount);
      assert forall r, c :: 0 <= r < |rows| && 0 <= c < columnCount ==>
        (cells[r][c].tabIndex == 0 <==> f == Cell(r, c) && inner.None?);
      cells
    }

    /** The grid-focus effect: while a cell is focused and inner mode is off, moves
        input focus to that cell's registry handle; it skips silently when the
        handle is missing or not mounted. */
    method FocusCellEffect(attached: set<Ref>) returns (target: Option<Ref>)
      requires Valid()
      ensures target.Some? <==> focused.Some? && inner.None? && ProxyMounted(focused, attached)
      ensures target.Some? ==>
        && target == FocusRegistry.RefAt(refs, focused.value)
        && target.value.row == focused.value.row && target.value.col == focused.value.col
    {
      target := None;
      if focused.Some? && inner.None? {
        var proxy := FocusRegistry.RefAt(refs, focused.value);
        if proxy.Some? && proxy.value in attached {
          target := proxy;
        }
      }
    }

    /** The inner-mode effect: once inner mode is set, clears the focused cell and
        moves input focus to the card inside that cell, when both exist. Returns
        the handle of the cell whose card received focus. */
    method InnerModeEffect(attached: set<Ref>, cardPresent: bool) returns (cardHost: Option<Ref>)
      requires Valid()
      modifies this`focused
      ensures Valid()
      ensures State() == AfterInnerModeEffect(old(State()))
      ensures cardHost.Some? <==> inner.Some? && cardPresent && ProxyMounted(inner, attached)
      ensures cardHost.Some? ==> cardHost == FocusRegistry.RefAt(refs, inner.value)
    {
      cardHost := None;
      if inner.Some? {
        focused := None;
        var proxy := FocusRegistry.RefAt(refs, inner.value);
        if proxy.Some? && proxy.value in attached && cardPresent {
          cardHost := proxy;
        }
      }
    }

    /** The grid's key handler. An event already prevented, or one arriving with
        no current cell, is ignored; otherwise inner mode and cell mode have
        their own branches. */
    method KeyDown(ev: KeyEvent, attached: set<Ref>, card: CardView, page: BoundaryRouter.Page)
      returns (preventsDefault: bool, effect: Effect)
      requires Valid()
      modifies this`focused, this`inner
      ensures Valid()
      ensures KeyResult(State(), preventsDefault, effect) ==
        KeyTransition(old(State()), ev, Dimensions(), ProxyMounted(old(inner), attached), card, page)
    {
      preventsDefault, effect := false, NoEffect;
      if ev.defaultPrevented {
        return;
      }
      if inner.Some? {
        preventsDefault, effect := InnerModeKeyDown(ev, attached, card);
      } else if focused.Some? {
        preventsDefault, effect := CellModeKeyDown(ev, page);
      }
    }

    /** The inner-mode branch: a missing or unmounted cell element stops the
        handler; otherwise Escape returns to the cell and Tab cycles the trap. */
    method InnerModeKeyDown(ev: KeyEvent, attached: set<Ref>, card: CardView)
      returns (preventsDefault: bool, effect: Effect)
      requires Valid() && inner.Some?
      modifies this`focused, this`inner
      ensures Valid()
      ensures KeyResult(State(), preventsDefault, effect) ==
        InnerModeKey(old(State()), ev, ProxyMounted(old(inner), attached), card)
    {
      preventsDefault, effect := false, NoEffect;
      var cur := inner.value;
      var proxy := FocusRegistry.RefAt(refs, cur);
      if proxy.None? || proxy.value !in attached {
        return;
      }
      match ev.key {
        case Escape =>
          preventsDefault := true;
          inner := None;
          focused := Some(cur);
        case Tab =>
          preventsDefault := true;
          var n := FocusTrap.TrapLength(card.cardPresent, card.buttonCount);
          if n > 0 {
            effect := FocusTrapElement(FocusTrap.NextTrapIndex(card.activeIndex, n, ev.shift));
          }
        case _ =>
      }
    }

    /** The cell-mode branch: the arrows, Home, End, Enter and Tab. */
    method CellModeKeyDown(ev: KeyEvent, page: BoundaryRouter.Page)
      returns (preventsDefault: bool, effect: Effect)
      requires Valid() && inner.None? && focused.Some?
      modifies this`focused, this`inner
      ensures Valid()
      ensures KeyResult(State(), preventsDefault, effect) ==
        CellModeKey(old(State()), old(focused).value, ev, Dimensions(), page)
    {
      preventsDefault, effect := false, NoEffect;
      var cur := focused.value;
      var lastRow, lastCol := |rows| - 1, columnCount - 1;
      assert Dimensions() == Dims(lastRow, lastCol);
      match ev.key {
        case ArrowUp =>
          preventsDefault := true;
          if cur.row > 0 {
            focused := Some(Cell(cur.row - 1, cur.col));
          }
        case ArrowDown =>
          preventsDefault := true;
          if cur.row < lastRow {
            focused := Some(Cell(cur.row + 1, cur.col));
          }
        case ArrowLeft =>
          preventsDefault := true;
          if cur.col > 0 {
            focused := Some(Cell(cur.row, cur.col - 1));
          }
        case ArrowRight =>
          preventsDefault := true;
          if cur.col < lastCol {
            focused := Some(Cell(cur.row, cur.col + 1));
          }
        case Home =>
          preventsDefault := true;
          if ev.ctrl || ev.meta {
            focused := Some(Cell(0, 0));
          } else {
            focused := Some(Cell(cur.row, 0));
          }
        case End =>
          preventsDefault := true;
          if ev.ctrl || ev.meta {
            focused := Some(Cell(lastRow, lastCol));
          } else {
            focused := Some(Cell(cur.row, lastCol));
          }
        case Enter =>
          preventsDefault := true;
          inner := Some(cur);
        case Tab =>
          preventsDefault := true;
          focused := None;
          var target := BoundaryRouter.FindNextFocusableElement(page, ev.shift);
          if target.Some? {
            effect := FocusOutsideLater(target.value);
          }
        case _ =>
      }
    }

    /** Focus arrives at the grid: when no cell is focused and inner mode is off,
        enter at the last cell if the element focus came from lies after the grid,
        and at the first cell otherwise. */
    method GridFocus(related: Option<BoundaryRouter.Rect>, gridRect: BoundaryRouter.Rect)
      requires Valid()
      modifies this`focused
      ensures Valid()
      ensures old(focused).None? && inner.None? ==> focused == Some(EntryCell(related, gridRect, Dimensions()))
      ensures old(focused).Some? || inner.Some? ==> focused == old(focused)
    {
      if focused.None? && inner.None? {
        var enterAtLast := related.Some? && BoundaryRouter.IsAfterGrid(related.value, gridRect);
        if enterAtLast {
          focused := Some(Cell(|rows| - 1, columnCount - 1));
        } else {
          focused := Some(Cell(0, 0));
        }
      }
    }

    /** The grid loses focus: when focus goes outside the grid and inner mode is
        off, the focused cell is cleared. */
    method GridBlur(relatedInsideGrid: bool)
      requires Valid()
      modifies this`focused
      ensures Valid()
      ensures focused == if !relatedInsideGrid && inner.None? then None else old(focused)
    {
      if !relatedInsideGrid && inner.None? {
        focused := None;
      }
    }

    /** The back-to-top action once the scroll has settled: focus the first cell.
        Inner mode is left as it was, so from inner mode both coordinates end up set. */
    method BackToTop()
      requires Valid()
      modifies this`focused
      ensures Valid()
      ensures focused == Some(Cell(0, 0))
      ensures inner == old(inner)
      ensures Settled(State()) <==> inner.None?
    {
      focused := Some(Cell(0, 0));
    }

    /** The load-more effect: starts a load when the last row is visible and no
        load is in flight, capturing the current row count. */
    method TriggerLoad(lastRowVisible: bool) returns (started: bool)
      requires Valid()
      modifies this`loading, this`pendingCount
      ensures Valid()
      ensures started <==> lastRowVisible && !old(loading)
      ensures loading == (old(loading) || started)
      ensures started ==> pendingCount == |rows|
      ensures !started ==> pendingCount == old(pendingCount)
    {
      started := lastRowVisible && !loading;
      if started {
        loading := true;
        pendingCount := |rows|;
      }
    }

    /** The delayed half of a load: appends the three rows that continue the
        identifiers, then clears the loading flag. */
    method CompleteLoad()
      requires Valid() && loading
      modifies this`rows, this`loading
      ensures Valid()
      ensures rows == old(rows) + RowStore.LoadBatch(old(|rows|)) && |rows| == old(|rows|) + 3
      ensures !loading
    {
      RowStore.LoadKeepsRowsFromOne(rows);
      rows := rows + RowStore.LoadBatch(pendingCount);
      loading := false;
    }
  }

  /** Seed rows, four columns: enter from above, walk right to the last column and
      bump against it. */
  method WalkRightScenario() {
    var g := new Grid(4);
    g.InitializeGridCellRefs();
    var gridRect := BoundaryRouter.Rect(100, 0, 400);
    var page := BoundaryRouter.Page([], gridRect, false);
    var card := CardView(true, FocusTrap.CARD_BUTTON_COUNT, -1);

    g.GridFocus(Some(BoundaryRouter.Rect(20, 0, 40)), gridRect);
    assert g.focused == Some(Cell(0, 0));
    var right := KeyEvent(ArrowRight, false, false, false, false);
    var prevented, effect := g.KeyDown(right, {}, card, page);
    assert g.focused == Some(Cell(0, 1));
    prevented, effect := g.KeyDown(right, {}, card, page);
    assert g.focused == Some(Cell(0, 2));
    prevented, effect := g.KeyDown(right, {}, card, page);
    assert g.focused == Some(Cell(0, 3));
    prevented, effect := g.KeyDown(right, {}, card, page);
    assert g.focused == Some(Cell(0, 3)) && prevented;
  }

  /** From the first cell: Enter opens the card, the inner-mode effect focuses
      it, and Escape returns to the same cell. */
  method CardRoundTripScenario() {
    var g := new Grid(4);
    g.InitializeGridCellRefs();
    var gridRect := BoundaryRouter.Rect(100, 0, 400);
    var page := BoundaryRouter.Page([], gridRect, false);
    var card := CardView(true, FocusTrap.CARD_BUTTON_COUNT, 0);
    assert g.refs[0][0] == Ref(0, 0, 0);
    var attached := {Ref(0, 0, 0)};
    var enter := KeyEvent(Enter, false, false, false, false);
    var escape := KeyEvent(Escape, false, false, false, false);
    EnterThenEscapeIsRoundTrip(Cell(0, 0), g.Dimensions(), card, page, enter, escape);

    g.GridFocus(None, gridRect);
    assert g.State() == NavState(Some(Cell(0, 0)), None);
    var prevented, effect := g.KeyDown(enter, attached, card, page);
    assert g.inner == Some(Cell(0, 0));
    var host := g.InnerModeEffect(attached, true);
    assert g.State() == NavState(None, Some(Cell(0, 0))) && host == Some(Ref(0, 0, 0));
    assert g.ProxyMounted(g.inner, attached);
    prevented, effect := g.KeyDown(escape, attached, card, page);
    assert g.focused == Some(Cell(0, 0)) && g.inner == None;
  }

  /** With the card of the first cell open and its root active, Tab moves focus
      to the Edit button while inner mode stays on. */
  method CardTrapScenario() {
    var g := new Grid(4);
    g.InitializeGridCellRefs();
    var gridRect := BoundaryRouter.Rect(100, 0, 400);
    var page := BoundaryRouter.Page([], gridRect, false);
    var card := CardView(true, FocusTrap.CARD_BUTTON_COUNT, 0);
    assert g.refs[0][0] == Ref(0, 0, 0);
    var attached := {Ref(0, 0, 0)};
    var open := NavState(None, Some(Cell(0, 0)));
    var tab := KeyEvent(Tab, false, false, false, false);
    FocusTrap.ProductCardTrapHasFourStops();
    FocusTrap.TabCyclesForward(0, 4);
    InnerTabIsFocusTrap(open, tab, g.Dimensions(), card, page);

    g.GridFocus(None, gridRect);
    var prevented, effect := g.KeyDown(KeyEvent(Enter, false, false, false, false), attached, card, page);
    var host := g.InnerModeEffect(attached, true);
    assert g.State() == open && host == Some(Ref(0, 0, 0));
    assert g.ProxyMounted(g.inner, attached);
    prevented, effect := g.KeyDown(tab, attached, card, page);
    assert g.State() == open && prevented && effect == FocusTrapElement(1);
  }

  /** The last row becomes visible twice in quick succession: one batch of three
      rows with identifiers 4, 5, 6 is appended, and loading ends. */
  method InfiniteLoadScenario() {
    var g := new Grid(4);
    var first := g.TriggerLoad(true);
    var second := g.TriggerLoad(true);
    assert first && !second && g.loading;
    g.CompleteLoad();
    RowStore.LoadBatchRows(3);
    assert |g.rows| == 6 && !g.loading;
    assert g.rows[3].id == 4 && g.rows[4].id == 5 && g.rows[5].id == 6;
  }

  /** Tab out of the grid while the first row is scrolled away goes to the
      back-to-top button; activating it focuses the first cell. */
  method BackToTopScenario() {
    var g := new Grid(4);
    g.InitializeGridCellRefs();
    var gridRect := BoundaryRouter.Rect(100, 0, 400);
    var page := BoundaryRouter.Page([BoundaryRouter.Rect(500, 0, 520)], gridRect, ShouldShowBackToTop(false));
    g.GridFocus(None, gridRect);
    var prevented, effect := g.KeyDown(KeyEvent(Tab, false, false, false, false), {}, CardView(true, 3, -1), page);
    assert g.focused == None && effect == FocusOutsideLater(BoundaryRouter.BackToTopButton);
    g.BackToTop();
    assert g.focused == Some(Cell(0, 0));
  }

  /** Back to top while a card is open: the first cell becomes focused while inner
      mode stays recorded, so the component holds both coordinates at once, a
      state no key press reaches from a settled one without Enter. */
  method BackToTopInInnerModeScenario() {
    var g := new Grid(4);
    g.InitializeGridCellRefs();
    var gridRect := BoundaryRouter.Rect(100, 0, 400);
    var page := BoundaryRouter.Page([], gridRect, true);
    var attached := {g.refs[0][0]};

    g.GridFocus(None, gridRect);
    var prevented, effect := g.KeyDown(KeyEvent(Enter, false, false, false, false), attached,
                                       CardView(true, FocusTrap.CARD_BUTTON_COUNT, 0), page);
    var host := g.InnerModeEffect(attached, true);
    assert g.focused == None && g.inner == Some(Cell(0, 0));
    g.BackToTop();
    assert g.focused == Some(Cell(0, 0)) && g.inner == Some(Cell(0, 0));
    assert !Settled(g.State());
  }
}
