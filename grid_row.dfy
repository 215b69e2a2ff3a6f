/**
 * Rendering of a grid row: one cell per column, each handed its coordinate,
 * the logical focus, its registry handle and its roving tabIndex.
 */
module GridRow {
  import opened GridTypes
  import FocusRegistry

  /** The props a row passes to each of its cells. */
  datatype CellProps = CellProps(colIdx: nat, rowIdx: nat, focused: Cell, inner: Option<Cell>,
                                 cellRef: Ref, tabIndex: int)

  /** The grid hands rows the focused cell, or the sentinel (-1, -1) when there is none. */
  function FocusedOrSentinel(f: Option<Cell>): (c: Cell)
    ensures f.Some? ==> c == f.value
    ensures f.None? ==> c.row < 0 && c.col < 0
  {
    if f.Some? then f.value else Cell(-1, -1)
  }

  /** The row's aria-rowindex; rows are numbered from 1 since no header row is
      rendered, so every index is a valid one-based position. */
  function RowAriaIndex(rowIndex: nat): (a: int)
    ensures a >= 1
  {
    rowIndex + 1
  }

  /** The roving tabIndex rule: 0 for the focused cell outside inner mode, -1 otherwise. */
  function TabIndexFor(rowIndex: nat, colIdx: nat, focused: Cell, inner: Option<Cell>): (t: int)
    ensures t == 0 || t == -1
    ensures inner.Some? ==> t == -1
    ensures focused.row < 0 || focused.col < 0 ==> t == -1
  {
    if focused.row == rowIndex && focused.col == colIdx && inner.None? then 0 else -1
  }

  /** The row's cells, one per column in column order. The row reads
      refs[rowIndex][colIdx] for each cell, so that entry must exist. When the
      registry's handles sit at their own coordinates, each cell is handed the
      handle created for it, and no two cells of the row share a handle. */
  function RowCells(rowIndex: nat, focused: Cell, inner: Option<Cell>, refs: seq<seq<Ref>>,
                    columnCount: nat): (cells: seq<CellProps>)
    requires rowIndex < |refs| && columnCount <= |refs[rowIndex]|
    ensures |cells| == columnCount
    ensures forall c :: 0 <= c < columnCount ==>
      && cells[c].colIdx == c && cells[c].rowIdx == rowIndex
      && cells[c].focused == focused && cells[c].inner == inner
      && cells[c].cellRef == refs[rowIndex][c]
    ensures FocusRegistry.OwnCoordinates(refs) ==>
      forall c :: 0 <= c < columnCount ==> cells[c].cellRef.row == rowIndex && cells[c].cellRef.col == c
    ensures FocusRegistry.OwnCoordinates(refs) ==>
      forall i, j :: 0 <= i < j < columnCount ==> cells[i].cellRef != cells[j].cellRef
  {
    seq(columnCount, c requires 0 <= c < columnCount =>
      CellProps(c, rowIndex, focused, inner, refs[rowIndex][c], TabIndexFor(rowIndex, c, focused, inner)))
  }

  /** The rows of the grid, each rendered with the same logical focus. When the
      registry's handles sit at their own coordinates, no two cells anywhere in the
      grid share a handle, so focusing a handle focuses exactly one cell. */
  function GridCells(rowCount: nat, focused: Cell, inner: Option<Cell>, refs: seq<seq<Ref>>,
                     columnCount: nat): (grid: seq<seq<CellProps>>)
    requires rowCount <= |refs|
    requires forall r :: 0 <= r < rowCount ==> columnCount <= |refs[r]|
    ensures |grid| == rowCount
    ensures forall r :: 0 <= r < rowCount ==> grid[r] == RowCells(r, focused, inner, refs, columnCount)
    ensures forall r :: 0 <= r < rowCount ==> |grid[r]| == columnCount
    ensures FocusRegistry.OwnCoordinates(refs) ==>
      forall r1, c1, r2, c2 ::
        (&& 0 <= r1 < rowCount && 0 <= c1 < columnCount && 0 <= r2 < rowCount && 0 <= c2 < columnCount
         && grid[r1][c1].cellRef == grid[r2][c2].cellRef)
        ==> r1 == r2 && c1 == c2
  {
    seq(rowCount, r requires 0 <= r < rowCount => RowCells(r, focused, inner, refs, columnCount))
  }

  /** A cell's tabIndex is 0 exactly when it is the focused cell and inner mode is
      off; every other cell gets -1. */
  lemma TabIndexZeroExactlyOnFocusedCell(rowIndex: nat, focused: Cell, inner: Option<Cell>,
                                         refs: seq<seq<Ref>>, columnCount: nat, c: nat)
    requires rowIndex < |refs| && columnCount <= |refs[rowIndex]| && c < columnCount
    ensures var t := RowCells(rowIndex, focused, inner, refs, columnCount)[c].tabIndex;
      && (t == 0 <==> focused == Cell(rowIndex, c) && inner.None?)
      && (t == 0 || t == -1)
  {
  }

  /** While inner mode is on, no cell of the row is a tab stop. */
  lemma InnerModeRowHasNoTabStop(rowIndex: nat, focused: Cell, inner: Option<Cell>,
                                 refs: seq<seq<Ref>>, columnCount: nat)
    requires rowIndex < |refs| && columnCount <= |refs[rowIndex]| && inner.Some?
    ensures forall c :: 0 <= c < columnCount ==>
      RowCells(rowIndex, focused, inner, refs, columnCount)[c].tabIndex == -1
  {
  }

  /** At most one cell of a row is a tab stop, and with the sentinel focus none is. */
  lemma RowHasAtMostOneTabStop(rowIndex: nat, focused: Cell, inner: Option<Cell>,
                               refs: seq<seq<Ref>>, columnCount: nat)
    requires rowIndex < |refs| && columnCount <= |refs[rowIndex]|
    ensures var cells := RowCells(rowIndex, focused, inner, refs, columnCount);
      forall i, j :: 0 <= i < j < columnCount ==> !(cells[i].tabIndex == 0 && cells[j].tabIndex == 0)
    ensures focused == Cell(-1, -1) ==>
      forall c :: 0 <= c < columnCount ==> RowCells(rowIndex, focused, inner, refs, columnCount)[c].tabIndex == -1
  {
  }

  /** Across the whole grid there is at most one tab stop, and there is one exactly
      when a cell inside the grid is focused and inner mode is off: the roving
      tabindex gives the grid a single tab stop among its cells. */
  lemma GridHasSingleTabStop(rowCount: nat, f: Option<Cell>, inner: Option<Cell>,
                             refs: seq<seq<Ref>>, columnCount: nat)
    requires rowCount <= |refs|
    requires forall r :: 0 <= r < rowCount ==> columnCount <= |refs[r]|
    ensures var grid := GridCells(rowCount, FocusedOrSentinel(f), inner, refs, columnCount);
      && (forall r1, c1, r2, c2 ::
            (&& 0 <= r1 < rowCount && 0 <= c1 < columnCount && 0 <= r2 < rowCount && 0 <= c2 < columnCount
             && grid[r1][c1].tabIndex == 0 && grid[r2][c2].tabIndex == 0)
            ==> r1 == r2 && c1 == c2)
      && ((exists r, c :: 0 <= r < rowCount && 0 <= c < columnCount && grid[r][c].tabIndex == 0) <==>
            (f.Some? && inner.None? && 0 <= f.value.row < rowCount && 0 <= f.value.col < columnCount))
  {
    var focused := FocusedOrSentinel(f);
    var grid: seq<seq<CellProps>> := GridCells(rowCount, focused, inner, refs, columnCount);
    forall r, c | 0 <= r < rowCount && 0 <= c < columnCount
      ensures grid[r][c].tabIndex == 0 <==> focused == Cell(r, c) && inner.None?
    {
      TabIndexZeroExactlyOnFocusedCell(r, focused, inner, refs, columnCount, c);
    }
    if f.Some? && inner.None? && 0 <= f.value.row < rowCount && 0 <= f.value.col < columnCount {
      assert grid[f.value.row][f.value.col].tabIndex == 0;
    }
  }
}
