/**
 * Rendering of one grid cell: the attributes of its focusable box, derived
 * from the props its row hands it.
 */
module GridCell {
  import opened GridTypes
  import GridRow

  /** The attributes of the cell's focusable box. */
  datatype BoxAttributes = BoxAttributes(tabIndex: int, isFocused: bool, ariaSelected: bool,
                                         ariaColIndex: int, ariaRowIndex: int, proxyRef: Ref)

  /** The box the cell renders. Its aria-rowindex counts from 2, as though a header
      row occupied index 1. Both ARIA indices are one-based, and the sentinel
      focus (-1, -1) marks no cell as focused. */
  function Box(p: GridRow.CellProps): (b: BoxAttributes)
    ensures b.ariaColIndex >= 1 && b.ariaRowIndex >= 1
    ensures b.isFocused ==> p.focused.row >= 0 && p.focused.col >= 0
  {
    var isFocused := p.focused.row == p.rowIdx && p.focused.col == p.colIdx;
    BoxAttributes(p.tabIndex, isFocused, isFocused, p.colIdx + 1, p.rowIdx + 2, p.cellRef)
  }

  /** A cell is focused exactly when the row's focus coordinate is its own, and
      aria-selected always mirrors that. */
  lemma SelectedExactlyWhenFocused(p: GridRow.CellProps)
    ensures Box(p).isFocused <==> p.focused == Cell(p.rowIdx, p.colIdx)
    ensures Box(p).ariaSelected == Box(p).isFocused
  {
  }

  /** The tabIndex prop reaches the box unchanged, and the box carries the
      registry handle; aria-colindex counts columns from 1. */
  lemma BoxCarriesPropsThrough(p: GridRow.CellProps)
    ensures Box(p).tabIndex == p.tabIndex && Box(p).proxyRef == p.cellRef
    ensures Box(p).ariaColIndex == p.colIdx + 1 && Box(p).ariaColIndex >= 1
  {
  }

  /** The cell's aria-rowindex is one more than that of the row it sits in. */
  lemma CellRowIndexExceedsRows(p: GridRow.CellProps)
    ensures Box(p).ariaRowIndex == GridRow.RowAriaIndex(p.rowIdx) + 1
  {
  }

  /** In a rendered row the single tab stop is the selected cell, and outside inner
      mode the selected cell is the tab stop. */
  lemma TabStopIsSelectedCell(rowIndex: nat, focused: Cell, inner: Option<Cell>,
                              refs: seq<seq<Ref>>, columnCount: nat, c: nat)
    requires rowIndex < |refs| && columnCount <= |refs[rowIndex]| && c < columnCount
    ensures var b := Box(GridRow.RowCells(rowIndex, focused, inner, refs, columnCount)[c]);
      && (b.tabIndex == 0 ==> b.ariaSelected)
      && (b.ariaSelected && inner.None? ==> b.tabIndex == 0)
      && (inner.Some? ==> b.tabIndex == -1)
  {
    GridRow.TabIndexZeroExactlyOnFocusedCell(rowIndex, focused, inner, refs, columnCount, c);
  }
}
