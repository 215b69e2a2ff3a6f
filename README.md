# Roving-tabindex product grid: focus state machine

A Dafny model of the keyboard focus core of a React data grid that follows the
Grid pattern of the WAI-ARIA Authoring Practices. Only one cell of the grid
is a tab stop at a time. Arrow keys, Home and End move a logical cursor over
the cells. Enter opens a focus-trapped product card inside the current cell,
and Escape closes it. Tab leaves the grid towards the right element on the page.

The model has these modules:

- `GridTypes` (grid_types.dfy): row records, columns, coordinates, registry handles, the seed rows and columns.
- `RowStore` (row_store.dfy): the rule the infinite load uses to generate rows.
- `FocusTrap` (focus_trap.dfy): the Tab cycle inside the card, with JavaScript's truncating `%` written out.
- `BoundaryRouter` (boundary_router.dfy): `isElementAfterGrid` and `findNextFocusableElement`. The scan is specified by recursive functions and implemented by the handler's index loops with `break`.
- `Navigation` (navigation.dfy): the key handler's `switch` as a pure transition `KeyTransition` on the two optional coordinates, plus grid entry and the inner-mode effect.
- `FocusRegistry` (focus_registry.dfy): the 2-D table of cell handles and its rebuild.
- `GridRow`, `GridCell` (grid_row.dfy, grid_cell.dfy): the per-row and per-cell render projections (`tabIndex`, ARIA attributes, handles).
- `ProductGrid` (product_grid.dfy): the component as a class `Grid`. Its fields are the component state: `rows`, `focused`, `inner`, `loading`, `refs`. Its methods are the handlers and effects. The key handler and the inner-mode effect are proved equal to the pure transitions of `Navigation`, the registry rebuild to `FocusRegistry.Rebuilt` and the load to `RowStore.LoadBatch`. The focus, blur, back-to-top and load-trigger handlers state their new state directly. Six client scenarios walk through concrete interactions: entering from above and walking right into the last column (`WalkRightScenario`), opening the card from the first cell and closing it with Escape (`CardRoundTripScenario`), Tab inside an open card (`CardTrapScenario`), two load triggers giving one batch of rows 4 to 6 (`InfiniteLoadScenario`), Tab out to the back-to-top button and activating it (`BackToTopScenario`), and back to top while a card is open (`BackToTopInInnerModeScenario`).

Logical focus is kept as the component keeps it: two optional coordinates, not one
sum type. Enter records inner mode while the focused cell is still set. The
inner-mode effect then clears the focused cell. `Navigation.Settled` names the
state in which both are not set at once. Key presses keep it, up to the moment between Enter and the inner-mode effect (`Navigation.KeyPressKeepsModesExclusive`). The component as a whole does not always keep it: back to top during inner mode leaves both set (`ProductGrid.BackToTopInInnerModeScenario`).

## Model

| member | source | states |
|---|---|---|
| `GridTypes.NatToString` | src/ProductGrid/ProductGrid.tsx:101-103 | the template literal's rendering of an identifier: at least one character, all decimal digits, two or more exactly from 10 on, and a leading zero only for 0 |
| `GridTypes.NatToStringRoundTrip` | src/ProductGrid/ProductGrid.tsx:101-103 | reading the rendered digits back gives the identifier |
| `GridTypes.RowFor` | src/ProductGrid/ProductGrid.tsx:99-104 | the row rule: row k has id k and value 10*k, and its name "Item " and description "Desc " are each followed by digits that read back as k |
| `GridTypes.RowNamesIdentifyRows` | src/ProductGrid/ProductGrid.tsx:101 | two rows built by the rule with the same name have the same identifier |
| `GridTypes.SeedRowsFollowRowRule` | src/ProductGrid/productGridTypes.ts:23-27 | the seed rows are exactly three, with ids 1, 2, 3 in order, and each is the row `RowFor(id)`: value 10*id, name "Item id", description "Desc id" |
| `GridTypes.OnlyActionsColumnHasInner` | src/ProductGrid/productGridTypes.ts:29-34 | there are four columns; a column has `hasInner` exactly when it is the last one; the last one is "Actions"; a column has no field exactly when it hosts the inner widget |
| `GridTypes.OnlyNameAndValueEditable` | src/ProductGrid/productGridTypes.ts:30-33 | a column is editable exactly when its field is `name` or `value` |
| `RowStore.LoadBatch` | src/ProductGrid/ProductGrid.tsx:99-104 | a batch has three rows whose identifiers all exceed the current row count and increase along the batch |
| `RowStore.SeedRowsFromOne` | src/ProductGrid/productGridTypes.ts:23-27 | the seed rows already follow the loader's rule (row i has id i+1), so a load continues them |
| `RowStore.LoadBatchRows` | src/ProductGrid/ProductGrid.tsx:99-104 | a batch has exactly 3 rows; for k = count+1..count+3 the row has id k, value 10*k, name "Item k" and description "Desc k" |
| `RowStore.LoadKeepsRowsFromOne` | src/ProductGrid/ProductGrid.tsx:99-106 | appending the batch for the current row count keeps the rows numbered 1, 2, 3, ... in order, grows them by 3, and keeps the old rows as a prefix |
| `RowStore.RowIdsIncreasing` | src/ProductGrid/ProductGrid.tsx:100 | in rows built by that rule, identifiers strictly increase, so they are unique |
| `FocusTrap.TrapLength` | src/ProductGrid/ProductGrid.tsx:258-260 | the trap list is empty exactly when the card's root is missing and there are no buttons, and it holds at least the buttons |
| `FocusTrap.JsRemainder` | src/ProductGrid/ProductGrid.tsx:278-281 | JavaScript's `%`: a == q*n + r where q is the quotient truncated toward zero, with r in [0, n) for a non-negative dividend and in (-n, 0] for a negative one, which is the truncating remainder |
| `FocusTrap.NextTrapIndex` | src/ProductGrid/ProductGrid.tsx:277-281 | for every active index -1 <= i < n the next index lies in [0, n) |
| `FocusTrap.TabCyclesForward` | src/ProductGrid/ProductGrid.tsx:281 | Tab goes from i to i+1 and wraps from n-1 to 0; from outside the list it goes to 0 |
| `FocusTrap.ShiftTabCyclesBackward` | src/ProductGrid/ProductGrid.tsx:278-280 | Shift+Tab goes from i to i-1 and wraps from 0 to n-1; from outside the list it goes to n-2 (0 when n == 1) |
| `FocusTrap.TabAndShiftTabAreInverse` | src/ProductGrid/ProductGrid.tsx:277-282 | on every element of the list, Shift+Tab undoes Tab and Tab undoes Shift+Tab |
| `FocusTrap.ProductCardTrapHasFourStops` | src/ProductGrid/ProductCard.tsx:33-92 | the card with its Edit, Delete and Share buttons gives a trap of length 4 |
| `BoundaryRouter.IsAfterGrid` | src/ProductGrid/ProductGrid.tsx:123-134 | an element after the grid never starts above its bottom edge, and every element starting below it is after the grid |
| `BoundaryRouter.IsBeforeGrid` | src/ProductGrid/ProductGrid.tsx:159-162 | an element before the grid never starts below its top edge, and every element starting above it is before the grid |
| `BoundaryRouter.Route` | src/ProductGrid/ProductGrid.tsx:152-193 | a chosen page element is one of the page's elements, and the back-to-top button is chosen exactly on forward Tab while it is shown |
| `BoundaryRouter.LastBeforeBelow` | src/ProductGrid/ProductGrid.tsx:157-166 | returns the largest index below the bound whose element is before the grid, and None exactly when no element below the bound is |
| `BoundaryRouter.FirstAfterFrom` | src/ProductGrid/ProductGrid.tsx:180-189 | returns the smallest index from the start whose element is after the grid, and None exactly when no element from the start on is |
| `BoundaryRouter.RouteChoosesBoundaryElement` | src/ProductGrid/ProductGrid.tsx:155-193 | backward: the last element with top < grid.top, or top == grid.top and left < grid.left. Forward: the back-to-top button whenever it is shown, otherwise the first element with top > grid.bottom, or top == grid.bottom and left >= grid.left. None exactly when nothing qualifies |
| `BoundaryRouter.BeforeAndAfterAreDisjoint` | src/ProductGrid/ProductGrid.tsx:123-134 | for a grid whose top is not below its bottom, no element is both before the grid and after it (`isElementAfterGrid`) |
| `BoundaryRouter.FindNextFocusableElement` | src/ProductGrid/ProductGrid.tsx:137-196 | the handler's index loops with `break` compute exactly the router's choice |
| `Navigation.GridDims` | src/ProductGrid/ProductGrid.tsx:72-80 | the handler's bounds are the last row and column index: a non-empty grid holds its first and last cell, and no cell one past the last row or column |
| `Navigation.GridDimsMatchRegistryRange` | src/ProductGrid/ProductGrid.tsx:72-80 | a cell lies inside the handler's bounds exactly when it lies in the rows.length x columnCount range the registry is built for |
| `Navigation.KeyTransition` | src/ProductGrid/ProductGrid.tsx:231-364 | a key the handler does not prevent changes nothing and requests no focus; a recorded inner-mode cell is either kept or handed back as the focused cell; a newly recorded one is the focused cell, and only Enter records it |
| `Navigation.InnerModeKey` | src/ProductGrid/ProductGrid.tsx:245-287 | leaving inner mode hands focus back to the inner-mode cell and is prevented; staying in it changes nothing; focus never leaves the grid from here; a trap index requested from a valid active index lies in the trap list; with the cell's element missing nothing happens |
| `Navigation.CellModeKey` | src/ProductGrid/ProductGrid.tsx:290-361 | a move from a cell in the grid lands in the grid; only Enter changes inner mode, recording the current cell; only Tab requests a focus call, outside the grid, and it clears the focused cell; an unprevented key changes nothing |
| `Navigation.EntryCell` | src/ProductGrid/ProductGrid.tsx:370-386 | focus arriving from outside enters at the first or the last cell, always inside a non-empty grid, and at the first cell whenever it comes from an element before the grid |
| `Navigation.AfterInnerModeEffect` | src/ProductGrid/ProductGrid.tsx:211-213 | once inner mode is set, the focused cell is cleared. The inner-mode coordinate is kept, the result is settled, and nothing changes outside inner mode |
| `Navigation.IgnoredWithoutCurrentCell` | src/ProductGrid/ProductGrid.tsx:233-240 | an event already default-prevented, or one arriving with neither coordinate set, changes nothing and is not prevented |
| `Navigation.ArrowMovesOneStepWithinBounds` | src/ProductGrid/ProductGrid.tsx:292-315 | in cell mode an arrow moves to the neighbouring cell when it lies in 0..lastRow x 0..lastCol, and otherwise leaves the cell unchanged; inner mode stays off, the key is prevented, nothing else is scheduled |
| `Navigation.RepeatedArrowDownStopsAtLastRow` | src/ProductGrid/ProductGrid.tsx:298-303 | k presses of ArrowDown from row r end at row min(r+k, lastRow), same column |
| `Navigation.HomeAndEndTargets` | src/ProductGrid/ProductGrid.tsx:316-341 | plain Home gives (row, 0) and plain End gives (row, lastCol); with Ctrl or Meta, Home gives (0, 0) and End gives (lastRow, lastCol) whatever the current cell |
| `Navigation.EnterThenEscapeIsRoundTrip` | src/ProductGrid/ProductGrid.tsx:266-346 | Enter records inner mode on the current cell (both set), the inner-mode effect leaves only inner mode, and Escape (lines 266-272) restores exactly the starting cell-mode state |
| `Navigation.InnerTabIsFocusTrap` | src/ProductGrid/ProductGrid.tsx:274-284 | Tab in inner mode leaves the state unchanged, is prevented, and focuses index `NextTrapIndex(i, n, shift)` in [0, n) when n > 0, and nothing when n == 0 |
| `Navigation.InnerModeOnlyEscapeExits` | src/ProductGrid/ProductGrid.tsx:245-287 | in inner mode keys other than Escape and Tab pass through untouched, and inner mode ends exactly on an unprevented Escape with the cell's element present |
| `Navigation.CellTabLeavesGrid` | src/ProductGrid/ProductGrid.tsx:347-358 | Tab in cell mode clears the focused cell, is prevented, and schedules focus on the router's choice, or schedules nothing when there is none |
| `Navigation.TransitionStaysInGrid` | src/ProductGrid/ProductGrid.tsx:292-346 | no key moves a recorded coordinate out of the grid |
| `Navigation.KeyPressKeepsModesExclusive` | src/ProductGrid/ProductGrid.tsx:342-346 | from a settled state only Enter leaves both coordinates set, and then on the same cell; the inner-mode effect settles the state again |
| `Navigation.EntryFromAboveOrBelow` | src/ProductGrid/ProductGrid.tsx:370-386 | entering with no previous element, or from one above the grid, lands on (0, 0); entering from one below the grid lands on (lastRow, lastCol) |
| `Navigation.LeaveAndReturnEntersAtMatchingEnd` | src/ProductGrid/ProductGrid.tsx:373-385 | returning with Shift+Tab from the element forward Tab chose enters at the last cell; returning with Tab from the element Shift+Tab chose enters at the first cell |
| `FocusRegistry.RefAt` | src/ProductGrid/ProductGrid.tsx:201-202 | the optional-chained lookup yields a handle exactly when the row and the column exist; when every handle sits at its own coordinate, the handle found was created for the queried cell and no other cell holds it |
| `FocusRegistry.Rebuilt` | src/ProductGrid/ProductGrid.tsx:55-66 | the rebuilt table has rows.length rows of columnCount handles, and it keeps every handle at the coordinate it was created for when the old table did |
| `FocusRegistry.RebuildKeepsExistingRefs` | src/ProductGrid/ProductGrid.tsx:55-66 | a rebuild gives rows.length rows of columnCount handles, keeps the old handle at every surviving coordinate, and creates handles that differ from every old handle elsewhere |
| `FocusRegistry.RefAtFindsOwnCell` | src/ProductGrid/ProductGrid.tsx:200-205 | in a well-formed table the lookup finds a handle exactly for the coordinates inside the grid's rows and columns, and that handle was created for that coordinate |
| `GridRow.FocusedOrSentinel` | src/ProductGrid/ProductGrid.tsx:476 | rows receive the focused cell, or a sentinel with negative coordinates when there is none |
| `GridRow.RowAriaIndex` | src/ProductGrid/ProductGridRow.tsx:28 | a row's `aria-rowindex` is a one-based position (at least 1) |
| `GridRow.TabIndexFor` | src/ProductGrid/ProductGridRow.tsx:40-52 | a cell's tabIndex is 0 or -1; it is -1 throughout inner mode and for every cell when the focus is the sentinel |
| `GridRow.RowCells` | src/ProductGrid/ProductGridRow.tsx:39-55 | a row renders exactly columnCount cells, with colIdx 0..columnCount-1 in order, each handed refs[rowIndex][colIdx] (which must exist); when every handle sits at its own coordinate, each cell gets the handle created for it and no two cells of the row share one |
| `GridRow.GridCells` | src/ProductGrid/ProductGrid.tsx:458-481 | the grid renders one row per data row, each with the same logical focus; when every handle sits at its own coordinate, no two cells anywhere in the grid share a handle |
| `GridRow.TabIndexZeroExactlyOnFocusedCell` | src/ProductGrid/ProductGridRow.tsx:40-52 | a cell's tabIndex is 0 exactly when it is the focused cell and inner mode is null, and -1 otherwise |
| `GridRow.InnerModeRowHasNoTabStop` | src/ProductGrid/ProductGridRow.tsx:42-52 | while inner mode is set every cell of the row has tabIndex -1 |
| `GridRow.RowHasAtMostOneTabStop` | src/ProductGrid/ProductGridRow.tsx:40-42 | no two cells of a row both have tabIndex 0, and with the sentinel focus (-1, -1) none has |
| `GridRow.GridHasSingleTabStop` | src/ProductGrid/ProductGridRow.tsx:39-52 | across all rendered rows at most one cell has tabIndex 0, and one does exactly when an in-grid cell is focused and inner mode is off |
| `GridCell.Box` | src/ProductGrid/ProductGridCell.tsx:44-61 | both ARIA indices of the box are one-based, and the sentinel focus (-1, -1) marks no cell as focused |
| `GridCell.SelectedExactlyWhenFocused` | src/ProductGrid/ProductGridCell.tsx:44-59 | `isFocused` holds exactly when the focus coordinate is the cell's own, and `aria-selected` always equals it |
| `GridCell.BoxCarriesPropsThrough` | src/ProductGrid/ProductGridCell.tsx:56-60 | the box receives the tabIndex prop unchanged and carries the registry handle; `aria-colindex` is colIdx + 1 |
| `GridCell.CellRowIndexExceedsRows` | src/ProductGrid/ProductGridCell.tsx:61 | a cell's `aria-rowindex` is rowIdx + 2, one more than its row's rowIndex + 1 (ProductGridRow.tsx:28) |
| `GridCell.TabStopIsSelectedCell` | src/ProductGrid/ProductGridCell.tsx:44-61 | in a rendered row the tab stop is selected; outside inner mode the selected cell is the tab stop; in inner mode no cell is |
| `ProductGrid.Grid.constructor` | src/ProductGrid/ProductGrid.tsx:32-36 | the grid starts with the seed rows, no focused cell, no inner mode, not loading, an empty registry |
| `ProductGrid.Grid.RenderedCells` | src/ProductGrid/ProductGrid.tsx:458-481 | the rendered grid has one row per data row and one cell per column; each cell holds the handle created for its coordinate, and its tabIndex is 0 exactly when it is the focused cell and inner mode is off |
| `ProductGrid.Grid.InitializeGridCellRefs` | src/ProductGrid/ProductGrid.tsx:55-66 | the registry is rebuilt only when its length differs from rows.length; afterwards it has rows.length rows and keeps every existing handle |
| `ProductGrid.Grid.ProxyMounted` | src/ProductGrid/ProductGrid.tsx:246-248 | the `?.current` test succeeds only when the cell's registry entry exists; in a valid grid only for a cell inside the grid, on the handle created for that cell |
| `ProductGrid.Grid.FocusCellEffect` | src/ProductGrid/ProductGrid.tsx:199-207 | focus is delegated to refs[row][col] exactly when a cell is focused, inner mode is null and that handle exists and is mounted; that handle belongs to the focused coordinate |
| `ProductGrid.Grid.InnerModeEffect` | src/ProductGrid/ProductGrid.tsx:210-229 | when inner mode is set the focused cell is cleared; the card is focused exactly when the cell's handle is mounted and the card is found |
| `ProductGrid.Grid.KeyDown` | src/ProductGrid/ProductGrid.tsx:231-364 | the handler's new state, preventDefault call and requested focus are those of `KeyTransition`, and it keeps the class invariant (coordinates in the grid) |
| `ProductGrid.Grid.InnerModeKeyDown` | src/ProductGrid/ProductGrid.tsx:245-287 | the inner-mode branch's new state, preventDefault call and requested trap focus are those of `InnerModeKey` |
| `ProductGrid.Grid.CellModeKeyDown` | src/ProductGrid/ProductGrid.tsx:290-361 | the cell-mode branch's new state, preventDefault call and requested outside focus are those of `CellModeKey`; Tab uses the loop method `FindNextFocusableElement` |
| `ProductGrid.Grid.GridFocus` | src/ProductGrid/ProductGrid.tsx:367-409 | acts only with no focused cell and no inner mode; then enters at `EntryCell`: the last cell when the previous element is after the grid, else (0, 0) |
| `ProductGrid.Grid.GridBlur` | src/ProductGrid/ProductGrid.tsx:412-423 | focus leaving for outside the grid while inner mode is off clears the focused cell; otherwise nothing changes |
| `ProductGrid.Grid.BackToTop` | src/ProductGrid/ProductGrid.tsx:113-119 | after the scroll settles the focused cell is (0, 0) and inner mode is unchanged, so the state is settled exactly when inner mode was off |
| `ProductGrid.ForwardTabReachesBackToTopWhenScrolled` | src/ProductGrid/ProductGrid.tsx:122-177 | forward Tab out of the grid goes to the back-to-top button exactly while the first row is not visible; otherwise it goes to a page element or nowhere |
| `ProductGrid.Grid.TriggerLoad` | src/ProductGrid/ProductGrid.tsx:93-96 | a load starts exactly when the last row is visible and none is in flight; it captures the current row count |
| `ProductGrid.Grid.CompleteLoad` | src/ProductGrid/ProductGrid.tsx:98-108 | appends exactly the three rows that continue the identifiers, removes none, and resets `loading` |

## Left out

- DOM queries are inputs. `querySelectorAll` with its `getComputedStyle` filter becomes a given sequence of rectangles in document order. `querySelector('[role="button"]')`, the button query and `document.activeElement` become a `CardView` (card found, button count, active index). A ref's `.current` being mounted is a given set of handles.
- `getBoundingClientRect` returns floating-point rectangles; the model compares integer coordinates.
- Timers and scrolling: the 500 ms load delay, the 300 ms back-to-top delay, `window.scrollTo` and the `setTimeout(..., 0)` focus after Tab. The load is split into `TriggerLoad` and `CompleteLoad`. The deferred focus is returned as an `Effect` value rather than run.
- `useInView` is replaced by the booleans "last row visible" (an argument of `TriggerLoad`) and "first row visible" (`ShouldShowBackToTop`).
- `setAttribute("tabindex", "0")` on the card and the physical `focus()` calls. The effects return the handle that would be focused.
- Tab stops other than the cells' roving tabIndex: the grid's `Table` element, the product cards' native buttons, and the `tabindex="0"` a card keeps after inner mode opens. The model proves a single tab stop among the cells only; the section below lists these.
- Screen-reader announcement nodes and texts, and all styling.
- The re-render scheduling of React. The effects and `InitializeGridCellRefs` are methods the caller runs after the state changes they depend on, and the scenarios run them in that order.
- A change of `columnCount` at run time: the class takes it once, as a precondition `> 0`. The page shell renders the grid without this prop, and the model does not carry that omission over.
- The cell component destructures prop names (`rowIdx`, `focused`, `proxyRef`) that differ from the ones the row passes (`rowIndex`, `focusedCell`, `cellRef`). The model follows the intended data flow from row to cell.
- ProductCard.tsx's button handlers only log. The model keeps one fact from it: the trap list has four stops.
- ProductGridHeader.tsx is not rendered, and App.tsx is the page shell. Neither is part of this model.
- `Grid.KeyDown`: in inner mode the source reads `gridCellRefs.current[row][col].current` without optional chaining. A missing row or column throws, and an unmounted element returns early. The model treats both as "nothing happens".

## Where the code differs from the Grid pattern's usual behaviour

The model follows the code in each case below.

- Registry resizing. A registry of cell handles is expected to be rebuilt whenever either dimension of the grid changes. The code (ProductGrid.tsx:56) rebuilds it only when the number of rows changes.
- Back to top. Back to top is expected to return to cell focus on (0, 0), leaving inner mode. The code (ProductGrid.tsx:117) sets only the focused cell and keeps any inner-mode cell, and the frame of `Grid.BackToTop` keeps `inner` unchanged. So after back to top during inner mode both coordinates are set, as `ProductGrid.BackToTopInInnerModeScenario` shows, and "never both set" holds only across key presses and effects, not for the component as a whole.
- Row index. A cell's `aria-rowindex` is expected to equal its row's. The cell counts from 2 (ProductGridCell.tsx:61), while its row counts from 1 (ProductGridRow.tsx:28). `GridCell.CellRowIndexExceedsRows` states the difference.
- Tab stops outside the cells. Only one tab stop is expected inside the grid. `GridRow.GridHasSingleTabStop` proves a single tab stop among the cells only. Three other kinds of element carry tab stops, and the model leaves them out: the grid's `Table` element always has `tabIndex={0}` (ProductGrid.tsx:449); every cell's product card renders three native buttons that stay in the page's tab order (ProductCard.tsx:61-92); and the `tabindex="0"` set on a card when inner mode opens (ProductGrid.tsx:224) is never removed.
- Escape. Escape is expected always to leave inner mode. The code handles Escape only when the cell's element is mounted (ProductGrid.tsx:248).
