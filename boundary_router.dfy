/**
 * The boundary Tab router: when Tab or Shift+Tab leaves the grid from cell
 * mode, it picks the element outside the grid that should receive focus. The
 * page's visible, tab-reachable elements are given as their bounding
 * rectangles, in document order.
 */
module BoundaryRouter {
  import opened GridTypes

  /** The part of a bounding rectangle the router compares. */
  datatype Rect = Rect(top: int, left: int, bottom: int)

  /** What the router hands to the deferred focus call. */
  datatype Target = BackToTopButton | PageElement(index: nat)

  /** The router's view of the page: the focusable elements, the grid's own
      rectangle, and whether the back-to-top button is displayed. */
  datatype Page = Page(elements: seq<Rect>, gridRect: Rect, backToTopShown: bool)

  /** An element lies after the grid: strictly below its bottom edge, or on the
      bottom edge and not left of the grid. Such an element never starts above
      the bottom edge, and every element starting below it qualifies. */
  predicate IsAfterGrid(el: Rect, grid: Rect)
    ensures IsAfterGrid(el, grid) ==> el.top >= grid.bottom
    ensures el.top > grid.bottom ==> IsAfterGrid(el, grid)
  {
    el.top > grid.bottom || (el.top == grid.bottom && el.left >= grid.left)
  }

  /** An element lies before the grid: strictly above its top edge, or on the top
      edge and strictly left of the grid. Such an element never starts below the
      top edge, and every element starting above it qualifies. */
  predicate IsBeforeGrid(el: Rect, grid: Rect)
    ensures IsBeforeGrid(el, grid) ==> el.top <= grid.top
    ensures el.top < grid.top ==> IsBeforeGrid(el, grid)
  {
    el.top < grid.top || (el.top == grid.top && el.left < grid.left)
  }

  /** The largest index below `bound` whose element lies before the grid. */
  function LastBeforeBelow(els: seq<Rect>, grid: Rect, bound: nat): (r: Option<nat>)
    requires bound <= |els|
    ensures r.Some? ==> r.value < bound && IsBeforeGrid(els[r.value], grid)
    ensures r.Some? ==> forall j :: r.value < j < bound ==> !IsBeforeGrid(els[j], grid)
    ensures r.None? ==> forall j :: 0 <= j < bound ==> !IsBeforeGrid(els[j], grid)
  {
    if bound == 0 then None
    else if IsBeforeGrid(els[bound - 1], grid) then Some(bound - 1)
    else LastBeforeBelow(els, grid, bound - 1)
  }

  /** The smallest index from `start` on whose element lies after the grid. */
  function FirstAfterFrom(els: seq<Rect>, grid: Rect, start: nat): (r: Option<nat>)
    requires start <= |els|
    ensures r.Some? ==> start <= r.value < |els| && IsAfterGrid(els[r.value], grid)
    ensures r.Some? ==> forall j :: start <= j < r.value ==> !IsAfterGrid(els[j], grid)
    ensures r.None? ==> forall j :: start <= j < |els| ==> !IsAfterGrid(els[j], grid)
    decreases |els| - start
  {
    if start == |els| then None
    else if IsAfterGrid(els[start], grid) then Some(start)
    else FirstAfterFrom(els, grid, start + 1)
  }

  function ToTarget(i: Option<nat>): Option<Target> {
    if i.Some? then Some(PageElement(i.value)) else None
  }

  /** The router's choice: backward, the last element before the grid; forward,
      the back-to-top button whenever it is shown, otherwise the first element
      after the grid; None when nothing qualifies. */
  function Route(page: Page, backward: bool): (t: Option<Target>)
    ensures t.Some? && t.value.PageElement? ==> t.value.index < |page.elements|
    ensures t == Some(BackToTopButton) <==> !backward && page.backToTopShown
  {
    if backward then ToTarget(LastBeforeBelow(page.elements, page.gridRect, |page.elements|))
    else if page.backToTopShown then Some(BackToTopButton)
    else ToTarget(FirstAfterFrom(page.elements, page.gridRect, 0))
  }

  /** What the router promises, stated without reference to how it scans. */
  lemma RouteChoosesBoundaryElement(page: Page, backward: bool)
    ensures var t := Route(page, backward);
      var els, grid := page.elements, page.gridRect;
      && (backward ==>
            && (t.Some? ==>
                  && t.value.PageElement? && t.value.index < |els|
                  && IsBeforeGrid(els[t.value.index], grid)
                  && forall j :: t.value.index < j < |els| ==> !IsBeforeGrid(els[j], grid))
            && (t.None? <==> forall j :: 0 <= j < |els| ==> !IsBeforeGrid(els[j], grid)))
      && (!backward && page.backToTopShown ==> t == Some(BackToTopButton))
      && (!backward && !page.backToTopShown ==>
            && (t.Some? ==>
                  && t.value.PageElement? && t.value.index < |els|
                  && IsAfterGrid(els[t.value.index], grid)
                  && forall j :: 0 <= j < t.value.index ==> !IsAfterGrid(els[j], grid))
            && (t.None? <==> forall j :: 0 <= j < |els| ==> !IsAfterGrid(els[j], grid)))
  {
    var els, grid := page.elements, page.gridRect;
    if backward {
      var r := LastBeforeBelow(els, grid, |els|);
      if r.Some? {
        assert IsBeforeGrid(els[r.value], grid);
      }
    } else if !page.backToTopShown {
      var r := FirstAfterFrom(els, grid, 0);
      if r.Some? {
        assert IsAfterGrid(els[r.value], grid);
      }
    }
  }

  /** Given a grid whose top edge is not below its bottom edge, no element is
      both before and after it, so the two directions never pick the same element. */
  lemma BeforeAndAfterAreDisjoint(el: Rect, grid: Rect)
    requires grid.top <= grid.bottom
    ensures !(IsBeforeGrid(el, grid) && IsAfterGrid(el, grid))
  {
  }

  /** The scan as the handler runs it: index loops that stop at the first hit,
      backward from the end or forward from the start. */
  method FindNextFocusableElement(page: Page, backward: bool) returns (target: Option<Target>)
    ensures target == Route(page, backward)
  {
    var els, grid := page.elements, page.gridRect;
    target := None;
    if backward {
      var i := |els| - 1;
      while i >= 0
        invariant -1 <= i < |els|
        invariant LastBeforeBelow(els, grid, i + 1) == LastBeforeBelow(els, grid, |els|)
      {
        if IsBeforeGrid(els[i], grid) {
          target := Some(PageElement(i));
          break;
        }
        i := i - 1;
      }
    } else {
      if page.backToTopShown {
        target := Some(BackToTopButton);
      }
      if target.None? {
        var i := 0;
        while i < |els|
          invariant 0 <= i <= |els|
          invariant FirstAfterFrom(els, grid, i) == FirstAfterFrom(els, grid, 0)
        {
          if IsAfterGrid(els[i], grid) {
            target := Some(PageElement(i));
            break;
          }
          i := i + 1;
        }
      }
    }
  }
}
