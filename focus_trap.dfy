/**
 * The inner-mode focus trap: Tab and Shift+Tab cycle over the list
 * [card, ...buttons] of the product card hosted inside a cell.
 */
module FocusTrap {

  /** The product card's action buttons: Edit, Delete and Share. */
  const CARD_BUTTON_COUNT: nat := 3

  /** Length of the trap list: the card's root element when it is found,
      followed by its buttons. */
  function TrapLength(cardPresent: bool, buttonCount: nat): (n: nat)
    ensures n == 0 <==> !cardPresent && buttonCount == 0
    ensures n >= buttonCount
  {
    if cardPresent then 1 + buttonCount else buttonCount
  }

  /** The quotient of a division truncated toward zero, as JavaScript's `%`
      pairs with its remainder. */
  function TruncatedQuotient(a: int, n: int): int
    requires n > 0
  {
    if a >= 0 then a / n else -((-a) / n)
  }

  /** The remainder of JavaScript's `%`: truncating, so its sign follows the dividend
      (Dafny's own `%` is Euclidean). With the two ranges, the division identity
      pins it. */
  function JsRemainder(a: int, n: int): (r: int)
    requires n > 0
    ensures a >= 0 ==> 0 <= r < n
    ensures a < 0 ==> -n < r <= 0
    ensures a == TruncatedQuotient(a, n) * n + r
  {
    if a >= 0 then
      assert a == (a / n) * n + a % n;
      a % n
    else
      var b := -a;
      assert b == (b / n) * n + b % n;
      assert a == (-(b / n)) * n + (-(b % n));
      -(b % n)
  }

  /** The index focused next: (i+1) mod n forward, (i-1+n) mod n backward, where
      i is the index of the active element in the trap list (-1 when it is not in it). */
  function NextTrapIndex(active: int, n: int, backward: bool): (r: int)
    requires n > 0
    ensures -1 <= active < n ==> 0 <= r < n
  {
    if backward then JsRemainder(active - 1 + n, n) else JsRemainder(active + 1, n)
  }

  /** Tab moves one element on and wraps from the last to the first; from outside
      the list it lands on the first element. */
  lemma TabCyclesForward(active: int, n: int)
    requires n > 0 && -1 <= active < n
    ensures NextTrapIndex(active, n, false) == if active == n - 1 then 0 else active + 1
  {
    if active + 1 == n {
      assert n % n == 0;
    }
  }

  /** Shift+Tab moves one element back and wraps from the first to the last; from
      outside the list it lands on the last-but-one element (the first when n == 1). */
  lemma ShiftTabCyclesBackward(active: int, n: int)
    requires n > 0 && -1 <= active < n
    ensures NextTrapIndex(active, n, true) ==
      if active == 0 then n - 1
      else if active == -1 then (if n >= 2 then n - 2 else 0)
      else active - 1
  {
    var a := active - 1 + n;
    if a >= n {
      ShiftDown(a, n);
    } else if a < 0 {
      assert n == 1 && a == -1;
    }
  }

  lemma ShiftDown(a: int, n: int)
    requires n > 0 && n <= a < 2 * n
    ensures a % n == a - n
  {
    assert a == 1 * n + (a - n);
  }

  /** Shift+Tab undoes Tab and Tab undoes Shift+Tab on every element of the list. */
  lemma TabAndShiftTabAreInverse(i: int, n: int)
    requires n > 0 && 0 <= i < n
    ensures NextTrapIndex(NextTrapIndex(i, n, false), n, true) == i
    ensures NextTrapIndex(NextTrapIndex(i, n, true), n, false) == i
  {
    TabCyclesForward(i, n);
    var f := NextTrapIndex(i, n, false);
    ShiftTabCyclesBackward(f, n);
    ShiftTabCyclesBackward(i, n);
    var b := NextTrapIndex(i, n, true);
    TabCyclesForward(b, n);
  }

  /** The product card's trap list is [card, Edit, Delete, Share]. */
  lemma ProductCardTrapHasFourStops()
    ensures TrapLength(true, CARD_BUTTON_COUNT) == 4
  {
  }
}
