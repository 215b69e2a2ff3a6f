/**
 * The focus registry: a table of cell handles indexed by row and column,
 * rebuilt when the number of rows changes, keeping the handles of the
 * coordinates that survive.
 */
module FocusRegistry {
  import opened GridTypes

  /** Every handle of the table was created for the coordinate it sits at. */
  predicate OwnCoordinates(refs: seq<seq<Ref>>) {
    forall r, c :: 0 <= r < |refs| && 0 <= c < |refs[r]| ==> refs[r][c].row == r && refs[r][c].col == c
  }

  /** The optional-chained lookup: None when the row or the column is missing.
      In a table whose handles sit at their own coordinates, the handle found
      belongs to the queried cell, and no other cell's lookup finds it. */
  function RefAt(refs: seq<seq<Ref>>, c: Cell): (r: Option<Ref>)
    ensures r.Some? <==> 0 <= c.row < |refs| && 0 <= c.col < |refs[c.row]|
    ensures r.Some? ==> r.value == refs[c.row][c.col]
    ensures OwnCoordinates(refs) && r.Some? ==> r.value.row == c.row && r.value.col == c.col
    ensures OwnCoordinates(refs) && r.Some? ==>
      forall c': Cell :: 0 <= c'.row < |refs| && 0 <= c'.col < |refs[c'.row]| && refs[c'.row][c'.col] == r.value ==> c' == c
  {
    if 0 <= c.row < |refs| && 0 <= c.col < |refs[c.row]| then Some(refs[c.row][c.col]) else None
  }

  /** Every row of the table has one handle per column, every handle sits at the
      coordinate it was created for, and every handle comes from a rebuild
      before `generation`. */
  predicate WellFormed(refs: seq<seq<Ref>>, columnCount: nat, generation: nat) {
    && (forall r :: 0 <= r < |refs| ==> |refs[r]| == columnCount)
    && OwnCoordinates(refs)
    && (forall r, c :: 0 <= r < |refs| && 0 <= c < |refs[r]| ==> refs[r][c].generation < generation)
  }

  /** The table after a rebuild for `rowCount` rows: each entry is the previous
      handle at that coordinate when there is one, and a new handle otherwise. */
  function Rebuilt(prev: seq<seq<Ref>>, rowCount: nat, columnCount: nat, generation: nat): (next: seq<seq<Ref>>)
    ensures |next| == rowCount
    ensures forall r :: 0 <= r < rowCount ==> |next[r]| == columnCount
    ensures OwnCoordinates(prev) ==> OwnCoordinates(next)
  {
    seq(rowCount, r requires 0 <= r < rowCount =>
      seq(columnCount, c requires 0 <= c < columnCount =>
        if r < |prev| && c < |prev[r]| then prev[r][c] else Ref(generation, r, c)))
  }

  /** A rebuild gives `rowCount` rows of `columnCount` handles, keeps the previous
      handle at every surviving coordinate, and creates handles that differ from
      every previous one elsewhere. */
  lemma RebuildKeepsExistingRefs(prev: seq<seq<Ref>>, rowCount: nat, columnCount: nat, generation: nat)
    requires WellFormed(prev, columnCount, generation)
    ensures var next := Rebuilt(prev, rowCount, columnCount, generation);
      && |next| == rowCount
      && WellFormed(next, columnCount, generation + 1)
      && (forall r, c :: 0 <= r < |prev| && r < rowCount && 0 <= c < |prev[r]| && c < columnCount ==>
            next[r][c] == prev[r][c])
      && (forall r, c :: 0 <= r < rowCount && 0 <= c < columnCount && !(r < |prev| && c < |prev[r]|) ==>
            forall r', c' :: 0 <= r' < |prev| && 0 <= c' < |prev[r']| ==> next[r][c] != prev[r'][c'])
  {
    var next := Rebuilt(prev, rowCount, columnCount, generation);
    forall r | 0 <= r < rowCount
      ensures |next[r]| == columnCount
      ensures forall c :: 0 <= c < columnCount ==>
        next[r][c] == if r < |prev| && c < |prev[r]| then prev[r][c] else Ref(generation, r, c)
    {
    }
  }

  /** In a well-formed table the lookup finds a handle exactly for the coordinates
      of the grid's rows and columns, and that handle was created for that very
      coordinate, so delegation focuses the right cell. */
  lemma RefAtFindsOwnCell(refs: seq<seq<Ref>>, columnCount: nat, generation: nat, c: Cell)
    requires WellFormed(refs, columnCount, generation)
    ensures RefAt(refs, c).Some? <==> 0 <= c.row < |refs| && 0 <= c.col < columnCount
    ensures RefAt(refs, c).Some? ==> RefAt(refs, c).value.row == c.row && RefAt(refs, c).value.col == c.col
  {
  }
}
