/**
 * The row store: the rule by which the infinite-load step generates rows, and
 * the invariant that identifiers stay consecutive from 1.
 */
module RowStore {
  import opened GridTypes

  /** Rows appended per completed load. */
  const LOAD_BATCH_SIZE: nat := 3

  /** Every row holds the record of its own one-based position. */
  predicate RowsFromOne(rows: seq<RowData>) {
    forall i :: 0 <= i < |rows| ==> rows[i] == RowFor(i + 1)
  }

  /** The batch a load generates when the grid holds `count` rows: a fixed number
      of rows whose identifiers all exceed `count` and increase along the batch. */
  function LoadBatch(count: nat): (b: seq<RowData>)
    ensures |b| == LOAD_BATCH_SIZE
    ensures forall i :: 0 <= i < |b| ==> b[i].id > count
    ensures forall i, j :: 0 <= i < j < |b| ==> b[i].id < b[j].id
  {
    var b := seq(LOAD_BATCH_SIZE, i requires 0 <= i < LOAD_BATCH_SIZE => RowFor(count + i + 1));
    assert forall i :: 0 <= i < |b| ==> b[i] == RowFor(count + i + 1);
    b
  }

  /** A batch holds exactly three rows, for identifiers count+1 .. count+3, each
      with value 10*k, name "Item k" and description "Desc k". */
  lemma LoadBatchRows(count: nat)
    ensures |LoadBatch(count)| == 3
    ensures forall i :: 0 <= i < 3 ==>
      var k := count + i + 1;
      && LoadBatch(count)[i].id == k
      && LoadBatch(count)[i].value == 10 * k
      && LoadBatch(count)[i].name == "Item " + NatToString(k)
      && LoadBatch(count)[i].description == "Desc " + NatToString(k)
  {
    var b := LoadBatch(count);
    forall i | 0 <= i < 3
      ensures var k := count + i + 1;
        && b[i].id == k && b[i].value == 10 * k
        && b[i].name == "Item " + NatToString(k) && b[i].description == "Desc " + NatToString(k)
    {
      assert b[i] == RowFor(count + i + 1);
    }
  }

  /** Appending the batch for the current row count keeps the rows identified
      1, 2, 3, ... in order, and keeps the old rows as a prefix. */
  lemma LoadKeepsRowsFromOne(rows: seq<RowData>)
    requires RowsFromOne(rows)
    ensures RowsFromOne(rows + LoadBatch(|rows|))
    ensures |rows + LoadBatch(|rows|)| == |rows| + 3
    ensures rows <= rows + LoadBatch(|rows|)
  {
    var grown := rows + LoadBatch(|rows|);
    forall i | 0 <= i < |grown| ensures grown[i] == RowFor(i + 1) {
      if i >= |rows| {
        assert grown[i] == LoadBatch(|rows|)[i - |rows|];
      }
    }
  }

  /** The seed rows already satisfy the loader's rule, so the loader continues them. */
  lemma SeedRowsFromOne()
    ensures RowsFromOne(InitialRows)
  {
    SeedRowsFollowRowRule();
  }

  /** In rows following the rule, identifiers are distinct and increasing. */
  lemma RowIdsIncreasing(rows: seq<RowData>, i: int, j: int)
    requires RowsFromOne(rows)
    requires 0 <= i < j < |rows|
    ensures rows[i].id < rows[j].id
  {
  }
}
