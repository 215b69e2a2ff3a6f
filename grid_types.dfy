/**
 * Shared types of the product grid and its seed data: row records, column
 * descriptors, grid coordinates and the handles of the focus registry.
 */
module GridTypes {

  datatype Option<T> = None | Some(value: T)

  /** A grid coordinate. The row renderer is also handed the sentinel (-1, -1)
      when no cell holds logical focus, so both components are plain integers. */
  datatype Cell = Cell(row: int, col: int)

  /** One product row; immutable once created. */
  datatype RowData = RowData(id: int, name: string, value: int, description: string)

  /** The keys of RowData a column may display. */
  datatype Field = Id | Name | Value | Description

  datatype Column = Column(field: Option<Field>, headerName: string, editable: bool, hasInner: bool)

  /** An opaque handle of the focus registry. A handle is created by one rebuild
      of the registry (its generation) for one coordinate; handles of different
      rebuilds are different objects. */
  datatype Ref = Ref(generation: nat, row: nat, col: nat)

  /** Decimal rendering of a natural number, as a template literal gives it. */
  function NatToString(n: nat): (s: string)
    ensures |s| >= 1
    ensures forall i :: 0 <= i < |s| ==> '0' <= s[i] <= '9'
    ensures n >= 10 <==> |s| >= 2
    ensures s[0] == '0' <==> n == 0
  {
    if n < 10 then [DigitChar(n)] else NatToString(n / 10) + [DigitChar(n % 10)]
  }

  function DigitChar(d: nat): (c: char)
    requires d < 10
    ensures '0' <= c <= '9'
    ensures c == '0' <==> d == 0
  {
    ('0' as int + d) as char
  }

  predicate AllDigits(s: string) {
    forall i :: 0 <= i < |s| ==> '0' <= s[i] <= '9'
  }

  /** The number a string of decimal digits denotes. */
  function DecimalValue(s: string): nat
    requires AllDigits(s)
  {
    if |s| == 0 then 0 else 10 * DecimalValue(s[..|s| - 1]) + (s[|s| - 1] - '0') as nat
  }

  /** Reading back the decimal rendering of a number gives that number. */
  lemma {:induction false} NatToStringRoundTrip(n: nat)
    ensures DecimalValue(NatToString(n)) == n
  {
    var q, d := n / 10, n % 10;
    assert (DigitChar(d) - '0') as nat == d;
    if n >= 10 {
      var prefix := NatToString(q);
      var s := prefix + [DigitChar(d)];
      assert s[..|s| - 1] == prefix;
      NatToStringRoundTrip(q);
      assert n == 10 * q + d;
    }
  }

  /** The row with identifier k, following the one rule both the seed data and
      the loader use: value 10*k, name "Item k", description "Desc k". The name
      and the description each spell out the identifier, so they identify the row. */
  function RowFor(k: nat): (r: RowData)
    ensures |r.name| > 5 && r.name[..5] == "Item " && AllDigits(r.name[5..]) && DecimalValue(r.name[5..]) == r.id
    ensures |r.description| > 5 && r.description[..5] == "Desc " && AllDigits(r.description[5..]) && DecimalValue(r.description[5..]) == r.id
    ensures r.id == k && r.value == 10 * k
  {
    NatToStringRoundTrip(k);
    var name := "Item " + NatToString(k);
    var description := "Desc " + NatToString(k);
    assert name[5..] == NatToString(k) && description[5..] == NatToString(k);
    RowData(k, name, 10 * k, description)
  }

  /** Rows built by the rule with equal names are the same row. */
  lemma RowNamesIdentifyRows(j: nat, k: nat)
    requires RowFor(j).name == RowFor(k).name
    ensures j == k
  {
    assert RowFor(j).id == DecimalValue(RowFor(j).name[5..]);
  }

  /** The seed rows the grid starts with. */
  const InitialRows: seq<RowData> := [
    RowData(1, "Item 1", 10, "Desc 1"),
    RowData(2, "Item 2", 20, "Desc 2"),
    RowData(3, "Item 3", 30, "Desc 3")
  ]

  /** The column descriptors. */
  const Columns: seq<Column> := [
    Column(Some(Id), "ID", false, false),
    Column(Some(Name), "Name", true, false),
    Column(Some(Value), "Value", true, false),
    Column(None, "Actions", false, true)
  ]

  /** The seed data holds exactly the rows 1, 2, 3 of the loader's rule, in order. */
  lemma SeedRowsFollowRowRule()
    ensures |InitialRows| == 3
    ensures forall i :: 0 <= i < |InitialRows| ==> InitialRows[i].id == i + 1
    ensures forall i :: 0 <= i < |InitialRows| ==> InitialRows[i] == RowFor(i + 1)
  {
    assert NatToString(1) == "1" && NatToString(2) == "2" && NatToString(3) == "3";
    assert InitialRows[0] == RowFor(1);
    assert InitialRows[1] == RowFor(2);
    assert InitialRows[2] == RowFor(3);
  }

  /** Four columns; only the last one ("Actions") hosts the inner widget, and it
      displays no field. */
  lemma OnlyActionsColumnHasInner()
    ensures |Columns| == 4
    ensures forall i :: 0 <= i < |Columns| ==> (Columns[i].hasInner <==> i == |Columns| - 1)
    ensures Columns[|Columns| - 1].field == None && Columns[|Columns| - 1].headerName == "Actions"
    ensures forall i :: 0 <= i < |Columns| ==> (Columns[i].field == None <==> Columns[i].hasInner)
  {
  }

  /** Exactly the "name" and "value" columns are editable. */
  lemma OnlyNameAndValueEditable()
    ensures forall i :: 0 <= i < |Columns| ==>
      (Columns[i].editable <==> Columns[i].field == Some(Name) || Columns[i].field == Some(Value))
  {
  }
}
