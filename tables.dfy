/**
 * The dashboard's data frame: a header of column names and rows of cells,
 * position for position. A cell holds the text pandas gives the value, or
 * nothing for a missing value (NaN). The frame is renamed and extended with
 * derived coordinate columns in place, as the script does with `df`.
 */
module Tables {
  import opened Wrappers
  import opened Text
  import opened Geometry

  type Cell = Option<string>
  type Row = seq<Cell>

  /** What the script raises: pandas' `KeyError` for a column that is not there. */
  datatype Error = MissingColumn(name: string)

  const LAT: string := "lat"
  const LONG: string := "long"
  const LAT_LONG: string := "lat/long"

  /** Every row has one cell per column. */
  predicate Shaped(columns: seq<string>, rows: seq<Row>) {
    forall i :: 0 <= i < |rows| ==> |rows[i]| == |columns|
  }

  /** The position of the first column called `name`. */
  function IndexOf(columns: seq<string>, name: string): (k: nat)
    requires name in columns
    ensures k < |columns| && columns[k] == name
    ensures forall j :: 0 <= j < k ==> columns[j] != name
  {
    if columns[0] == name then 0 else 1 + IndexOf(columns[1..], name)
  }

  /** The cells of column `k`, one per row. */
  function ColumnAt(rows: seq<Row>, k: nat): (cells: seq<Cell>)
    requires forall i :: 0 <= i < |rows| ==> k < |rows[i]|
    ensures |cells| == |rows|
    ensures forall i :: 0 <= i < |rows| ==> cells[i] == rows[i][k]
  {
    seq(|rows|, i requires 0 <= i < |rows| => rows[i][k])
  }

  /** `df[name]`: the cells of the first column called `name`, or `KeyError`. */
  function Column(columns: seq<string>, rows: seq<Row>, name: string): (r: Result<seq<Cell>, Error>)
    requires Shaped(columns, rows)
    ensures r.Failure? <==> name !in columns
    ensures r.Failure? ==> r.error == MissingColumn(name)
    ensures r.Success? ==> |r.value| == |rows|
    ensures r.Success? ==> forall i :: 0 <= i < |rows| ==> r.value[i] == rows[i][IndexOf(columns, name)]
  {
    if name in columns then Success(ColumnAt(rows, IndexOf(columns, name))) else Failure(MissingColumn(name))
  }

  /**
   * `df[name] = values`: the first column called `name` gets the new cells,
   * or, when there is none, a column `name` is added at the end.
   */
  function WithColumn(columns: seq<string>, rows: seq<Row>, name: string, values: seq<Cell>): (r: (seq<string>, seq<Row>))
    requires Shaped(columns, rows) && |values| == |rows|
    ensures Shaped(r.0, r.1) && |r.1| == |rows|
    ensures name in r.0 && Column(r.0, r.1, name) == Success(values)
    ensures name in columns ==> r.0 == columns
    ensures name !in columns ==> r.0 == columns + [name]
    ensures forall k, i :: 0 <= k < |columns| && columns[k] != name && 0 <= i < |rows| ==> r.1[i][k] == rows[i][k]
  {
    if name in columns then
      var k := IndexOf(columns, name);
      var rows' := seq(|rows|, i requires 0 <= i < |rows| => rows[i][k := values[i]]);
      assert ColumnAt(rows', k) == values;
      (columns, rows')
    else
      var columns' := columns + [name];
      var rows' := seq(|rows|, i requires 0 <= i < |rows| => rows[i] + [values[i]]);
      IndexOfAt(columns', name, |columns|);
      assert ColumnAt(rows', |columns|) == values;
      (columns', rows')
  }

  /** The `lat` column the source derives from the `lat/long` cells. */
  function LatColumn(points: seq<Cell>): (lats: seq<Cell>)
    ensures |lats| == |points|
    ensures forall i :: 0 <= i < |points| ==> lats[i] == LatOf(points[i])
  {
    seq(|points|, i requires 0 <= i < |points| => LatOf(points[i]))
  }

  /** The `long` column the source derives from the `lat/long` cells. */
  function LongColumn(points: seq<Cell>): (longs: seq<Cell>)
    ensures |longs| == |points|
    ensures forall i :: 0 <= i < |points| ==> longs[i] == LongOf(points[i])
  {
    seq(|points|, i requires 0 <= i < |points| => LongOf(points[i]))
  }

  /** Coordinates are derived only when there is no `lat` column but there is a `lat/long` one. */
  predicate NeedsCoordinates(columns: seq<string>) {
    LAT !in columns && LAT_LONG in columns
  }

  /** The frame after the coordinate step: `lat` and then `long` from the `lat/long` cells. */
  function WithCoordinates(columns: seq<string>, rows: seq<Row>): (r: (seq<string>, seq<Row>))
    requires Shaped(columns, rows) && NeedsCoordinates(columns)
    ensures Shaped(r.0, r.1) && |r.1| == |rows|
  {
    var points := ColumnAt(rows, IndexOf(columns, LAT_LONG));
    var withLat := WithColumn(columns, rows, LAT, LatColumn(points));
    WithColumn(withLat.0, withLat.1, LONG, LongColumn(points))
  }

  /**
   * What the coordinate step does to the frame: `lat` is added after the
   * existing columns, `long` is added after it (or replaces an existing
   * `long`), each row's `lat` and `long` cells are the tokens of its
   * `lat/long` cell, and every other column keeps its cells.
   */
  lemma {:induction false} WithCoordinatesEffect(columns: seq<string>, rows: seq<Row>)
    requires Shaped(columns, rows) && NeedsCoordinates(columns)
    ensures var r := WithCoordinates(columns, rows);
      && (LONG in columns ==> r.0 == columns + [LAT])
      && (LONG !in columns ==> r.0 == columns + [LAT, LONG])
      && forall i :: 0 <= i < |rows| ==>
           var point := rows[i][IndexOf(columns, LAT_LONG)];
           && r.1[i][IndexOf(r.0, LAT)] == LatOf(point)
           && r.1[i][IndexOf(r.0, LONG)] == LongOf(point)
           && forall k :: 0 <= k < |columns| && columns[k] != LONG ==> r.1[i][k] == rows[i][k]
  {
    var points := ColumnAt(rows, IndexOf(columns, LAT_LONG));
    var lats := LatColumn(points);
    var longs := LongColumn(points);
    var withLat := WithColumn(columns, rows, LAT, lats);
    var r := WithColumn(withLat.0, withLat.1, LONG, longs);
    assert r == WithCoordinates(columns, rows);
    assert Column(withLat.0, withLat.1, LAT) == Success(lats);
    assert withLat.0 == columns + [LAT];
    assert IndexOf(r.0, LAT) == |columns| by {
      assert r.0[|columns|] == LAT;
      assert IndexOf(withLat.0, LAT) == |columns|;
      assert |columns| < |r.0|;
      assert forall j :: 0 <= j < |columns| ==> r.0[j] == columns[j] != LAT;
      IndexOfAt(r.0, LAT, |columns|);
    }
    forall i | 0 <= i < |rows|
      ensures r.1[i][IndexOf(r.0, LAT)] == LatOf(rows[i][IndexOf(columns, LAT_LONG)])
    {
      assert r.1[i][|columns|] == withLat.1[i][|columns|];
    }
  }

  /** A name's first position is the one with no earlier occurrence. */
  lemma IndexOfAt(columns: seq<string>, name: string, k: nat)
    requires k < |columns| && columns[k] == name
    requires forall j :: 0 <= j < k ==> columns[j] != name
    ensures IndexOf(columns, name) == k
  {
  }

  /** The data frame the script works on, changed in place. */
  class Frame {
    var columns: seq<string>
    var rows: seq<Row>

    predicate Valid()
      reads this
    {
      Shaped(columns, rows)
    }

    constructor (columns: seq<string>, rows: seq<Row>)
      requires Shaped(columns, rows)
      ensures Valid() && this.columns == columns && this.rows == rows
    {
      this.columns := columns;
      this.rows := rows;
    }

    /** `df.columns = [col.lower().replace(' ', '_') for col in df.columns]`. */
    method RenameColumns()
      requires Valid()
      modifies this
      ensures Valid()
      ensures columns == NormalizeColumns(old(columns)) && rows == old(rows)
      ensures forall i :: 0 <= i < |columns| ==> IsNormalized(columns[i])
    {
      NormalizeColumnsIdempotent(columns);
      columns := NormalizeColumns(columns);
    }

    /** `df[name] = values`. */
    method AssignColumn(name: string, values: seq<Cell>)
      requires Valid() && |values| == |rows|
      modifies this
      ensures Valid()
      ensures (columns, rows) == WithColumn(old(columns), old(rows), name, values)
    {
      var r := WithColumn(columns, rows, name, values);
      columns, rows := r.0, r.1;
    }

    /** The coordinate step: `lat` and `long` from the `lat/long` cells, when needed. */
    method DeriveCoordinates()
      requires Valid()
      modifies this
      ensures Valid() && |rows| == |old(rows)|
      ensures NeedsCoordinates(old(columns)) ==> (columns, rows) == WithCoordinates(old(columns), old(rows))
      ensures !NeedsCoordinates(old(columns)) ==> columns == old(columns) && rows == old(rows)
    {
      if NeedsCoordinates(columns) {
        var points := ColumnAt(rows, IndexOf(columns, LAT_LONG));
        AssignColumn(LAT, LatColumn(points));
        AssignColumn(LONG, LongColumn(points));
      }
    }
  }
}
