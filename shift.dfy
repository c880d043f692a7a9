/**
 * The AM/PM aggregation the dashboard runs twice, once over the activity
 * columns and once over the human-interaction columns: for every column, the
 * number of AM rows and of PM rows whose cell reads `true` in any case,
 * gathered row by row into a wide table and then melted into a long one.
 */
module ShiftAggregation {
  import opened Wrappers
  import opened Text
  import opened Tables

  const SHIFT: string := "shift"
  const AM: string := "AM"
  const PM: string := "PM"

  /** A row of the wide table the loop builds: category, AM count, PM count. */
  datatype WideRow = WideRow(category: string, am: nat, pm: nat)

  /** A row of the melted table: category, shift, count. */
  datatype TidyRow = TidyRow(category: string, shift: string, count: nat)

  /** `astype(str)`: a missing value prints as `nan`. */
  function CellText(c: Cell): (t: string)
    ensures c.Some? ==> t == c.value
  {
    match c
    case None => "nan"
    case Some(s) => s
  }

  /** `.astype(str).str.lower().eq('true')`. */
  predicate IsTrue(c: Cell)
    ensures IsTrue(c) <==> c.Some? && Lower(c.value) == "true"
  {
    var t := CellText(c);
    assert c.None? ==> Lower(t)[0] == 'n';
    Lower(t) == "true"
  }

  /** The number of rows whose shift cell is `shift`. */
  function CountShift(shifts: seq<Cell>, shift: string): (n: nat)
    ensures n <= |shifts|
  {
    if |shifts| == 0 then 0
    else (if shifts[0] == Some(shift) then 1 else 0) + CountShift(shifts[1..], shift)
  }

  /**
   * `df[df['shift'] == shift][col].astype(str).str.lower().eq('true').sum()`,
   * with the shift cells and the column's cells given row by row.
   */
  function CountTrue(shifts: seq<Cell>, values: seq<Cell>, shift: string): (n: nat)
    requires |shifts| == |values|
    ensures n <= |values|
  {
    if |values| == 0 then 0
    else (if shifts[0] == Some(shift) && IsTrue(values[0]) then 1 else 0) + CountTrue(shifts[1..], values[1..], shift)
  }

  /** A shift's count never exceeds the number of rows of that shift. */
  lemma {:induction false} CountTrueAtMostShift(shifts: seq<Cell>, values: seq<Cell>, shift: string)
    requires |shifts| == |values|
    ensures CountTrue(shifts, values, shift) <= CountShift(shifts, shift)
  {
    if |values| > 0 {
      CountTrueAtMostShift(shifts[1..], values[1..], shift);
    }
  }

  /** Two different shifts select disjoint rows, so their counts add up to at most the row count. */
  lemma {:induction false} CountTrueDisjoint(shifts: seq<Cell>, values: seq<Cell>, s1: string, s2: string)
    requires |shifts| == |values| && s1 != s2
    ensures CountTrue(shifts, values, s1) + CountTrue(shifts, values, s2) <= |values|
  {
    if |values| > 0 {
      CountTrueDisjoint(shifts[1..], values[1..], s1, s2);
    }
  }

  /** A cell counts exactly when it holds `true` in some mix of cases; a missing value never does. */
  lemma IsTrueCases()
    ensures IsTrue(Some("true")) && IsTrue(Some("True")) && IsTrue(Some("TRUE"))
    ensures !IsTrue(None) && !IsTrue(Some("false")) && !IsTrue(Some("")) && !IsTrue(Some(" true"))
  {
    assert Lower("nan") == "nan";
    assert Lower("True") == "true";
    assert Lower("TRUE") == "true";
    assert Lower("true") == "true";
    assert Lower("false")[0] == 'f';
    assert Lower(" true")[0] == ' ';
  }

  /** The loop body for one column: look up `shift`, then the column, then count. */
  function Entry(columns: seq<string>, rows: seq<Row>, col: string): (r: Result<WideRow, Error>)
    requires Shaped(columns, rows)
    ensures r.Success? <==> SHIFT in columns && col in columns
    ensures SHIFT !in columns ==> r == Failure(MissingColumn(SHIFT))
    ensures SHIFT in columns && col !in columns ==> r == Failure(MissingColumn(col))
  {
    match Column(columns, rows, SHIFT)
    case Failure(e) => Failure(e)
    case Success(shifts) =>
      match Column(columns, rows, col)
      case Failure(e) => Failure(e)
      case Success(values) =>
        Success(WideRow(Capitalize(col), CountTrue(shifts, values, AM), CountTrue(shifts, values, PM)))
  }

  /** The wide table after the loop has run over `cols`, or the `KeyError` that stopped it. */
  function WideTable(columns: seq<string>, rows: seq<Row>, cols: seq<string>): (r: Result<seq<WideRow>, Error>)
    requires Shaped(columns, rows)
    ensures r.Success? ==> |r.value| == |cols|
    decreases |cols|
  {
    if cols == [] then Success([])
    else
      match WideTable(columns, rows, cols[..|cols| - 1])
      case Failure(e) => Failure(e)
      case Success(w) =>
        match Entry(columns, rows, cols[|cols| - 1])
        case Failure(e) => Failure(e)
        case Success(x) => Success(w + [x])
  }

  /**
   * `pd.melt(wide, id_vars=[category], value_vars=['AM', 'PM'])`: first every
   * AM row, then every PM row, each group in the order of the wide table.
   */
  function Melt(w: seq<WideRow>): (t: seq<TidyRow>)
    ensures |t| == 2 * |w|
    ensures forall i :: 0 <= i < |w| ==> t[i] == TidyRow(w[i].category, AM, w[i].am)
    ensures forall i :: 0 <= i < |w| ==> t[|w| + i] == TidyRow(w[i].category, PM, w[i].pm)
  {
    seq(|w|, i requires 0 <= i < |w| => TidyRow(w[i].category, AM, w[i].am))
      + seq(|w|, i requires 0 <= i < |w| => TidyRow(w[i].category, PM, w[i].pm))
  }

  /**
   * The long table of one aggregation pass over `cols`. `idVar` is the name
   * of the wide table's category column; with no columns at all the wide table
   * is empty and melting it raises a `KeyError` for `idVar`.
   */
  function ShiftTable(columns: seq<string>, rows: seq<Row>, cols: seq<string>, idVar: string): (r: Result<seq<TidyRow>, Error>)
    requires Shaped(columns, rows)
    ensures r.Success? ==> |cols| > 0 && |r.value| == 2 * |cols|
    ensures |cols| == 0 ==> r == Failure(MissingColumn(idVar))
  {
    match WideTable(columns, rows, cols)
    case Failure(e) => Failure(e)
    case Success(w) => if |w| == 0 then Failure(MissingColumn(idVar)) else Success(Melt(w))
  }

  /** One aggregation pass: the loop over `cols`, the concatenation, the melt. */
  method AggregateByShift(columns: seq<string>, rows: seq<Row>, cols: seq<string>, idVar: string)
    returns (r: Result<seq<TidyRow>, Error>)
    requires Shaped(columns, rows)
    ensures r == ShiftTable(columns, rows, cols, idVar)
  {
    var wide: seq<WideRow> := [];
    var i := 0;
    while i < |cols|
      invariant 0 <= i <= |cols|
      invariant WideTable(columns, rows, cols[..i]) == Success(wide)
    {
      assert cols[..i + 1][..i] == cols[..i] && cols[..i + 1][i] == cols[i];
      var shifts := Column(columns, rows, SHIFT);
      if shifts.Failure? {
        PrefixFailure(columns, rows, cols, i + 1);
        return Failure(shifts.error);
      }
      var values := Column(columns, rows, cols[i]);
      if values.Failure? {
        PrefixFailure(columns, rows, cols, i + 1);
        return Failure(values.error);
      }
      var am := CountTrue(shifts.value, values.value, AM);
      var pm := CountTrue(shifts.value, values.value, PM);
      assert Entry(columns, rows, cols[i]) == Success(WideRow(Capitalize(cols[i]), am, pm));
      wide := wide + [WideRow(Capitalize(cols[i]), am, pm)];
      i := i + 1;
    }
    assert cols[..i] == cols;
    if |wide| == 0 {
      return Failure(MissingColumn(idVar));
    }
    r := Success(Melt(wide));
  }

  /** Once a prefix of the columns fails, the whole pass fails with the same error. */
  lemma {:induction false} PrefixFailure(columns: seq<string>, rows: seq<Row>, cols: seq<string>, n: nat)
    requires Shaped(columns, rows) && n <= |cols|
    requires WideTable(columns, rows, cols[..n]).Failure?
    ensures WideTable(columns, rows, cols) == WideTable(columns, rows, cols[..n])
    decreases |cols| - n
  {
    if n < |cols| {
      assert cols[..n + 1][..n] == cols[..n];
      PrefixFailure(columns, rows, cols, n + 1);
    } else {
      assert cols[..n] == cols;
    }
  }

  /** Where the wide table's rows come from: row `i` is column `cols[i]`. */
  lemma {:induction false} WideTableRows(columns: seq<string>, rows: seq<Row>, cols: seq<string>)
    requires Shaped(columns, rows)
    ensures WideTable(columns, rows, cols).Success? <==> (|cols| > 0 ==> SHIFT in columns) && forall c :: c in cols ==> c in columns
    ensures WideTable(columns, rows, cols).Success? ==>
      forall i :: 0 <= i < |cols| ==> Entry(columns, rows, cols[i]) == Success(WideTable(columns, rows, cols).value[i])
    decreases |cols|
  {
    if cols != [] {
      var init := cols[..|cols| - 1];
      WideTableRows(columns, rows, init);
      assert cols == init + [cols[|cols| - 1]];
      assert forall c :: c in cols <==> c in init || c == cols[|cols| - 1];
    }
  }

  /**
   * The first missing column stops the pass: `shift` when it is absent,
   * otherwise the first column of `cols` that the frame lacks.
   */
  lemma {:induction false} WideTableFirstMissing(columns: seq<string>, rows: seq<Row>, cols: seq<string>, k: nat)
    requires Shaped(columns, rows)
    requires k < |cols| && cols[k] !in columns && forall j :: 0 <= j < k ==> cols[j] in columns
    ensures SHIFT !in columns ==> WideTable(columns, rows, cols) == Failure(MissingColumn(SHIFT))
    ensures SHIFT in columns ==> WideTable(columns, rows, cols) == Failure(MissingColumn(cols[k]))
    decreases |cols|
  {
    var init := cols[..|cols| - 1];
    if k < |cols| - 1 {
      WideTableFirstMissing(columns, rows, init, k);
    } else {
      WideTableRows(columns, rows, init);
      if SHIFT in columns {
        assert forall c :: c in init ==> c in columns;
      } else if WideTable(columns, rows, init).Failure? {
        WideTableNoShift(columns, rows, init);
      }
    }
  }

  /** Without a `shift` column, any non-empty pass fails on `shift`. */
  lemma {:induction false} WideTableNoShift(columns: seq<string>, rows: seq<Row>, cols: seq<string>)
    requires Shaped(columns, rows) && SHIFT !in columns && |cols| > 0
    ensures WideTable(columns, rows, cols) == Failure(MissingColumn(SHIFT))
    decreases |cols|
  {
    if |cols| > 1 {
      WideTableNoShift(columns, rows, cols[..|cols| - 1]);
    }
  }

  /**
   * A pass succeeds exactly when there is at least one column, `shift` is
   * present and every listed column is present; then its table has 2 × n rows:
   * row i is (category of column i, AM, its AM count) and row n + i is
   * (category of column i, PM, its PM count), the category being the capitalised
   * column name.
   */
  lemma ShiftTableShape(columns: seq<string>, rows: seq<Row>, cols: seq<string>, idVar: string)
    requires Shaped(columns, rows)
    ensures var r := ShiftTable(columns, rows, cols, idVar);
      r.Success? <==> |cols| > 0 && SHIFT in columns && forall c :: c in cols ==> c in columns
    ensures var r := ShiftTable(columns, rows, cols, idVar);
      r.Success? ==>
        && |r.value| == 2 * |cols|
        && var shifts := ColumnAt(rows, IndexOf(columns, SHIFT));
           forall i :: 0 <= i < |cols| ==>
             var values := ColumnAt(rows, IndexOf(columns, cols[i]));
             && r.value[i] == TidyRow(Capitalize(cols[i]), AM, CountTrue(shifts, values, AM))
             && r.value[|cols| + i] == TidyRow(Capitalize(cols[i]), PM, CountTrue(shifts, values, PM))
    ensures |cols| == 0 ==> ShiftTable(columns, rows, cols, idVar) == Failure(MissingColumn(idVar))
    ensures |cols| > 0 && SHIFT !in columns ==> ShiftTable(columns, rows, cols, idVar) == Failure(MissingColumn(SHIFT))
  {
    WideTableRows(columns, rows, cols);
    if |cols| > 0 && SHIFT !in columns {
      WideTableNoShift(columns, rows, cols);
    }
  }

  /** On a missing column the pass raises for `shift` first, then for the first absent listed column. */
  lemma ShiftTableMissing(columns: seq<string>, rows: seq<Row>, cols: seq<string>, idVar: string, k: nat)
    requires Shaped(columns, rows)
    requires k < |cols| && cols[k] !in columns && forall j :: 0 <= j < k ==> cols[j] in columns
    ensures SHIFT !in columns ==> ShiftTable(columns, rows, cols, idVar) == Failure(MissingColumn(SHIFT))
    ensures SHIFT in columns ==> ShiftTable(columns, rows, cols, idVar) == Failure(MissingColumn(cols[k]))
  {
    WideTableFirstMissing(columns, rows, cols, k);
  }

  /** With distinct labels, every (category, shift) pair occurs exactly once in the melted table. */
  lemma MeltPairsUnique(w: seq<WideRow>)
    requires forall i, j :: 0 <= i < j < |w| ==> w[i].category != w[j].category
    ensures forall i, j :: 0 <= i < j < |Melt(w)| ==>
      Melt(w)[i].category != Melt(w)[j].category || Melt(w)[i].shift != Melt(w)[j].shift
  {
    var t := Melt(w);
    var n := |w|;
    forall i, j | 0 <= i < j < |t| ensures t[i].category != t[j].category || t[i].shift != t[j].shift {
      if j < n {
        assert t[i].category == w[i].category && t[j].category == w[j].category;
      } else if i >= n {
        assert t[i].category == w[i - n].category && t[j].category == w[j - n].category;
      } else {
        assert t[i].shift == AM && t[j].shift == PM;
      }
    }
  }

  /**
   * For distinct column names without upper-case letters (the rename
   * guarantees that for frame columns), every (category, shift) pair of a
   * successful pass occurs exactly once.
   */
  lemma ShiftTablePairsUnique(columns: seq<string>, rows: seq<Row>, cols: seq<string>, idVar: string)
    requires Shaped(columns, rows)
    requires forall i :: 0 <= i < |cols| ==> NoUpper(cols[i])
    requires forall i, j :: 0 <= i < j < |cols| ==> cols[i] != cols[j]
    ensures var r := ShiftTable(columns, rows, cols, idVar);
      r.Success? ==> forall i, j :: 0 <= i < j < |r.value| ==>
        r.value[i].category != r.value[j].category || r.value[i].shift != r.value[j].shift
  {
    var wt := WideTable(columns, rows, cols);
    if wt.Success? && |wt.value| > 0 {
      var w := wt.value;
      WideTableRows(columns, rows, cols);
      forall i, j | 0 <= i < j < |w| ensures w[i].category != w[j].category {
        assert w[i].category == Capitalize(cols[i]) && w[j].category == Capitalize(cols[j]);
        if Capitalize(cols[i]) == Capitalize(cols[j]) {
          CapitalizeInjective(cols[i], cols[j]);
        }
      }
      MeltPairsUnique(w);
    }
  }

  /** Each pass's AM and PM counts for a column add up to at most the number of rows. */
  lemma ShiftTableCountsBounded(columns: seq<string>, rows: seq<Row>, cols: seq<string>, idVar: string, t: seq<TidyRow>)
    requires Shaped(columns, rows)
    requires ShiftTable(columns, rows, cols, idVar) == Success(t)
    ensures |t| == 2 * |cols|
    ensures forall i :: 0 <= i < |cols| ==> t[i].count <= CountShift(ColumnAt(rows, IndexOf(columns, SHIFT)), AM)
    ensures forall j :: |cols| <= j < |t| ==> t[j].count <= CountShift(ColumnAt(rows, IndexOf(columns, SHIFT)), PM)
    ensures forall i :: 0 <= i < |cols| ==> t[i].count + t[|cols| + i].count <= |rows|
  {
    ShiftTableShape(columns, rows, cols, idVar);
    var shifts := ColumnAt(rows, IndexOf(columns, SHIFT));
    forall i | 0 <= i < |cols|
      ensures t[i].count <= CountShift(shifts, AM)
      ensures t[i].count + t[|cols| + i].count <= |rows|
    {
      var values := ColumnAt(rows, IndexOf(columns, cols[i]));
      CountTrueAtMostShift(shifts, values, AM);
      CountTrueDisjoint(shifts, values, AM, PM);
    }
    forall j | |cols| <= j < |t|
      ensures t[j].count <= CountShift(shifts, PM)
    {
      var i := j - |cols|;
      var values := ColumnAt(rows, IndexOf(columns, cols[i]));
      CountTrueAtMostShift(shifts, values, PM);
    }
  }
}
