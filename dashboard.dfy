/**
 * The script from top to bottom, without its charts and page text: rename
 * the columns, derive the coordinates, aggregate the activity and the
 * interaction columns by shift, and count the fur colours. The first
 * `KeyError` stops the script, as it would stop the Python program.
 */
module Dashboard {
  import opened Wrappers
  import opened Text
  import opened Tables
  import opened ShiftAggregation
  import opened Frequency

  const ACTIVITY_COLUMNS: seq<string> := ["running", "chasing", "climbing", "eating", "foraging"]
  const INTERACTION_COLUMNS: seq<string> := ["approaches", "indifferent", "runs_from"]

  /** The tables the three reshaping steps hand to the charts. */
  datatype Report = Report(activity: seq<TidyRow>, interaction: seq<TidyRow>, furColors: seq<FreqRow>)

  /** The frame after the rename and the coordinate step. */
  function Prepared(columns: seq<string>, rows: seq<Row>): (r: (seq<string>, seq<Row>))
    requires Shaped(columns, rows)
    ensures Shaped(r.0, r.1) && |r.1| == |rows|
    ensures forall i :: 0 <= i < |r.0| ==> IsNormalized(r.0[i])
  {
    var names := NormalizeColumns(columns);
    NormalizeColumnsIdempotent(columns);
    if NeedsCoordinates(names) then
      WithCoordinatesEffect(names, rows);
      WithCoordinates(names, rows)
    else (names, rows)
  }

  /**
   * The chart tables of a prepared frame, or the first `KeyError`: there
   * are tables exactly when `shift`, every listed column and
   * `primary_fur_color` exist, and without `shift` the first error is
   * raised for it.
   */
  function Reshape(columns: seq<string>, rows: seq<Row>): (r: Result<Report, Error>)
    requires Shaped(columns, rows)
    ensures r.Success? <==>
      && SHIFT in columns && FUR_COLOR in columns
      && (forall c :: c in ACTIVITY_COLUMNS ==> c in columns)
      && (forall c :: c in INTERACTION_COLUMNS ==> c in columns)
    ensures SHIFT !in columns ==> r == Failure(MissingColumn(SHIFT))
  {
    ShiftTableShape(columns, rows, ACTIVITY_COLUMNS, "Activity");
    ShiftTableShape(columns, rows, INTERACTION_COLUMNS, "Interaction");
    match ShiftTable(columns, rows, ACTIVITY_COLUMNS, "Activity")
    case Failure(e) => Failure(e)
    case Success(activity) =>
      match ShiftTable(columns, rows, INTERACTION_COLUMNS, "Interaction")
      case Failure(e) => Failure(e)
      case Success(interaction) =>
        match FurColorCounts(columns, rows)
        case Failure(e) => Failure(e)
        case Success(furColors) => Success(Report(activity, interaction, furColors))
  }

  /** The script's data steps, in order, on the loaded frame. */
  method Run(f: Frame) returns (r: Result<Report, Error>)
    requires f.Valid()
    modifies f
    ensures f.Valid()
    ensures (f.columns, f.rows) == Prepared(old(f.columns), old(f.rows))
    ensures r == Reshape(f.columns, f.rows)
  {
    f.RenameColumns();
    f.DeriveCoordinates();
    var activity := AggregateByShift(f.columns, f.rows, ACTIVITY_COLUMNS, "Activity");
    if activity.Failure? {
      return Failure(activity.error);
    }
    var interaction := AggregateByShift(f.columns, f.rows, INTERACTION_COLUMNS, "Interaction");
    if interaction.Failure? {
      return Failure(interaction.error);
    }
    var furColors := FurColorCounts(f.columns, f.rows);
    if furColors.Failure? {
      return Failure(furColors.error);
    }
    r := Success(Report(activity.value, interaction.value, furColors.value));
  }

  /** `capitalize` upper-cases the first letter of an activity name: `running` becomes `Running`. */
  lemma RunningLabel()
    ensures Capitalize("running") == "Running"
  {
    assert NoUpper("running");
    assert "Running"[1..] == "running"[1..];
    CapitalizeLowerName("running", "Running");
  }

  /** The underscore stays: `runs_from` becomes `Runs_from`. */
  lemma RunsFromLabel()
    ensures Capitalize("runs_from") == "Runs_from"
  {
    assert NoUpper("runs_from");
    assert "Runs_from"[1..] == "runs_from"[1..];
    CapitalizeLowerName("runs_from", "Runs_from");
  }

  /**
   * A successful run yields 10 activity rows and 6 interaction rows, with
   * each (category, shift) pair once, and fur-colour counts with distinct
   * values, in non-increasing order, adding up to the non-missing cells.
   */
  lemma ReportShape(columns: seq<string>, rows: seq<Row>)
    requires Shaped(columns, rows)
    ensures var r := Reshape(columns, rows);
      r.Success? ==>
        && |r.value.activity| == 10
        && |r.value.interaction| == 6
        && (forall i, j :: 0 <= i < j < 10 ==>
              r.value.activity[i].category != r.value.activity[j].category
              || r.value.activity[i].shift != r.value.activity[j].shift)
        && (forall i, j :: 0 <= i < j < 6 ==>
              r.value.interaction[i].category != r.value.interaction[j].category
              || r.value.interaction[i].shift != r.value.interaction[j].shift)
        && DistinctValues(r.value.furColors)
        && SortedByCount(r.value.furColors)
        && Total(r.value.furColors) == NonNullCount(ColumnAt(rows, IndexOf(columns, FUR_COLOR)))
  {
    assert forall i :: 0 <= i < |ACTIVITY_COLUMNS| ==> NoUpper(ACTIVITY_COLUMNS[i]);
    assert forall i :: 0 <= i < |INTERACTION_COLUMNS| ==> NoUpper(INTERACTION_COLUMNS[i]);
    ShiftTableShape(columns, rows, ACTIVITY_COLUMNS, "Activity");
    ShiftTableShape(columns, rows, INTERACTION_COLUMNS, "Interaction");
    ShiftTablePairsUnique(columns, rows, ACTIVITY_COLUMNS, "Activity");
    ShiftTablePairsUnique(columns, rows, INTERACTION_COLUMNS, "Interaction");
  }

  /**
   * Three sightings, two in the morning (one running, one not) and one in
   * the afternoon (running, written in capitals), give one AM and one PM run.
   */
  lemma RunningExample()
    ensures ShiftTable(
      ["shift", "running"],
      [[Some("AM"), Some("True")], [Some("AM"), Some("false")], [Some("PM"), Some("TRUE")]],
      ["running"], "Activity")
      == Success([TidyRow("Running", AM, 1), TidyRow("Running", PM, 1)])
  {
    var columns := ["shift", "running"];
    var rows: seq<Row> := [[Some("AM"), Some("True")], [Some("AM"), Some("false")], [Some("PM"), Some("TRUE")]];
    var shifts := [Some("AM"), Some("AM"), Some("PM")];
    var values := [Some("True"), Some("false"), Some("TRUE")];
    assert IndexOf(columns, SHIFT) == 0 && IndexOf(columns, "running") == 1;
    assert ColumnAt(rows, 0) == shifts && ColumnAt(rows, 1) == values;
    IsTrueCases();
    assert CountTrue(shifts, values, AM) == 1;
    assert CountTrue(shifts, values, PM) == 1;
    RunningLabel();
    assert Column(columns, rows, SHIFT) == Success(shifts);
    assert Column(columns, rows, "running") == Success(values);
    assert Entry(columns, rows, "running") == Success(WideRow("Running", 1, 1));
    var cols := ["running"];
    assert cols[..|cols| - 1] == [] && cols[|cols| - 1] == "running";
    assert WideTable(columns, rows, []) == Success([]);
    assert WideTable(columns, rows, cols) == Success([] + [WideRow("Running", 1, 1)]);
    var m := Melt([WideRow("Running", 1, 1)]);
    assert [] + [WideRow("Running", 1, 1)] == [WideRow("Running", 1, 1)];
    assert |m| == 2 && m[0] == TidyRow("Running", AM, 1) && m[1] == TidyRow("Running", PM, 1);
    assert m == [TidyRow("Running", AM, 1), TidyRow("Running", PM, 1)];
    assert ShiftTable(columns, rows, cols, "Activity") == Success(m);
  }

  /** The tally of Gray, Gray, Black, in first-seen order. */
  lemma FurTallyExample()
    ensures Tally(["Gray", "Gray", "Black"]) == [FreqRow("Gray", 2), FreqRow("Black", 1)]
  {
    var vs := ["Gray", "Gray", "Black"];
    var one, two := vs[..1], vs[..2];
    assert one == ["Gray"] && one[..0] == [] && two[..1] == one;
    assert Tally(one) == [FreqRow("Gray", 1)];
    assert Tally(two) == [FreqRow("Gray", 2)];
    var gray, black := FreqRow("Gray", 2), FreqRow("Black", 1);
    assert "Gray" != "Black" by { assert "Gray"[0] != "Black"[0]; }
    assert Bump([gray], "Black") == [gray] + [black];
  }

  /** Sorting the tally of Gray, Gray, Black leaves it as it is. */
  lemma FurSortExample()
    ensures SortByCount([FreqRow("Gray", 2), FreqRow("Black", 1)]) == [FreqRow("Gray", 2), FreqRow("Black", 1)]
  {
    var gray, black := FreqRow("Gray", 2), FreqRow("Black", 1);
    assert [gray, black][1..] == [black] && [black][1..] == [];
    assert SortByCount([black]) == [black];
  }

  /** Fur colours Gray, Gray, Black count as Gray twice and Black once, in that order. */
  lemma FurColorExample()
    ensures ValueCounts([Some("Gray"), Some("Gray"), Some("Black")]) == [FreqRow("Gray", 2), FreqRow("Black", 1)]
  {
    var cells := [Some("Gray"), Some("Gray"), Some("Black")];
    assert cells[1..] == [Some("Gray"), Some("Black")] && cells[1..][1..] == [Some("Black")];
    assert NonNull(cells) == ["Gray", "Gray", "Black"];
    FurTallyExample();
    FurSortExample();
  }
}
