/**
 * pandas' `value_counts` on one column, as the dashboard applies it to
 * `primary_fur_color`: one (value, count) row per distinct non-missing value,
 * the most frequent first. Values are tallied in the order they are first
 * seen and then sorted stably by descending count; the order among equal
 * counts is not part of any contract here.
 */
module Frequency {
  import opened Wrappers
  import opened Tables

  const FUR_COLOR: string := "primary_fur_color"

  /** One row of the counts table: a value of the column and how often it occurs. */
  datatype FreqRow = FreqRow(value: string, count: nat)

  /** The number of cells of `cells` holding `v`. */
  function Occurrences(cells: seq<Cell>, v: string): nat {
    multiset(cells)[Some(v)]
  }

  /** The number of cells that are not missing. */
  function NonNullCount(cells: seq<Cell>): nat {
    |cells| - multiset(cells)[None]
  }

  /** The values of the cells that are not missing, in order. */
  function NonNull(cells: seq<Cell>): (vs: seq<string>)
    ensures |vs| == NonNullCount(cells)
    ensures forall v :: multiset(vs)[v] == Occurrences(cells, v)
  {
    if cells == [] then []
    else
      assert cells == [cells[0]] + cells[1..];
      var rest := NonNull(cells[1..]);
      if cells[0].Some? then [cells[0].value] + rest else rest
  }

  /** The values column of a counts table. */
  function Values(t: seq<FreqRow>): (vs: seq<string>)
    ensures |vs| == |t|
    ensures forall i :: 0 <= i < |t| ==> vs[i] == t[i].value
  {
    if t == [] then [] else [t[0].value] + Values(t[1..])
  }

  /** The sum of the counts. */
  function Total(t: seq<FreqRow>): nat {
    if t == [] then 0 else t[0].count + Total(t[1..])
  }

  /** The count recorded for `v`, or 0 when `v` has no row. */
  function CountOf(t: seq<FreqRow>, v: string): nat {
    if t == [] then 0 else if t[0].value == v then t[0].count else CountOf(t[1..], v)
  }

  predicate DistinctValues(t: seq<FreqRow>) {
    forall i, j :: 0 <= i < j < |t| ==> t[i].value != t[j].value
  }

  /** Putting a row with a new value in front keeps the values distinct. */
  lemma DistinctConsIntro(a: FreqRow, t: seq<FreqRow>)
    requires a.value !in Values(t) && DistinctValues(t)
    ensures DistinctValues([a] + t)
  {
    var r := [a] + t;
    forall i, j | 0 <= i < j < |r| ensures r[i].value != r[j].value {
      if i > 0 {
        assert r[i] == t[i - 1] && r[j] == t[j - 1];
      } else {
        assert r[j].value == Values(t)[j - 1];
      }
    }
  }

  /** The front row of a table with distinct values does not recur further down. */
  lemma DistinctConsElim(a: FreqRow, t: seq<FreqRow>)
    requires DistinctValues([a] + t)
    ensures a.value !in Values(t) && DistinctValues(t)
  {
    var r := [a] + t;
    forall i, j | 0 <= i < j < |t| ensures t[i].value != t[j].value {
      assert t[i] == r[i + 1] && t[j] == r[j + 1];
    }
    forall k | 0 <= k < |t| ensures Values(t)[k] != a.value {
      assert t[k] == r[k + 1] && r[0] == a;
      assert r[0].value != r[k + 1].value;
    }
  }

  /** The counts never increase down the table. */
  predicate SortedByCount(t: seq<FreqRow>) {
    forall i, j :: 0 <= i < j < |t| ==> t[i].count >= t[j].count
  }

  /** One more occurrence of `v`: its count goes up, or it gets a row of its own at the end. */
  function Bump(t: seq<FreqRow>, v: string): (r: seq<FreqRow>)
    requires DistinctValues(t)
    ensures Total(r) == Total(t) + 1
    ensures forall w :: w in Values(r) <==> w in Values(t) || w == v
    ensures forall x :: x in r ==> x in t || x.value == v
    ensures forall x :: x in r && x.value == v ==> x.count == CountOf(t, v) + 1
    ensures DistinctValues(r)
  {
    if t == [] then [FreqRow(v, 1)]
    else
      assert t == [t[0]] + t[1..];
      DistinctConsElim(t[0], t[1..]);
      ValuesCons(t[0], t[1..]);
      if t[0].value == v then
        var y := FreqRow(v, t[0].count + 1);
        ValuesCons(y, t[1..]);
        DistinctConsIntro(y, t[1..]);
        [y] + t[1..]
      else
        var rest := Bump(t[1..], v);
        ValuesCons(t[0], rest);
        DistinctConsIntro(t[0], rest);
        [t[0]] + rest
  }

  /**
   * The counts of `vs` in first-seen order: each value once, with the number
   * of times it occurs, and nothing else.
   */
  function Tally(vs: seq<string>): (t: seq<FreqRow>)
    ensures DistinctValues(t)
    ensures Total(t) == |vs|
    ensures forall w :: w in Values(t) <==> w in vs
    ensures forall x :: x in t ==> x.count == multiset(vs)[x.value] && x.count >= 1
    decreases |vs|
  {
    if vs == [] then []
    else
      var init, last := vs[..|vs| - 1], vs[|vs| - 1];
      assert vs == init + [last];
      var prev := Tally(init);
      CountOfRow(prev, last);
      Bump(prev, last)
  }

  /** With distinct values, the count recorded for a value is the one on its row. */
  lemma {:induction false} CountOfRow(t: seq<FreqRow>, v: string)
    requires DistinctValues(t)
    ensures forall x :: x in t && x.value == v ==> CountOf(t, v) == x.count
    ensures v !in Values(t) ==> CountOf(t, v) == 0
  {
    if t != [] {
      CountOfRow(t[1..], v);
      if t[0].value == v {
        forall x | x in t[1..] ensures x.value != v {
          var j :| 0 <= j < |t[1..]| && t[1..][j] == x;
          assert t[j + 1] == x;
        }
      }
    }
  }

  /** Places `x` before the first row whose count is not above its own. */
  function Insert(x: FreqRow, s: seq<FreqRow>): (r: seq<FreqRow>)
    ensures |r| == |s| + 1
    ensures multiset(r) == multiset(s) + multiset{x}
    ensures forall y :: y in r ==> y == x || y in s
  {
    if s == [] || s[0].count <= x.count then [x] + s
    else
      assert s == [s[0]] + s[1..];
      [s[0]] + Insert(x, s[1..])
  }

  /** A stable insertion sort by descending count. */
  function SortByCount(t: seq<FreqRow>): (r: seq<FreqRow>)
    ensures |r| == |t| && multiset(r) == multiset(t)
  {
    if t == [] then []
    else
      assert t == [t[0]] + t[1..];
      Insert(t[0], SortByCount(t[1..]))
  }

  lemma {:induction false} InsertSorted(x: FreqRow, s: seq<FreqRow>)
    requires SortedByCount(s)
    ensures SortedByCount(Insert(x, s))
  {
    if s != [] && s[0].count > x.count {
      var tail := Insert(x, s[1..]);
      InsertSorted(x, s[1..]);
      forall j | 0 <= j < |tail| ensures tail[j].count <= s[0].count {
        assert tail[j] in tail;
        if tail[j] != x {
          assert tail[j] in s[1..];
          var k :| 0 <= k < |s[1..]| && s[1..][k] == tail[j];
          assert s[k + 1] == tail[j];
        }
      }
      var r := [s[0]] + tail;
      forall i, j | 0 <= i < j < |r| ensures r[i].count >= r[j].count {
        if i > 0 {
          assert r[i] == tail[i - 1] && r[j] == tail[j - 1];
        } else {
          assert r[j] == tail[j - 1];
        }
      }
    }
  }

  lemma {:induction false} InsertTotal(x: FreqRow, s: seq<FreqRow>)
    ensures Total(Insert(x, s)) == Total(s) + x.count
  {
    if s != [] && s[0].count > x.count {
      InsertTotal(x, s[1..]);
    }
  }

  /** The values column of a table with a row in front. */
  lemma ValuesCons(a: FreqRow, t: seq<FreqRow>)
    ensures Values([a] + t) == [a.value] + Values(t)
  {
    assert ([a] + t)[1..] == t;
  }

  /** Inserting a row adds just its value to the values column. */
  lemma {:induction false} InsertValues(x: FreqRow, s: seq<FreqRow>)
    ensures forall w :: w in Values(Insert(x, s)) <==> w in Values(s) || w == x.value
  {
    if s == [] || s[0].count <= x.count {
      ValuesCons(x, s);
    } else {
      assert s == [s[0]] + s[1..];
      InsertValues(x, s[1..]);
      ValuesCons(s[0], Insert(x, s[1..]));
      ValuesCons(s[0], s[1..]);
    }
  }

  /** Inserting a row with a new value keeps the values distinct. */
  lemma {:induction false} InsertDistinct(x: FreqRow, s: seq<FreqRow>)
    requires DistinctValues(s) && x.value !in Values(s)
    ensures DistinctValues(Insert(x, s))
    ensures forall w :: w in Values(Insert(x, s)) <==> w in Values(s) || w == x.value
  {
    InsertValues(x, s);
    if s == [] || s[0].count <= x.count {
      DistinctConsIntro(x, s);
    } else {
      assert s == [s[0]] + s[1..];
      DistinctConsElim(s[0], s[1..]);
      InsertDistinct(x, s[1..]);
      assert s[0].value == Values(s)[0];
      DistinctConsIntro(s[0], Insert(x, s[1..]));
    }
  }

  /**
   * Sorting by count keeps the rows and their sum and keeps values distinct,
   * and leaves the counts in non-increasing order.
   */
  lemma {:induction false} SortByCountProperties(t: seq<FreqRow>)
    ensures SortedByCount(SortByCount(t))
    ensures Total(SortByCount(t)) == Total(t)
    ensures DistinctValues(t) ==> DistinctValues(SortByCount(t))
    ensures DistinctValues(t) ==> forall w :: w in Values(SortByCount(t)) <==> w in Values(t)
  {
    if t != [] {
      var rest := SortByCount(t[1..]);
      SortByCountProperties(t[1..]);
      InsertSorted(t[0], rest);
      InsertTotal(t[0], rest);
      if DistinctValues(t) {
        InsertDistinct(t[0], rest);
      }
    }
  }

  /** Every row of the sorted tally counts the occurrences of its value in `cells`, at least once. */
  lemma RowsOfSort(cells: seq<Cell>, t: seq<FreqRow>, r: seq<FreqRow>)
    requires forall x :: x in t ==> x.count == multiset(NonNull(cells))[x.value] && x.count >= 1
    requires multiset(r) == multiset(t)
    ensures forall i :: 0 <= i < |r| ==> r[i].count == Occurrences(cells, r[i].value) && r[i].count >= 1
  {
    forall i | 0 <= i < |r| ensures r[i].count == Occurrences(cells, r[i].value) && r[i].count >= 1 {
      assert r[i] in multiset(r);
      assert r[i] in t;
    }
  }

  /** The values of the sorted tally are exactly the values present in `cells`. */
  lemma PresentValues(cells: seq<Cell>, t: seq<FreqRow>, r: seq<FreqRow>)
    requires forall w :: w in Values(t) <==> w in NonNull(cells)
    requires forall w :: w in Values(r) <==> w in Values(t)
    ensures forall v :: v in Values(r) <==> Some(v) in cells
  {
    var vs := NonNull(cells);
    forall v ensures v in Values(r) <==> Some(v) in cells {
      assert v in vs <==> multiset(vs)[v] > 0;
      assert Some(v) in cells <==> multiset(cells)[Some(v)] > 0;
    }
  }

  /**
   * `cells.value_counts()`: every distinct non-missing value exactly once,
   * with the number of cells holding it (at least one), the counts adding up to
   * the number of non-missing cells, and the most frequent first.
   */
  function ValueCounts(cells: seq<Cell>): (r: seq<FreqRow>)
    ensures DistinctValues(r)
    ensures forall i :: 0 <= i < |r| ==> r[i].count == Occurrences(cells, r[i].value) && r[i].count >= 1
    ensures forall v :: v in Values(r) <==> Some(v) in cells
    ensures Total(r) == NonNullCount(cells)
    ensures SortedByCount(r)
  {
    var t := Tally(NonNull(cells));
    var r := SortByCount(t);
    SortByCountProperties(t);
    RowsOfSort(cells, t, r);
    PresentValues(cells, t, r);
    r
  }

  /** The fur-colour table: the value counts of `primary_fur_color`, or `KeyError`. */
  function FurColorCounts(columns: seq<string>, rows: seq<Row>): (r: Result<seq<FreqRow>, Error>)
    requires Shaped(columns, rows)
    ensures r.Failure? <==> FUR_COLOR !in columns
    ensures r.Failure? ==> r.error == MissingColumn(FUR_COLOR)
    ensures r.Success? ==> r.value == ValueCounts(ColumnAt(rows, IndexOf(columns, FUR_COLOR)))
  {
    match Column(columns, rows, FUR_COLOR)
    case Failure(e) => Failure(e)
    case Success(cells) => Success(ValueCounts(cells))
  }
}
