# Central Park squirrels dashboard: the data-reshaping core

`hello.py` loads the Central Park squirrel census and draws a map, two grouped
bar charts and a pie chart. Between loading and drawing, it reshapes the data
in four steps, and this project models those steps and proves what they
guarantee:

1. **Column rename** (`text.dfy`, `tables.dfy`). Every column name is
   lower-cased and its spaces become underscores. The header is reassigned in
   place (`Tables.Frame.RenameColumns`).
2. **Coordinate tokens** (`geometry.dfy`, `tables.dfy`). This step runs only
   when there is no `lat` column but there is a `lat/long` column. Each cell is
   searched for the pattern `POINT \([^ ]+ [^ ]+\)`. Line 11 captures the
   second token into `lat` and line 12 captures the first into `long`. It
   is the same pattern with a different capture, so one match gives both. A cell with no match gets a missing value in both.
   The columns are assigned in place (`Tables.Frame.DeriveCoordinates`).
3. **AM/PM aggregation** (`shift.dfy`). For each column of a list, the
   script counts the rows whose `shift` is exactly `AM` (and then `PM`) and
   whose cell, printed as text and lower-cased, reads `true`.
   - Each column becomes one row of a wide table, labelled by `capitalize`.
   - The wide table is grown by a loop (`ShiftAggregation.AggregateByShift`)
     and then melted into (category, shift, count) rows.
   - The activity pass (lines 41-58) and the interaction pass (lines 71-88)
     are the same code, so they are written once and called twice.
4. **Fur-colour counts** (`frequency.dfy`). These model pandas
   `value_counts` on `primary_fur_color`. There is one row per distinct
   non-missing value with its number of occurrences, most frequent first.

`dashboard.dfy` strings the steps together in the script's order, with
`Dashboard.Run`. The first `KeyError` from a missing column, modelled as
`Failure(MissingColumn(name))`, ends the run. In the script, the map at
hello.py:17-27 comes first and already needs some of these columns, so for
them the program stops earlier than the model does (see "## Left out"). The
model's error is then the one the Python program would raise only for
`shift` and the three interaction columns.

The data frame is positional: a header of column names and rows of cells,
where a cell is `Some(text)` or `None` for a missing value. A lookup by name
takes the first column with that name. pandas allows duplicate column names,
and the rename can create them (`"A b"` and `"a_b"` both become `a_b`).
Column-name uniqueness after the rename is therefore not assumed anywhere.

Three behaviours of the script shape the model:

- Python's `str.capitalize` upper-cases the first character and lower-cases
  every later one. `Text.Capitalize` does the same. The script's own column
  names hold no upper-case letter, so for them only the first character
  changes (`Text.CapitalizeOfNoUpper`).
- The rename can give two columns the same name. See the rename above.
- An empty column list is an error, not an empty table. `pd.melt` on the
  empty frame that `pd.DataFrame()` starts with raises `KeyError` for the
  id column. `ShiftAggregation.ShiftTable` returns
  `Failure(MissingColumn(idVar))` for it.

## Model

| member | source | states |
|---|---|---|
| Text.Lower | hello.py:8 | `str.lower` on ASCII: same length, no upper-case letter is left, an upper-case letter becomes its lower-case partner and every other character stays |
| Text.Upper | hello.py:50 | `str.upper` on ASCII: same length, no lower-case letter is left, a lower-case letter becomes its upper-case partner and every other character stays |
| Text.Capitalize | hello.py:50 | `str.capitalize` on ASCII: same length; the first character is upper-cased if it is a lower-case letter and kept otherwise; every later character is lower-cased |
| Text.ReplaceSpaces | hello.py:8 | `replace(' ', '_')`: same length, no space is left, each space becomes `_` and every other character stays |
| Text.NormalizeName | hello.py:8 | the rename of one name: same length, no space and no upper-case letter; spaces become `_`, upper-case letters become their lower-case partners, everything else stays |
| Text.NormalizeColumns | hello.py:8 | the rename of the header keeps the number and order of columns and renames each position on its own |
| Text.NormalizeFixedPoint | hello.py:8 | the rename leaves a name unchanged exactly when the name already has no space and no upper-case letter |
| Text.NormalizeIdempotent | hello.py:8 | renaming a name twice gives the same as renaming it once |
| Text.NormalizeColumnsIdempotent | hello.py:8 | renaming the header twice gives the same header as renaming it once, and every renamed column name is normalised |
| Text.LowerOfNoUpper | hello.py:50 | lower-casing text that has no upper-case letter leaves it unchanged |
| Text.CapitalizeOfNoUpper | hello.py:50 | on a name with no upper-case letter after its first character, `capitalize` only upper-cases the first character |
| Text.CapitalizeLowerName | hello.py:50 | a name with no upper-case letter that starts with a lower-case letter capitalises to that letter in upper case followed by the rest unchanged |
| Text.CapitalizeInjective | hello.py:50 | two names without upper-case letters that capitalise to the same label are the same name |
| Geometry.RunEnd | hello.py:11 | where a `[^ ]+` run starting at a position ends: every character before the end is not a space, and the end is a space or the end of the text |
| Geometry.LastClose | hello.py:11 | the last `)` strictly inside a range, or none when the range holds no `)` |
| Geometry.FoundMatch | hello.py:11-12 | the two runs `MatchAt` finds form a match at that position, with the only possible first token and the longest possible second token |
| Geometry.FoundMatchGreedy | hello.py:11-12 | where `MatchAt` finds a match, every match at that position has the same first token and a second token no longer than the one found |
| Geometry.MatchAt | hello.py:11-12 | at one position: a match that is sound, whose first token is the only possible one and whose second token is the longest possible; none exactly when the pattern cannot match there |
| Geometry.LeftmostMatch | hello.py:11-12 | the first position from `p` on where the pattern matches, or none when it matches nowhere from `p` on |
| Geometry.ExtractPoint | hello.py:11-12 | `str.extract`: no result exactly when the pattern matches nowhere in the text; otherwise the tokens of a match at a position with no earlier match, with the longest second token at that position |
| Geometry.ExtractWellFormed | hello.py:11-12 | a cell that is exactly `POINT (a b)`, with `a` and `b` non-empty and space-free, gives `a` as longitude and `b` as latitude |
| Geometry.ExtractCentralPark | hello.py:11-12 | `POINT (-73.9656 40.7826)` gives longitude `-73.9656` and latitude `40.7826` |
| Geometry.LatOf | hello.py:11 | the `lat` cell is the second token of the leftmost, greedy match in the `lat/long` text, and it is missing when the `lat/long` cell is missing |
| Geometry.LongOf | hello.py:12 | the `long` cell is the first token of the leftmost, greedy match in the `lat/long` text, and it is missing when the `lat/long` cell is missing |
| Geometry.LatPresentIffLong | hello.py:11-12 | a cell gives a latitude exactly when it gives a longitude, and that is exactly when the cell is present and the pattern matches somewhere in it |
| Tables.IndexOf | hello.py:46 | the position of the first column with the name: it holds the name and no earlier column does |
| Tables.Column | hello.py:46 | `df[name]`: `KeyError` exactly when no column has that name; otherwise one cell per row, taken from the first column with that name |
| Tables.WithColumn | hello.py:11-12 | `df[name] = values`: an existing header is kept, otherwise the name is appended; reading the column back gives `values`; every other column keeps its cells |
| Tables.LatColumn | hello.py:11 | one `lat` cell per `lat/long` cell, derived from that cell alone |
| Tables.LongColumn | hello.py:12 | one `long` cell per `lat/long` cell, derived from that cell alone |
| Tables.NeedsCoordinates | hello.py:10 | no contract: the body is the definition, the guard that there is no `lat` column and there is a `lat/long` column |
| Tables.WithCoordinates | hello.py:10-12 | the coordinate step keeps every row the same width as the header and keeps the number of rows |
| Tables.WithCoordinatesEffect | hello.py:10-12 | the coordinate step appends `lat`, then appends `long` unless that column exists already. Each row's `lat` and `long` cells are the tokens of its `lat/long` cell, and every column other than `long` keeps its cells |
| Tables.Frame.constructor | hello.py:6 | the frame the data source hands over, with its header and rows |
| Tables.Frame.RenameColumns | hello.py:8 | the header becomes its rename, the rows stay, and every column name is normalised afterwards |
| Tables.Frame.AssignColumn | hello.py:11-12 | the frame becomes the one `WithColumn` describes |
| Tables.Frame.DeriveCoordinates | hello.py:10-12 | the frame becomes `WithCoordinates` of itself when there is no `lat` column but a `lat/long` one; otherwise it is left exactly as it was |
| ShiftAggregation.CellText | hello.py:46 | `astype(str)`: a present cell prints as its text |
| ShiftAggregation.IsTrue | hello.py:46 | `.astype(str).str.lower().eq('true')` on one cell: it holds exactly when the cell is present and reads `true` once lower-cased, so a missing value never counts |
| ShiftAggregation.CountTrue | hello.py:46-47 | the `….eq('true').sum()` of one shift: never more than the number of rows; its bounds per shift are CountTrueAtMostShift and CountTrueDisjoint |
| ShiftAggregation.CountShift | hello.py:46 | the number of rows of a shift is at most the number of rows |
| ShiftAggregation.CountTrueAtMostShift | hello.py:46-47 | a shift's count is at most the number of rows of that shift |
| ShiftAggregation.CountTrueDisjoint | hello.py:46-47 | the counts for two different shifts add up to at most the number of rows |
| ShiftAggregation.IsTrueCases | hello.py:46 | `true` counts in any mix of cases; a missing value (`nan`), `false`, the empty text and ` true` do not |
| ShiftAggregation.Entry | hello.py:45-52 | one loop step succeeds exactly when `shift` and the column exist; it raises for `shift` first, then for the column |
| ShiftAggregation.WideTable | hello.py:45-52 | the wide table after the loop over `cols` has one row per column |
| ShiftAggregation.Melt | hello.py:54-58 | `pd.melt` gives 2 × n rows: row i is (category i, AM, AM count i) and row n + i is (category i, PM, PM count i) |
| ShiftAggregation.ShiftTable | hello.py:41-58 | one whole pass, as a function: a successful pass has a non-empty column list and 2 × n rows, and an empty list raises for the id column; the rest of its meaning is proved in ShiftTableShape, ShiftTableMissing, ShiftTablePairsUnique and ShiftTableCountsBounded |
| ShiftAggregation.AggregateByShift | hello.py:41-58 | the loop, the concatenation and the melt compute exactly `ShiftTable` of the frame and the column list |
| ShiftAggregation.PrefixFailure | hello.py:45-52 | once the loop raises on a prefix of the columns, the whole pass raises the same error |
| ShiftAggregation.WideTableRows | hello.py:45-52 | the loop succeeds exactly when every listed column exists, and `shift` does too (if the list is non-empty); row i is then the entry of column i |
| ShiftAggregation.WideTableFirstMissing | hello.py:45-52 | with a missing column, the loop raises for `shift` if it is absent, and otherwise for the first listed column that is absent |
| ShiftAggregation.WideTableNoShift | hello.py:46 | without a `shift` column, a non-empty loop raises for `shift` |
| ShiftAggregation.ShiftTableShape | hello.py:45-58 | a pass succeeds exactly when the list is non-empty and `shift` and every listed column exist. It then has 2 × n rows: row i is (capitalised column i, AM, its AM count) and row n + i is the PM entry. An empty list raises for the id column, and a non-empty one without `shift` raises for `shift`. The same code runs at lines 75-88 |
| ShiftAggregation.ShiftTableMissing | hello.py:45-58 | a pass with a missing column raises for `shift` first, then for the first absent listed column |
| ShiftAggregation.MeltPairsUnique | hello.py:54-58 | with distinct categories, each (category, shift) pair occurs once in the melted table |
| ShiftAggregation.ShiftTablePairsUnique | hello.py:45-58 | for distinct column names without upper-case letters, each (category, shift) pair of a successful pass occurs once |
| ShiftAggregation.ShiftTableCountsBounded | hello.py:45-58 | in a successful pass, each AM count is at most the number of AM rows, each PM count is at most the number of PM rows, and a column's AM and PM counts add up to at most the number of rows |
| Frequency.NonNull | hello.py:102 | the present values of a column: as many as there are present cells, each value as often as it occurs in the column |
| Frequency.Values | hello.py:103 | the values column of the counts table, row for row |
| Frequency.Bump | hello.py:102 | one more occurrence of a value: the total grows by one, values stay distinct, the value gets a row whose count is one more than before, and other rows are unchanged |
| Frequency.Tally | hello.py:102 | the counts of a sequence of values: distinct values, exactly the values that occur, each with its number of occurrences (at least 1), adding up to the length |
| Frequency.Insert | hello.py:102 | inserting a row adds exactly that row to the table |
| Frequency.SortByCount | hello.py:102 | sorting keeps exactly the same rows |
| Frequency.InsertSorted | hello.py:102 | inserting a row into a table sorted by descending count keeps it sorted |
| Frequency.InsertTotal | hello.py:102 | inserting a row adds its count to the total |
| Frequency.InsertValues | hello.py:102 | inserting a row adds just its value to the values column |
| Frequency.InsertDistinct | hello.py:102 | inserting a row with a new value keeps values distinct and adds just that value |
| Frequency.SortByCountProperties | hello.py:102 | the sorted table has non-increasing counts and the same total; with distinct values it keeps them distinct and keeps the same set of values |
| Frequency.RowsOfSort | hello.py:102 | each row of the sorted tally counts the occurrences of its value in the column, at least once |
| Frequency.PresentValues | hello.py:102 | the values of the sorted tally are exactly the values present in the column |
| Frequency.ValueCounts | hello.py:102 | `value_counts`: distinct values; each count is the number of cells holding that value and is at least 1; the values are exactly the present ones; the counts add up to the number of present cells; counts are non-increasing |
| Frequency.FurColorCounts | hello.py:102-103 | `KeyError` exactly when there is no `primary_fur_color` column; otherwise the value counts of its first such column |
| Dashboard.Prepared | hello.py:8-12 | after the rename and the coordinate step, the frame is still well-shaped, has the same number of rows, and has only normalised column names |
| Dashboard.Reshape | hello.py:41-103 | the tables of the two passes and the fur-colour counts: they exist exactly when `shift`, every activity and interaction column and `primary_fur_color` exist, and without `shift` the first error is raised for `shift` |
| Dashboard.Run | hello.py:8-103 | the frame ends up renamed and with coordinates derived; the result is the activity table, the interaction table and the fur-colour counts of that frame, or the first `KeyError` |
| Dashboard.RunningLabel | hello.py:50 | `running` is labelled `Running` |
| Dashboard.RunsFromLabel | hello.py:80 | `runs_from` is labelled `Runs_from`: the underscore and the rest stay |
| Dashboard.ReportShape | hello.py:41-103 | a successful run has 10 activity rows and 6 interaction rows, each (category, shift) pair once; the fur-colour counts have distinct values, are sorted by descending count, and add up to the present cells of the column |
| Dashboard.RunningExample | hello.py:45-58 | sightings (AM, `True`), (AM, `false`), (PM, `TRUE`) give (Running, AM, 1) and (Running, PM, 1) |
| Dashboard.FurTallyExample | hello.py:102 | Gray, Gray, Black tally as Gray 2, Black 1 |
| Dashboard.FurSortExample | hello.py:102 | Gray 2, Black 1 is already in descending order |
| Dashboard.FurColorExample | hello.py:102 | fur colours Gray, Gray, Black count as Gray 2, then Black 1 |

## Left out

- `connect()` and `get_df(...)` (hello.py:5-6) are the framework connection and the CSV read. The loaded frame is a parameter of `Dashboard.Run`, with each cell as the text pandas would print for it (`astype(str)`) or `None` for a missing value. How CSV values are typed is not modelled.
- `pd.to_numeric` (hello.py:14-15) is not modelled: it parses floating point, and by default it raises on a token that is not a number. The model stops at the token strings.
- The charts and page text (hello.py:17-39, 60-69, 90-100, 103-107) are rendering through foreign libraries. This includes the `ValueError` that `px.scatter_mapbox` (hello.py:17-27) raises when a column it names is missing: `lat`, `long`, `primary_fur_color`, `unique_squirrel_id`, `age` or one of the five activity columns. That call runs before the aggregation, so for such a frame the program stops at line 17. `Dashboard.Run` goes on: it reports `MissingColumn` when the missing column is `shift`, an activity column or `primary_fur_color`, and otherwise succeeds. The renaming of the counts table's headers to `Fur Color` and `Count` (hello.py:103) shows up only as the field names of `Frequency.FreqRow`.
- `df['lat/long'].str` (hello.py:11) raises `AttributeError` when pandas did not read that column as text, for example when every cell is missing. `Geometry.LatOf` and `Geometry.LongOf` give missing values for such cells instead.
- Case mapping covers ASCII letters only. Python's Unicode rules for `lower`, `upper` and `capitalize` (e.g. `ß`, title-case digraphs) are not modelled.
- Regular expressions in general are not modelled. `Geometry.ExtractPoint` is a hand-written leftmost search for this one pattern. No regex engine is modelled. What is proved is `Geometry.IsLeftmostGreedy` of the result: the match is at the leftmost matching position, its first token is the only one possible there, and its second token is the longest possible there. That is what backtracking yields for this pattern.
- Frames with duplicate column names are not modelled as the script handles them. The model looks up and assigns the first column of that name. For such frames the script instead raises or computes something else:
  - `df['lat/long'].str` (hello.py:11) and `….astype(str).str` (hello.py:46-47) then act on a DataFrame, which has no `.str`. They raise `AttributeError`.
  - Assigning the one-column result of line 12 to a duplicated `long` raises `ValueError`.
  - `value_counts` on a duplicated `primary_fur_color` (hello.py:102) counts rows of the sub-frame instead of single values.
- Frequency.ValueCounts: its contract does not fix the order among equal counts. pandas does not promise one. The model's stable sort keeps first-seen order.
