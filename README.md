# Lake water-area series: a Dafny model

`streamlit_app.py` is a Streamlit dashboard over a CSV table of lakes. Each row is one lake. It has a `Lake_id`, its coordinates, one water-area column per month (named `YYYY_MM`, such as `1990_01`) and nine seasonal-trend columns (such as `Jul-Oct_Pe`). Apart from the user interface, the script does one thing: it turns the selected lake's row into a chart-ready series. This project models that transform and proves what it does:

- the rows of the selected lake (`df[df['Lake_id'] == lake_id]`, line 19);
- the month columns, chosen by their `_01` … `_12` suffix in table order (line 26);
- numeric coercion of the month cells with `pd.to_numeric(errors='coerce')` (line 29);
- one date per month column, from `strptime(f"{col[:4]}-{col[5:7]}-01", "%Y-%m-%d")` (line 35);
- flattening the selected cells (line 38);
- gap filling with `interpolate(method='linear').fillna(0)` (line 41);
- pairing dates with values, as the plot call does (line 45);
- the seasonal-trend lines (lines 56-61).

Everything is pure, so the model is datatypes, functions and lemmas, in six modules:

- `Wrappers`: `Option` (None is pandas' NaN) and `Result` (an exception the script raises).
- `Cells`: a cell after `read_csv` (`Num`, `Empty`, `Text`) and its coercion to `Option<real>`.
- `MonthColumns`: month-column recognition, and date derivation from a column name.
- `GapFill`: pandas' linear interpolation, and `fillna(0)`. pandas calls numpy's `interp` at every missing position, using the known positions and values. It then puts the missing run before the first known value back to NaN, because the default limit direction is forward.
- `LakeTable`: the table, the lake's rows, per-row projection and coercion, flattening, and the complete date/value series.
- `Seasons`: the nine season columns and the line written for each one.

Values are exact `real`s. A missing value is `None` until `fillna(0)` runs.

## Model

| member | source | states |
|---|---|---|
| `Cells.Coerce` | streamlit_app.py:29 | a number stays unchanged, an empty cell becomes missing, and text containing any character that cannot appear in a number becomes missing; it never fails |
| `Cells.CoerceText` | streamlit_app.py:29 | a text cell becomes a number exactly when it is a signed decimal literal (`IsDecimalLiteral`); any other text becomes missing |
| `Cells.ParseNumber` | streamlit_app.py:29 | accepted text is non-empty and made only of digits, `.`, `+` and `-` |
| `Cells.ParseNumberAccepts` | streamlit_app.py:29 | text is accepted exactly when it is a decimal literal: digits with at most one `.`, at least one digit, optionally one leading `-` or `+` (both directions) |
| `Cells.UnsignedLiteral` | streamlit_app.py:29 | the unsigned reader accepts exactly the unsigned decimal literals, as defined independently of it |
| `Cells.DecimalRoundTrip` | streamlit_app.py:29 | digits, a `.` and more digits are read as the whole digits plus the fraction digits over 10 to the number of fraction digits |
| `Cells.NegativeDecimalRoundTrip` | streamlit_app.py:29 | with a leading `-` the same text is read as the negated value |
| `Cells.ParseShowRoundTrip` | streamlit_app.py:29 | coercing the decimal text of any integer gives that integer back |
| `Cells.CoerceDecimalExample` | streamlit_app.py:29 | the text `12.5` becomes 12.5 |
| `Cells.CoerceNegativeExample` | streamlit_app.py:29 | the text `-0.25` becomes -0.25 |
| `Cells.CoerceNonNumericExamples` | streamlit_app.py:29 | `12 km2`, the empty text and a lone `.` become missing |
| `Cells.CoerceMalformedNumberExamples` | streamlit_app.py:29 | `1.2.3`, `+-1` and `-` are made of number characters but are no number, and become missing |
| `MonthColumns.MonthColumnShape` | streamlit_app.py:26 | a name passes the `endswith` test exactly when its last three characters are `_` and one of `01` … `12` (both directions) |
| `MonthColumns.MonthColumnsOf` | streamlit_app.py:26 | a name is selected exactly when it is a column and a month column |
| `MonthColumns.MonthIndices` | streamlit_app.py:26 | the positions of the month columns, strictly ascending; a position is listed exactly when its name is a month column |
| `MonthColumns.MonthColumnsInOrder` | streamlit_app.py:26 | the selection has one name per month position, and its p-th name is the column at the p-th month position, so table order is kept |
| `MonthColumns.MonthColumnsOfConcat` | streamlit_app.py:26 | selecting from two column lists joined together gives the two selections joined |
| `MonthColumns.Slice` | streamlit_app.py:35 | Python's clipped slicing `s[lo:hi]`: exactly `min(hi, |s|) - lo` characters, or none when `|s| <= lo`, each the source character at the same offset from `lo`; never an error |
| `MonthColumns.ParseYear` | streamlit_app.py:35 | `%Y` succeeds only on exactly four ASCII digits, gives their value, and that value is within 1..9999 (`datetime` rejects year 0) |
| `MonthColumns.ParseMonth` | streamlit_app.py:35 | `%m` accepts exactly one or two ASCII digits whose value is 1..12 (`1`..`9`, `01`..`09`, `10`..`12`), and the month is that value |
| `MonthColumns.TwoDigits` | streamlit_app.py:35 | the value of a two-digit field is ten times its first digit plus its second |
| `MonthColumns.DeriveDate` | streamlit_app.py:35 | the year is read from characters 0-3 and the month from characters 5-6 (clipped), the separator at 4 is ignored: a name shorter than 6 characters fails; a 6-character name succeeds iff its first four characters are digits with value at least 1 and character 5 is `1`..`9`; a longer name succeeds iff the first four are such digits and characters 5-6 are `01`..`12`; the date is that year, that month, day 1 |
| `MonthColumns.DeriveDates` | streamlit_app.py:35 | success exactly when every name parses; on success, one date per column in the same order, each the date of its column; on failure, the name reported is the first column that does not parse (where `strptime` raises) |
| `MonthColumns.ColumnNameRoundTrip` | streamlit_app.py:35 | for any year 1..9999 and month 1..12, the name `YYYY_MM` is a month column, and it derives back to the first of that month |
| `MonthColumns.SeparatorIgnored` | streamlit_app.py:35 | the character at index 4 has no effect on the derived date |
| `MonthColumns.DeriveDateExample` | streamlit_app.py:35 | `2003_07` becomes 1 July 2003 |
| `MonthColumns.DeriveDateLongNameExample` | streamlit_app.py:35 | `2003_07_01` is a month column because of its `_01` suffix, and it derives to July (characters 5-6), not to January |
| `MonthColumns.DeriveDateYearZeroExample` | streamlit_app.py:35 | `0000_07` does not derive to a date (year 0 raises) |
| `GapFill.Known` | streamlit_app.py:41 | the known points are strictly ascending by position, and each one is a numeric position of the series with its value |
| `GapFill.KnownHas` | streamlit_app.py:41 | every numeric position of the series is one of the known points |
| `GapFill.Interp` | streamlit_app.py:41 | numpy's `interp` returns the first known value at or left of the first known point, and passes through every known point |
| `GapFill.Interpolate` | streamlit_app.py:41 | the length is unchanged and known values are kept; a position is still missing exactly when no value is known at or before it (forward limit direction) |
| `GapFill.FillNa` | streamlit_app.py:41 | the length is unchanged; `fillna` leaves nothing missing (the result type is `seq<real>`) |
| `GapFill.FillGaps` | streamlit_app.py:41 | the length is unchanged |
| `GapFill.InterpBetween` | streamlit_app.py:41 | between two consecutive known points, numpy's `interp` gives the straight line through them |
| `GapFill.InterpBeyond` | streamlit_app.py:41 | at or after the last known point, numpy's `interp` gives the last known value |
| `GapFill.AdjacentKnots` | streamlit_app.py:41 | two known positions with only missing positions between them are consecutive known points |
| `GapFill.LastKnot` | streamlit_app.py:41 | a known position followed only by missing positions is the last known point |
| `GapFill.LineBetween` | streamlit_app.py:41 | a point on that line between i and j lies between a and b |
| `GapFill.KnownValuesKept` | streamlit_app.py:41 | every position that was numeric keeps its value |
| `GapFill.LeadingRunIsZero` | streamlit_app.py:41 | a missing position with nothing known at or before it becomes 0 |
| `GapFill.AllMissingIsZero` | streamlit_app.py:41 | an all-missing series becomes all zeros |
| `GapFill.GapOnLine` | streamlit_app.py:41 | a missing position between nearest known neighbours lies on the line through them |
| `GapFill.InteriorGap` | streamlit_app.py:41 | with nearest known neighbours i < k < j holding a and b, position k gets a + (b - a)(k - i)/(j - i) |
| `GapFill.InteriorGapBetween` | streamlit_app.py:41 | an interpolated value lies between its two neighbours' values |
| `GapFill.TrailingRunKeepsLast` | streamlit_app.py:41 | a missing position after the last known value takes that value |
| `GapFill.FillGapsFollowsRules` | streamlit_app.py:41 | the result follows all four rules: known values kept, leading run 0, interior gaps on the line, trailing run = last value |
| `GapFill.LastKnownUpTo` | streamlit_app.py:41 | a known position exists at or before k, so there is a nearest one |
| `GapFill.FirstKnownFrom` | streamlit_app.py:41 | a known position exists at or after k, so there is a nearest one |
| `GapFill.RulesDetermineResult` | streamlit_app.py:41 | at most one series follows the four rules |
| `GapFill.FillGapsIsTheRules` | streamlit_app.py:41 | a series follows the four rules exactly when it equals the line-41 result |
| `GapFill.InterpolationExample` | streamlit_app.py:41 | [1, missing, 3] becomes [1, 2, 3] |
| `GapFill.LeadingRunExample` | streamlit_app.py:41 | [missing, missing, 5] becomes [0, 0, 5] |
| `GapFill.TrailingRunExample` | streamlit_app.py:41 | [1, missing] becomes [1, 1] |
| `LakeTable.IndexOf` | streamlit_app.py:19 | looking up a column by name finds the first column of that name |
| `LakeTable.SameLake` | streamlit_app.py:19 | a row matches only when its id equals the selected id, and a NaN id (on either side) matches nothing |
| `LakeTable.RowsOfLake` | streamlit_app.py:19 | every kept row carries the lake's id, and every row that carries it is kept (NaN matches nothing) |
| `LakeTable.FirstRowOfLake` | streamlit_app.py:60 | the first selected row is the first matching row of the table |
| `LakeTable.OneRowOfLake` | streamlit_app.py:19 | when exactly one row carries the id, the selection is that row alone |
| `LakeTable.NoRowOfLake` | streamlit_app.py:19 | when no row carries the id, the selection is empty |
| `LakeTable.LakeRows` | streamlit_app.py:19 | it fails, with `KeyError` on `Lake_id`, exactly when the table has no `Lake_id` column; every selected row is full-width |
| `LakeTable.MonthCells` | streamlit_app.py:38 | one cell per month column, in order; each is the row's cell under that column name |
| `LakeTable.CoerceRow` | streamlit_app.py:29 | coercion is cell by cell and keeps the length; numbers are kept and empty cells become missing |
| `LakeTable.Flatten` | streamlit_app.py:38 | a value is in the flattened series exactly when it is in one of the rows: nothing is lost and nothing added |
| `LakeTable.FlattenLength` | streamlit_app.py:38 | flattening n rows of width w gives n·w values |
| `LakeTable.FlattenAt` | streamlit_app.py:38 | the cell at row i, column c lands at position i·w + c (row-major order) |
| `LakeTable.ValuesOfOneRow` | streamlit_app.py:38 | flattening a single selected row gives that row's coerced month cells |
| `LakeTable.LakeValues` | streamlit_app.py:29-38 | the flattened values number rows times month columns |
| `LakeTable.LakeValuesAt` | streamlit_app.py:26-38 | the coerced cell of row i under the k-th month column is value i·w + k of the flattened series (w month columns) |
| `LakeTable.WaterAreaSeries` | streamlit_app.py:19-45 | a missing `Lake_id` column is the `KeyError`; otherwise a month column whose name `strptime` rejects is the `ValueError`, carrying the first such name; on success, one point per month column, and the k-th point has the k-th column's date |
| `LakeTable.SingleRowSeries` | streamlit_app.py:19-41 | when exactly one row has the lake's id and all names parse, the series succeeds with one point per month column; each value is the gap-filled value of that row's coerced cell |
| `LakeTable.SingleRowKeepsReadings` | streamlit_app.py:29-41 | in that case, a month cell that already held a number is plotted with exactly that number |
| `LakeTable.NoRowSeries` | streamlit_app.py:19-45 | an id that no row carries yields no values, so with any month column present the series fails with a length mismatch (n dates, 0 values) rather than an empty chart |
| `Seasons.Report` | streamlit_app.py:61 | "No data available" exactly for a NaN cell; otherwise the raw cell is shown unchanged |
| `Seasons.PresentSeasons` | streamlit_app.py:58-59 | a season is kept exactly when it is listed and is a column of the table |
| `Seasons.SeasonIndices` | streamlit_app.py:58-59 | the positions in the season list of the names that are columns, strictly ascending; a position is listed exactly when its name is a column |
| `Seasons.PresentSeasonsInOrder` | streamlit_app.py:58-59 | the p-th selected season is the listed name at the p-th such position, so the selection keeps the list order |
| `Seasons.PresentSeasonsOnce` | streamlit_app.py:56-59 | no season is selected twice from the nine-name list |
| `Seasons.LineFor` | streamlit_app.py:60-61 | the line carries the season name; its value is "No data available" exactly when the row's cell under that name is NaN, and is that cell otherwise |
| `Seasons.SeasonLines` | streamlit_app.py:58-61 | the only way the loop fails is the `IndexError` of `.values[0]` on a lake with no row |
| `Seasons.SeasonLinesSpec` | streamlit_app.py:58-61 | it fails exactly when the lake has no row and some season column exists; otherwise the k-th line is for the k-th selected season (list order, by `PresentSeasonsInOrder`) and carries the first lake row's cell under that name |
| `Seasons.SeasonSummary` | streamlit_app.py:56-61 | a missing `Lake_id` column is the `KeyError`; otherwise the result is the season lines of the rows the line-19 filter keeps; on success, one line per season column present in the table |
| `Seasons.SeasonSummaryOfFirstRow` | streamlit_app.py:56-61 | when some row matches, the summary succeeds with one line per present season, in list order, each built from the first matching row's cell |
| `Seasons.SeasonSummaryNoRow` | streamlit_app.py:56-61 | when no row matches, `.values[0]` raises the `IndexError` if any season column is present, and nothing is written otherwise |
| `Seasons.MissingSeasonIsLocal` | streamlit_app.py:58-61 | blanking one season's value changes that season's line to "No data available" and leaves every other line unchanged |
| `Seasons.SeasonsAreNotMonthColumns` | streamlit_app.py:26 | no season name passes the month-column test, so no month selection ever contains one |

## Left out

- Loading the CSV with `pd.read_csv` (lines 9-10) is file I/O. The model starts from a `Table` of header names and cells.
- The Streamlit widgets and output are user interface (lines 13-23, 32, 52, 55, 61, 64, 89). The lake id is a parameter. Line 61's text output is the `SeasonLine` value; the formatting of numbers as text is not modelled.
- Matplotlib plotting (lines 44-52) is rendering. Only the plot call's rejection of x and y values of different lengths is kept, as `LengthMismatch`.
- The Folium map (lines 66-89) only builds presentation objects from coordinates. That includes the `IndexError` that `Lat`/`Lon` `.values[0]` (lines 67-68) raise when there is no matching row.
- Floating-point behaviour is not modelled: values are exact reals, with no rounding in interpolation and no dtype inference.
- Cells.ParseNumber: the text it reads is exactly the plain signed decimals (`-12.5`, `.5`, `3.`). pandas also accepts exponent notation, `inf`, `nan` spellings and surrounding whitespace; the model treats such text as missing.
- MonthColumns.ParseYear: only ASCII digits count as digits. Python's `\d` in `strptime` also matches other Unicode decimal digits.
- LakeTable.IndexOf: a name is looked up at its first column. `read_csv` renames repeated header names, so in the source each name is unique.
- Seasons.SeasonSummary: the season lines (lines 56-61) are modelled as a query of their own, computed from the table and the lake id. In the script that loop runs only when lines 19-52 did not raise first. For example, two matching rows plus a month column make the plot call on line 45 raise before any season line is written, while `SeasonSummary` still returns the first row's lines.
- Line 29's assignment into the `lake_data` slice is modelled as the per-cell map that it computes. The copy-versus-view warning pandas issues there is not modelled.
- Some behaviour belongs to other dashboard variants, not to `streamlit_app.py`, so it is not modelled: year-range narrowing, forward-fill, point-drop, raw passthrough, and stripping whitespace from column names.
