/**
 * The lake's rows and its water-area series (streamlit_app.py lines 19, 26,
 * 29, 35, 38, 41 and the pairing of dates with values that `plt.plot` does at
 * line 45).
 */
module LakeTable {
  import opened Wrappers
  import opened Cells
  import opened MonthColumns
  import opened GapFill

  /** The loaded CSV: its header and its rows, each row one cell per column. */
  datatype Table = Table(columns: seq<string>, rows: seq<seq<Cell>>)

  predicate WellFormed(t: Table)
  {
    forall i :: 0 <= i < |t.rows| ==> |t.rows[i]| == |t.columns|
  }

  /** Why the script stops before it draws the chart. */
  datatype Error =
    | MissingColumn(name: string)             // `KeyError` on `df['Lake_id']`
    | MalformedMonthColumn(name: string)      // `ValueError` from `strptime` at line 35
    | LengthMismatch(dates: nat, values: nat) // `plt.plot` refuses x and y of different lengths
    | NoMatchingRow                           // `IndexError` on `.values[0]` with no rows

  const LakeIdColumn: string := "Lake_id"

  /** Position of the first column called `name`. */
  function IndexOf(cols: seq<string>, name: string): (k: nat)
    requires name in cols
    ensures k < |cols| && cols[k] == name
    ensures forall j :: 0 <= j < k ==> cols[j] != name
  {
    if cols[0] == name then 0 else 1 + IndexOf(cols[1..], name)
  }

  /** `==` on a cell: NaN equals nothing, not even NaN. */
  predicate SameLake(c: Cell, id: Cell): (b: bool)
    ensures b ==> c == id
    ensures c.Empty? || id.Empty? ==> !b
  {
    c == id && !c.Empty?
  }

  /** The boolean-mask filter `df[df['Lake_id'] == lake_id]` over rows. */
  function RowsOfLake(rows: seq<seq<Cell>>, c: nat, id: Cell): (r: seq<seq<Cell>>)
    requires forall i :: 0 <= i < |rows| ==> c < |rows[i]|
    ensures |r| <= |rows|
    ensures forall p :: 0 <= p < |r| ==> r[p] in rows && c < |r[p]| && SameLake(r[p][c], id)
    ensures forall i :: 0 <= i < |rows| && SameLake(rows[i][c], id) ==> rows[i] in r
  {
    if rows == [] then []
    else
      var init := rows[..|rows| - 1];
      var last := rows[|rows| - 1];
      assert forall i :: 0 <= i < |rows| - 1 ==> rows[i] == init[i];
      RowsOfLake(init, c, id) + (if SameLake(last[c], id) then [last] else [])
  }

  /** The first row of the filter is the first matching row of the table. */
  lemma {:induction false} FirstRowOfLake(rows: seq<seq<Cell>>, c: nat, id: Cell, i: nat)
    requires forall m :: 0 <= m < |rows| ==> c < |rows[m]|
    requires i < |rows| && SameLake(rows[i][c], id)
    requires forall m :: 0 <= m < i ==> !SameLake(rows[m][c], id)
    ensures |RowsOfLake(rows, c, id)| > 0 && RowsOfLake(rows, c, id)[0] == rows[i]
  {
    var init := rows[..|rows| - 1];
    if i < |rows| - 1 {
      FirstRowOfLake(init, c, id, i);
    } else {
      assert forall m :: 0 <= m < |init| ==> init[m] == rows[m];
      NoRowOfLake(init, c, id);
    }
  }

  /** Exactly one row matches, so the filter is that row alone. */
  lemma {:induction false} OneRowOfLake(rows: seq<seq<Cell>>, c: nat, id: Cell, i: nat)
    requires forall m :: 0 <= m < |rows| ==> c < |rows[m]|
    requires i < |rows| && SameLake(rows[i][c], id)
    requires forall m :: 0 <= m < |rows| && m != i ==> !SameLake(rows[m][c], id)
    ensures RowsOfLake(rows, c, id) == [rows[i]]
  {
    var init := rows[..|rows| - 1];
    assert forall m :: 0 <= m < |init| ==> init[m] == rows[m];
    if i < |rows| - 1 {
      OneRowOfLake(init, c, id, i);
    } else {
      NoRowOfLake(init, c, id);
    }
  }

  /** No row matches, so the filter is empty. */
  lemma {:induction false} NoRowOfLake(rows: seq<seq<Cell>>, c: nat, id: Cell)
    requires forall m :: 0 <= m < |rows| ==> c < |rows[m]|
    requires forall m :: 0 <= m < |rows| ==> !SameLake(rows[m][c], id)
    ensures RowsOfLake(rows, c, id) == []
  {
    if rows != [] {
      var init := rows[..|rows| - 1];
      assert forall m :: 0 <= m < |init| ==> init[m] == rows[m];
      NoRowOfLake(init, c, id);
    }
  }

  /** Line 19: the rows of the selected lake, or the `KeyError` when there is no `Lake_id` column. */
  function LakeRows(t: Table, id: Cell): (r: Result<seq<seq<Cell>>, Error>)
    requires WellFormed(t)
    ensures r.Err? <==> LakeIdColumn !in t.columns
    ensures r.Err? ==> r.error == MissingColumn(LakeIdColumn)
    ensures r.Ok? ==> forall p :: 0 <= p < |r.value| ==> |r.value[p]| == |t.columns|
  {
    if LakeIdColumn in t.columns then
      var rows := RowsOfLake(t.rows, IndexOf(t.columns, LakeIdColumn), id);
      Ok(rows)
    else
      Err(MissingColumn(LakeIdColumn))
  }

  /** `lake_data[time_columns]` on one row: its cells under the month columns, in their order. */
  function MonthCells(t: Table, row: seq<Cell>): (r: seq<Cell>)
    requires |row| == |t.columns|
    ensures |r| == |MonthColumnsOf(t.columns)|
    ensures forall k :: 0 <= k < |r| ==>
      r[k] == row[IndexOf(t.columns, MonthColumnsOf(t.columns)[k])]
  {
    var cols := MonthColumnsOf(t.columns);
    seq(|cols|, k requires 0 <= k < |cols| => row[IndexOf(t.columns, cols[k])])
  }

  /** Line 29 on one row: every month cell coerced to a number or missing. */
  function CoerceRow(cells: seq<Cell>): (r: seq<Option<real>>)
    ensures |r| == |cells|
    ensures forall k :: 0 <= k < |cells| && cells[k].Num? ==> r[k] == Some(cells[k].x)
    ensures forall k :: 0 <= k < |cells| && cells[k].Empty? ==> r[k] == None
  {
    seq(|cells|, k requires 0 <= k < |cells| => Coerce(cells[k]))
  }

  /** Line 38: `.values.flatten()`, the rows laid end to end (row-major). */
  function Flatten(rows: seq<seq<Option<real>>>): (r: seq<Option<real>>)
    ensures forall v :: v in r <==> exists i :: 0 <= i < |rows| && v in rows[i]
  {
    if rows == [] then []
    else
      var init := rows[..|rows| - 1];
      assert forall i :: 0 <= i < |init| ==> init[i] == rows[i];
      Flatten(init) + rows[|rows| - 1]
  }

  /** Flattening `n` rows of width `w` gives `n * w` values. */
  lemma {:induction false} FlattenLength(rows: seq<seq<Option<real>>>, w: nat)
    requires forall i :: 0 <= i < |rows| ==> |rows[i]| == w
    ensures |Flatten(rows)| == |rows| * w
  {
    if rows != [] {
      var n := |rows| - 1;
      FlattenLength(rows[..n], w);
      assert |rows| * w == n * w + w;
    }
  }

  /** Row `i`, column `c` lands at position `i * w + c` (row-major order). */
  lemma {:induction false} FlattenAt(rows: seq<seq<Option<real>>>, w: nat, i: nat, c: nat)
    requires forall m :: 0 <= m < |rows| ==> |rows[m]| == w
    requires i < |rows| && c < w
    ensures i * w + c < |Flatten(rows)| && Flatten(rows)[i * w + c] == rows[i][c]
  {
    var n := |rows| - 1;
    var init := rows[..n];
    if i == n {
      FlattenLength(init, w);
    } else {
      FlattenAt(init, w, i, c);
    }
  }

  /** `lake_data[time_columns]` after line 29: one coerced row of month values per lake row. */
  function MonthGrid(t: Table, rows: seq<seq<Cell>>): (g: seq<seq<Option<real>>>)
    requires forall i :: 0 <= i < |rows| ==> |rows[i]| == |t.columns|
    ensures |g| == |rows|
    ensures forall i :: 0 <= i < |rows| ==> g[i] == CoerceRow(MonthCells(t, rows[i]))
    ensures forall i :: 0 <= i < |g| ==> |g[i]| == |MonthColumnsOf(t.columns)|
  {
    seq(|rows|, i requires 0 <= i < |rows| => CoerceRow(MonthCells(t, rows[i])))
  }

  /** The coerced month values of the lake's rows, flattened. */
  function LakeValues(t: Table, rows: seq<seq<Cell>>): (r: seq<Option<real>>)
    requires forall i :: 0 <= i < |rows| ==> |rows[i]| == |t.columns|
    ensures |r| == |rows| * |MonthColumnsOf(t.columns)|
  {
    var grid := MonthGrid(t, rows);
    FlattenLength(grid, |MonthColumnsOf(t.columns)|);
    Flatten(grid)
  }

  /**
   * Lines 29 and 38 together: the `k`-th month cell of the lake's `i`-th row,
   * coerced, is value `i * w + k` of the flattened series, `w` being the number
   * of month columns.
   */
  lemma LakeValuesAt(t: Table, rows: seq<seq<Cell>>, i: nat, k: nat)
    requires forall m :: 0 <= m < |rows| ==> |rows[m]| == |t.columns|
    requires i < |rows| && k < |MonthColumnsOf(t.columns)|
    ensures var w := |MonthColumnsOf(t.columns)|;
      i * w + k < |LakeValues(t, rows)| && LakeValues(t, rows)[i * w + k] == Coerce(MonthCells(t, rows[i])[k])
  {
    FlattenAt(MonthGrid(t, rows), |MonthColumnsOf(t.columns)|, i, k);
  }

  /**
   * Lines 19-45: the dates and gap-filled water areas `plt.plot` draws, paired
   * up, or the step at which the script raises.
   */
  function WaterAreaSeries(t: Table, id: Cell): (r: Result<seq<(Date, real)>, Error>)
    requires WellFormed(t)
    ensures LakeIdColumn !in t.columns ==> r == Err(MissingColumn(LakeIdColumn))
    ensures LakeIdColumn in t.columns && DeriveDates(MonthColumnsOf(t.columns)).Err? ==>
      r == Err(MalformedMonthColumn(DeriveDates(MonthColumnsOf(t.columns)).error))
    ensures r.Ok? ==> |r.value| == |MonthColumnsOf(t.columns)|
    ensures r.Ok? ==> forall k :: 0 <= k < |r.value| ==>
      DeriveDate(MonthColumnsOf(t.columns)[k]) == Some(r.value[k].0)
  {
    match LakeRows(t, id)
    case Err(e) => Err(e)
    case Ok(rows) =>
      match DeriveDates(MonthColumnsOf(t.columns))
      case Err(name) => Err(MalformedMonthColumn(name))
      case Ok(dates) =>
        var values := FillGaps(LakeValues(t, rows));
        if |dates| != |values| then Err(LengthMismatch(|dates|, |values|))
        else Ok(seq(|dates|, k requires 0 <= k < |dates| => (dates[k], values[k])))
  }

  /**
   * When exactly one row carries the lake's id and every month column names a
   * date, the series has one point per month column, in column order: the
   * column's date and the gap-filled value of that row's cell.
   */
  lemma SingleRowSeries(t: Table, id: Cell, i: nat)
    requires WellFormed(t) && LakeIdColumn in t.columns
    requires i < |t.rows| && SameLake(t.rows[i][IndexOf(t.columns, LakeIdColumn)], id)
    requires forall m :: 0 <= m < |t.rows| && m != i ==> !SameLake(t.rows[m][IndexOf(t.columns, LakeIdColumn)], id)
    requires DeriveDates(MonthColumnsOf(t.columns)).Ok?
    ensures WaterAreaSeries(t, id).Ok?
    ensures |WaterAreaSeries(t, id).value| == |MonthColumnsOf(t.columns)|
    ensures forall k :: 0 <= k < |MonthColumnsOf(t.columns)| ==>
      WaterAreaSeries(t, id).value[k].1 == FillGaps(CoerceRow(MonthCells(t, t.rows[i])))[k]
  {
    var c := IndexOf(t.columns, LakeIdColumn);
    OneRowOfLake(t.rows, c, id, i);
    assert LakeRows(t, id) == Ok([t.rows[i]]);
    ValuesOfOneRow(t, t.rows[i]);
  }

  lemma ValuesOfOneRow(t: Table, row: seq<Cell>)
    requires |row| == |t.columns|
    ensures LakeValues(t, [row]) == CoerceRow(MonthCells(t, row))
  {
    var grid := MonthGrid(t, [row]);
    assert grid == [CoerceRow(MonthCells(t, row))];
    assert grid[..0] == [];
    assert Flatten(grid) == Flatten(grid[..0]) + grid[0];
  }

  /** A cell that already held a number is drawn with exactly that number. */
  lemma SingleRowKeepsReadings(t: Table, id: Cell, i: nat, k: nat)
    requires WellFormed(t) && LakeIdColumn in t.columns
    requires i < |t.rows| && SameLake(t.rows[i][IndexOf(t.columns, LakeIdColumn)], id)
    requires forall m :: 0 <= m < |t.rows| && m != i ==> !SameLake(t.rows[m][IndexOf(t.columns, LakeIdColumn)], id)
    requires DeriveDates(MonthColumnsOf(t.columns)).Ok?
    requires k < |MonthColumnsOf(t.columns)| && MonthCells(t, t.rows[i])[k].Num?
    ensures WaterAreaSeries(t, id).Ok? && k < |WaterAreaSeries(t, id).value|
    ensures WaterAreaSeries(t, id).value[k].1 == MonthCells(t, t.rows[i])[k].x
  {
    SingleRowSeries(t, id, i);
    KnownValuesKept(CoerceRow(MonthCells(t, t.rows[i])), k);
  }

  /**
   * A lake id that no row carries gives no values at all; with any month
   * column present the plot then refuses dates and values of different lengths.
   */
  lemma NoRowSeries(t: Table, id: Cell)
    requires WellFormed(t) && LakeIdColumn in t.columns
    requires forall m :: 0 <= m < |t.rows| ==> !SameLake(t.rows[m][IndexOf(t.columns, LakeIdColumn)], id)
    requires DeriveDates(MonthColumnsOf(t.columns)).Ok? && |MonthColumnsOf(t.columns)| > 0
    ensures WaterAreaSeries(t, id) == Err(LengthMismatch(|MonthColumnsOf(t.columns)|, 0))
  {
    var c := IndexOf(t.columns, LakeIdColumn);
    NoRowOfLake(t.rows, c, id);
    var grid: seq<seq<Option<real>>> := [];
    assert LakeValues(t, []) == Flatten(grid);
  }
}
