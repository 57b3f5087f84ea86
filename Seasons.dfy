/** The seasonal-trend lines of the dashboard (streamlit_app.py lines 56-61). */
module Seasons {
  import opened Wrappers
  import opened Cells
  import opened MonthColumns
  import opened LakeTable

  /** The nine season-metric columns, in the order the script lists them (line 56). */
  const SeasonColumns: seq<string> :=
    ["Jul-Oct_Pe", "Jul-Oct_Tr", "Jul-Oct_Ta",
     "Mar-Jun_Pe", "Mar-Jun_Tr", "Mar-Jun_Ta",
     "Nov-Feb_Pe", "Nov-Feb_Tr", "Nov-Feb_Ta"]

  /** What line 61 writes after the season's name: the raw cell, or "No data available" for NaN. */
  datatype SeasonValue = Reported(cell: Cell) | NoDataAvailable

  datatype SeasonLine = SeasonLine(season: string, value: SeasonValue)

  /** `value if not pd.isna(value) else 'No data available'`. */
  function Report(c: Cell): (v: SeasonValue)
    ensures v.NoDataAvailable? <==> c.Empty?
    ensures v.Reported? ==> v.cell == c
  {
    if c.Empty? then NoDataAvailable else Reported(c)
  }

  /** The names of `names` that are columns of the table, in the order of `names` (line 59). */
  function PresentSeasons(names: seq<string>, cols: seq<string>): (r: seq<string>)
    ensures forall n :: n in r <==> n in names && n in cols
    ensures |r| <= |names|
  {
    if names == [] then []
    else
      assert names == [names[0]] + names[1..];
      (if names[0] in cols then [names[0]] else []) + PresentSeasons(names[1..], cols)
  }

  /** Every position moved one place on. */
  function Shifted(idx: seq<nat>): (r: seq<nat>)
    ensures |r| == |idx| && forall p :: 0 <= p < |idx| ==> r[p] == idx[p] + 1
  {
    seq(|idx|, p requires 0 <= p < |idx| => idx[p] + 1)
  }

  /** Positions in `names` of the names that are columns, ascending. */
  function SeasonIndices(names: seq<string>, cols: seq<string>): (idx: seq<nat>)
    ensures forall p :: 0 <= p < |idx| ==> idx[p] < |names|
    ensures forall p, q :: 0 <= p < q < |idx| ==> idx[p] < idx[q]
    ensures forall k :: 0 <= k < |names| ==> (k in idx <==> names[k] in cols)
  {
    if names == [] then []
    else
      var rest := SeasonIndices(names[1..], cols);
      ConsIndices(names, cols, rest);
      (if names[0] in cols then [0] else []) + Shifted(rest)
  }

  /** The step of `SeasonIndices`: the tail's positions, moved on, after the head's. */
  lemma ConsIndices(names: seq<string>, cols: seq<string>, rest: seq<nat>)
    requires names != []
    requires forall p :: 0 <= p < |rest| ==> rest[p] < |names| - 1
    requires forall p, q :: 0 <= p < q < |rest| ==> rest[p] < rest[q]
    requires forall k :: 0 <= k < |names| - 1 ==> (k in rest <==> names[1..][k] in cols)
    ensures var r := (if names[0] in cols then [0] else []) + Shifted(rest);
      (forall p :: 0 <= p < |r| ==> r[p] < |names|) &&
      (forall p, q :: 0 <= p < q < |r| ==> r[p] < r[q]) &&
      (forall k :: 0 <= k < |names| ==> (k in r <==> names[k] in cols))
  {
    var moved := Shifted(rest);
    var head: seq<nat> := if names[0] in cols then [0] else [];
    var r := head + moved;
    forall p | 0 <= p < |r|
      ensures r[p] < |names|
    {
      if p >= |head| {
        assert r[p] == moved[p - |head|];
      }
    }
    forall p, q | 0 <= p < q < |r|
      ensures r[p] < r[q]
    {
      assert r[q] == moved[q - |head|];
      if p >= |head| {
        assert r[p] == moved[p - |head|];
      }
    }
    forall k | 0 <= k < |names|
      ensures k in r <==> names[k] in cols
    {
      if k == 0 {
        assert 0 !in moved;
      } else {
        assert k in moved <==> k - 1 in rest;
        assert names[k] == names[1..][k - 1];
      }
    }
  }

  /**
   * Line 58 walks the list in order: the selection is the listed names at
   * strictly ascending positions, one per name that is a column.
   */
  lemma {:induction false} PresentSeasonsInOrder(names: seq<string>, cols: seq<string>)
    ensures |SeasonIndices(names, cols)| == |PresentSeasons(names, cols)|
    ensures forall p :: 0 <= p < |SeasonIndices(names, cols)| ==>
      PresentSeasons(names, cols)[p] == names[SeasonIndices(names, cols)[p]]
  {
    if names != [] {
      var tail := names[1..];
      PresentSeasonsInOrder(tail, cols);
      var idx, sel := SeasonIndices(tail, cols), PresentSeasons(tail, cols);
      var all, chosen := SeasonIndices(names, cols), PresentSeasons(names, cols);
      var moved := Shifted(idx);
      forall p | 0 <= p < |idx|
        ensures sel[p] == names[moved[p]]
      {
      }
      if names[0] in cols {
        assert all == [0] + moved;
        assert chosen == [names[0]] + sel;
        forall p | 0 <= p < |all|
          ensures chosen[p] == names[all[p]]
        {
          if p > 0 {
            assert all[p] == moved[p - 1] && chosen[p] == sel[p - 1];
          }
        }
      } else {
        assert all == moved;
        assert chosen == sel;
      }
    }
  }

  /** No two of the nine season names are the same. */
  lemma SeasonColumnsDistinct()
    ensures forall i, j :: 0 <= i < j < |SeasonColumns| ==> SeasonColumns[i] != SeasonColumns[j]
  {
    forall i, j | 0 <= i < j < |SeasonColumns|
      ensures SeasonColumns[i] != SeasonColumns[j]
    {
      assert SeasonColumns[i][0] != SeasonColumns[j][0] || SeasonColumns[i][9] != SeasonColumns[j][9];
    }
  }

  /** Each season is written at most once: the selection of the nine names has no repeats. */
  lemma PresentSeasonsOnce(cols: seq<string>)
    ensures forall p, q :: 0 <= p < q < |PresentSeasons(SeasonColumns, cols)| ==>
      PresentSeasons(SeasonColumns, cols)[p] != PresentSeasons(SeasonColumns, cols)[q]
  {
    PresentSeasonsInOrder(SeasonColumns, cols);
    SeasonColumnsDistinct();
  }

  /** The line written for a present season: its name and the first lake row's cell under it. */
  function LineFor(t: Table, row: seq<Cell>, name: string): (l: SeasonLine)
    requires |row| == |t.columns| && name in t.columns
    ensures l.season == name
    ensures l.value.NoDataAvailable? <==> row[IndexOf(t.columns, name)].Empty?
    ensures l.value.Reported? ==> l.value.cell == row[IndexOf(t.columns, name)]
  {
    SeasonLine(name, Report(row[IndexOf(t.columns, name)]))
  }

  /**
   * The loop of lines 58-61 over `names`: one line per name that is a column,
   * with the first lake row's cell; `lake_data[season].values[0]` raises when
   * there is no lake row.
   */
  function SeasonLines(t: Table, rows: seq<seq<Cell>>, names: seq<string>): (r: Result<seq<SeasonLine>, Error>)
    requires forall i :: 0 <= i < |rows| ==> |rows[i]| == |t.columns|
    ensures r.Err? ==> r.error == NoMatchingRow
  {
    if names == [] then Ok([])
    else
      var name := names[0];
      if name !in t.columns then SeasonLines(t, rows, names[1..])
      else if rows == [] then Err(NoMatchingRow)
      else
        match SeasonLines(t, rows, names[1..])
        case Err(e) => Err(e)
        case Ok(rest) => Ok([LineFor(t, rows[0], name)] + rest)
  }

  /**
   * What the loop writes: it fails exactly when the lake has no row and some
   * listed season is a column; otherwise one line per present season, in list
   * order, each with the first lake row's cell under that season.
   */
  lemma {:induction false} SeasonLinesSpec(t: Table, rows: seq<seq<Cell>>, names: seq<string>)
    requires forall i :: 0 <= i < |rows| ==> |rows[i]| == |t.columns|
    ensures SeasonLines(t, rows, names).Err? <==> rows == [] && PresentSeasons(names, t.columns) != []
    ensures SeasonLines(t, rows, names).Ok? ==>
      |SeasonLines(t, rows, names).value| == |PresentSeasons(names, t.columns)|
    ensures SeasonLines(t, rows, names).Ok? ==> forall k :: 0 <= k < |PresentSeasons(names, t.columns)| ==>
      SeasonLines(t, rows, names).value[k] == LineFor(t, rows[0], PresentSeasons(names, t.columns)[k])
  {
    if names != [] {
      var name := names[0];
      var present := PresentSeasons(names, t.columns);
      var rest := PresentSeasons(names[1..], t.columns);
      SeasonLinesSpec(t, rows, names[1..]);
      if name in t.columns {
        assert present == [name] + rest;
        if rows != [] {
          var r := SeasonLines(t, rows, names[1..]).value;
          assert SeasonLines(t, rows, names).value == [LineFor(t, rows[0], name)] + r;
        }
      } else {
        assert present == rest;
      }
    }
  }

  /** Lines 56-61 for the selected lake. */
  function SeasonSummary(t: Table, id: Cell): (r: Result<seq<SeasonLine>, Error>)
    requires WellFormed(t)
    ensures LakeIdColumn !in t.columns ==> r == Err(MissingColumn(LakeIdColumn))
    ensures LakeIdColumn in t.columns ==>
      r == SeasonLines(t, RowsOfLake(t.rows, IndexOf(t.columns, LakeIdColumn), id), SeasonColumns)
    ensures r.Ok? ==> |r.value| == |PresentSeasons(SeasonColumns, t.columns)|
  {
    match LakeRows(t, id)
    case Err(e) => Err(e)
    case Ok(rows) =>
      SeasonLinesSpec(t, rows, SeasonColumns);
      SeasonLines(t, rows, SeasonColumns)
  }

  /**
   * With a matching row, the summary succeeds: one line per present season, in
   * list order, each with the cell of the table's first matching row.
   */
  lemma SeasonSummaryOfFirstRow(t: Table, id: Cell, i: nat)
    requires WellFormed(t) && LakeIdColumn in t.columns
    requires i < |t.rows| && SameLake(t.rows[i][IndexOf(t.columns, LakeIdColumn)], id)
    requires forall m :: 0 <= m < i ==> !SameLake(t.rows[m][IndexOf(t.columns, LakeIdColumn)], id)
    ensures SeasonSummary(t, id).Ok?
    ensures |SeasonSummary(t, id).value| == |PresentSeasons(SeasonColumns, t.columns)|
    ensures forall k :: 0 <= k < |PresentSeasons(SeasonColumns, t.columns)| ==>
      SeasonSummary(t, id).value[k] == LineFor(t, t.rows[i], PresentSeasons(SeasonColumns, t.columns)[k])
  {
    var c := IndexOf(t.columns, LakeIdColumn);
    FirstRowOfLake(t.rows, c, id, i);
    SeasonLinesSpec(t, RowsOfLake(t.rows, c, id), SeasonColumns);
  }

  /**
   * With no matching row, `.values[0]` raises the `IndexError` at the first
   * present season; with no season column at all, nothing is written.
   */
  lemma SeasonSummaryNoRow(t: Table, id: Cell)
    requires WellFormed(t) && LakeIdColumn in t.columns
    requires forall m :: 0 <= m < |t.rows| ==> !SameLake(t.rows[m][IndexOf(t.columns, LakeIdColumn)], id)
    ensures PresentSeasons(SeasonColumns, t.columns) != [] ==> SeasonSummary(t, id) == Err(NoMatchingRow)
    ensures PresentSeasons(SeasonColumns, t.columns) == [] ==> SeasonSummary(t, id) == Ok([])
  {
    var c := IndexOf(t.columns, LakeIdColumn);
    NoRowOfLake(t.rows, c, id);
    SeasonLinesSpec(t, [], SeasonColumns);
  }

  /**
   * One missing season value does not affect the others: blanking the first
   * row's cell of one present season turns that season's line into "No data
   * available" and leaves every other line as it was.
   */
  lemma MissingSeasonIsLocal(t: Table, rows: seq<seq<Cell>>, names: seq<string>, name: string)
    requires forall i :: 0 <= i < |rows| ==> |rows[i]| == |t.columns|
    requires rows != [] && name in t.columns
    ensures var blanked := [rows[0][IndexOf(t.columns, name):= Empty]] + rows[1..];
      var before := SeasonLines(t, rows, names);
      var after := SeasonLines(t, blanked, names);
      && before.Ok? && after.Ok? && |after.value| == |before.value|
      && forall k :: 0 <= k < |before.value| ==>
           if before.value[k].season == name
           then after.value[k] == SeasonLine(name, NoDataAvailable)
           else after.value[k] == before.value[k]
  {
    var blanked := [rows[0][IndexOf(t.columns, name):= Empty]] + rows[1..];
    var present := PresentSeasons(names, t.columns);
    var before := SeasonLines(t, rows, names);
    var after := SeasonLines(t, blanked, names);
    SeasonLinesSpec(t, rows, names);
    SeasonLinesSpec(t, blanked, names);
    forall k | 0 <= k < |before.value|
      ensures if before.value[k].season == name
              then after.value[k] == SeasonLine(name, NoDataAvailable)
              else after.value[k] == before.value[k]
    {
      var j := IndexOf(t.columns, present[k]);
      assert present[k] in t.columns;
      if present[k] != name {
        assert j != IndexOf(t.columns, name);
      }
    }
  }

  /** The season names are never taken for month columns: none ends in `_01` .. `_12`. */
  lemma SeasonsAreNotMonthColumns(cols: seq<string>)
    ensures forall n :: n in SeasonColumns ==> !IsMonthColumn(n)
    ensures forall n :: n in MonthColumnsOf(cols) ==> n !in SeasonColumns
  {
    forall n | n in SeasonColumns
      ensures !IsMonthColumn(n)
    {
      MonthColumnShape(n);
      assert !IsDigit(n[|n| - 1]);
    }
  }
}
