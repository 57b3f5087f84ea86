/**
 * Recognising the monthly water-area columns of the table (streamlit_app.py
 * line 26) and turning their names into dates (line 35).
 */
module MonthColumns {
  import opened Wrappers
  import opened Cells

  /** The suffixes `col.endswith(...)` tests for, in the script's order. */
  const MonthSuffixes: seq<string> :=
    ["_01", "_02", "_03", "_04", "_05", "_06", "_07", "_08", "_09", "_10", "_11", "_12"]

  predicate EndsWith(s: string, suffix: string)
  {
    |suffix| <= |s| && s[|s| - |suffix|..] == suffix
  }

  /** Python's `str.endswith` with a tuple: true when any suffix matches. */
  predicate IsMonthColumn(name: string)
  {
    exists k :: 0 <= k < |MonthSuffixes| && EndsWith(name, MonthSuffixes[k])
  }

  /** Two characters that spell one of 01 .. 12. */
  predicate MonthDigits(a: char, b: char)
  {
    (a == '0' && '1' <= b <= '9') || (a == '1' && '0' <= b <= '2')
  }

  /** The suffix for month `m`: `_` and `m` in two digits. */
  function MonthSuffix(m: nat): string
    requires 1 <= m <= 12
  {
    ['_', DigitChar(m / 10), DigitChar(m % 10)]
  }

  lemma SuffixOfMonth(k: nat)
    requires k < 12
    ensures MonthSuffixes[k] == MonthSuffix(k + 1)
  {
    if k == 0 {} else if k == 1 {} else if k == 2 {} else if k == 3 {}
    else if k == 4 {} else if k == 5 {} else if k == 6 {} else if k == 7 {}
    else if k == 8 {} else if k == 9 {} else if k == 10 {} else {}
  }

  lemma DigitCharOfValue(c: char)
    requires IsDigit(c)
    ensures DigitChar(DigitValue(c)) == c
  {
  }

  /** A month column is exactly a name whose last three characters are `_` and a month 01 .. 12. */
  lemma MonthColumnShape(name: string)
    ensures IsMonthColumn(name) <==>
      |name| >= 3 && name[|name| - 3] == '_' && MonthDigits(name[|name| - 2], name[|name| - 1])
  {
    if IsMonthColumn(name) {
      var k :| 0 <= k < |MonthSuffixes| && EndsWith(name, MonthSuffixes[k]);
      ShapeOfSuffix(name, k);
    }
    if |name| >= 3 && name[|name| - 3] == '_' && MonthDigits(name[|name| - 2], name[|name| - 1]) {
      SuffixOfShape(name);
    }
  }

  lemma ShapeOfSuffix(name: string, k: nat)
    requires k < 12 && EndsWith(name, MonthSuffixes[k])
    ensures |name| >= 3 && name[|name| - 3] == '_' && MonthDigits(name[|name| - 2], name[|name| - 1])
  {
    SuffixOfMonth(k);
    var tail := name[|name| - 3..];
    assert tail == MonthSuffix(k + 1);
    assert name[|name| - 3] == tail[0] && name[|name| - 2] == tail[1] && name[|name| - 1] == tail[2];
    assert (k + 1) / 10 == 0 || (k + 1) / 10 == 1;
  }

  lemma SuffixOfShape(name: string)
    requires |name| >= 3 && name[|name| - 3] == '_' && MonthDigits(name[|name| - 2], name[|name| - 1])
    ensures EndsWith(name, MonthSuffixes[10 * DigitValue(name[|name| - 2]) + DigitValue(name[|name| - 1]) - 1])
  {
    var a, b := name[|name| - 2], name[|name| - 1];
    var m := 10 * DigitValue(a) + DigitValue(b);
    assert 1 <= m <= 12;
    assert m / 10 == DigitValue(a) && m % 10 == DigitValue(b);
    DigitCharOfValue(a);
    DigitCharOfValue(b);
    SuffixOfMonth(m - 1);
    var tail := name[|name| - 3..];
    assert tail == MonthSuffix(m);
  }

  /** The list comprehension of line 26: the month columns, in table order. */
  function MonthColumnsOf(cols: seq<string>): (r: seq<string>)
    ensures forall c :: c in r <==> c in cols && IsMonthColumn(c)
    ensures |r| <= |cols|
  {
    if cols == [] then []
    else
      var init := cols[..|cols| - 1];
      assert cols == init + [cols[|cols| - 1]];
      MonthColumnsOf(init) + (if IsMonthColumn(cols[|cols| - 1]) then [cols[|cols| - 1]] else [])
  }

  /** Positions of the month columns among all columns, ascending. */
  function MonthIndices(cols: seq<string>): (idx: seq<nat>)
    ensures forall p :: 0 <= p < |idx| ==> idx[p] < |cols|
    ensures forall p, q :: 0 <= p < q < |idx| ==> idx[p] < idx[q]
    ensures forall k :: 0 <= k < |cols| ==> (k in idx <==> IsMonthColumn(cols[k]))
  {
    if cols == [] then []
    else
      var init := cols[..|cols| - 1];
      assert forall k :: 0 <= k < |init| ==> cols[k] == init[k];
      MonthIndices(init) + (if IsMonthColumn(cols[|cols| - 1]) then [|cols| - 1] else [])
  }

  /**
   * Line 26 keeps the table's column order: the selection is exactly the
   * columns at the month positions, which ascend.
   */
  lemma {:induction false} MonthColumnsInOrder(cols: seq<string>)
    ensures |MonthIndices(cols)| == |MonthColumnsOf(cols)|
    ensures forall p :: 0 <= p < |MonthIndices(cols)| ==> MonthColumnsOf(cols)[p] == cols[MonthIndices(cols)[p]]
  {
    if cols != [] {
      var n := |cols| - 1;
      var init := cols[..n];
      MonthColumnsInOrder(init);
      var idx, sel := MonthIndices(init), MonthColumnsOf(init);
      var all, chosen := MonthIndices(cols), MonthColumnsOf(cols);
      forall p | 0 <= p < |idx|
        ensures cols[idx[p]] == init[idx[p]]
      {
      }
      if IsMonthColumn(cols[n]) {
        assert all == idx + [n];
        assert chosen == sel + [cols[n]];
        forall p | 0 <= p < |all|
          ensures chosen[p] == cols[all[p]]
        {
          if p < |idx| {
            assert all[p] == idx[p] && chosen[p] == sel[p];
          }
        }
      } else {
        assert all == idx;
        assert chosen == sel;
      }
    }
  }

  /** Selecting from a concatenation selects from each part. */
  lemma {:induction false} MonthColumnsOfConcat(a: seq<string>, b: seq<string>)
    ensures MonthColumnsOf(a + b) == MonthColumnsOf(a) + MonthColumnsOf(b)
  {
    if b != [] {
      var b' := b[..|b| - 1];
      assert (a + b)[..|a + b| - 1] == a + b';
      MonthColumnsOfConcat(a, b');
    } else {
      assert a + b == a;
    }
  }

  /** A calendar date as `datetime` holds it. */
  datatype Date = Date(year: int, month: int, day: int)

  /** Python's `s[lo:hi]` for `0 <= lo <= hi`: cut down to the string's length. */
  function Slice(s: string, lo: nat, hi: nat): (r: string)
    requires lo <= hi
    ensures |r| == if |s| <= lo then 0 else if |s| <= hi then |s| - lo else hi - lo
    ensures forall i :: 0 <= i < |r| ==> lo + i < |s| && r[i] == s[lo + i]
  {
    if |s| <= lo then [] else if |s| <= hi then s[lo..] else s[lo..hi]
  }

  /** `%Y`: exactly four ASCII digits; `datetime` refuses year 0. */
  function ParseYear(y: string): (r: Option<int>)
    ensures r.Some? ==> |y| == 4 && AllDigits(y) && r.value == DigitsValue(y)
    ensures r.Some? ==> 1 <= r.value <= 9999
  {
    if |y| == 4 && AllDigits(y) && DigitsValue(y) >= 1 then
      assert DigitsValue(y) < 10000 by { DigitsValueBound(y); }
      Some(DigitsValue(y))
    else None
  }

  /** `%m`: the pattern `1[0-2]|0[1-9]|[1-9]`, matched in full. */
  function ParseMonth(m: string): (r: Option<int>)
    ensures r.Some? <==> 1 <= |m| <= 2 && AllDigits(m) && 1 <= DigitsValue(m) <= 12
    ensures r.Some? ==> r.value == DigitsValue(m)
    ensures r.Some? ==> 1 <= r.value <= 12
  {
    if |m| == 2 && AllDigits(m) then
      TwoDigits(m);
      if MonthDigits(m[0], m[1]) then Some(10 * DigitValue(m[0]) + DigitValue(m[1])) else None
    else if |m| == 1 && '1' <= m[0] <= '9' then
      assert m[..0] == [];
      Some(DigitValue(m[0]))
    else
      assert |m| == 1 ==> m[..0] == [];
      None
  }

  /** Two digits denote ten times the first plus the second. */
  lemma TwoDigits(m: string)
    requires |m| == 2 && AllDigits(m)
    ensures DigitsValue(m) == 10 * DigitValue(m[0]) + DigitValue(m[1])
  {
    var first := m[..1];
    assert first[..0] == [] && first[0] == m[0];
    assert DigitsValue(first) == DigitValue(m[0]);
  }

  /**
   * Line 35 on one name: `strptime(f"{col[:4]}-{col[5:7]}-01", "%Y-%m-%d")`.
   * The character at index 4 is never looked at; `None` is the `ValueError`.
   */
  function DeriveDate(col: string): (r: Option<Date>)
    ensures r.Some? ==> 1 <= r.value.year <= 9999 && 1 <= r.value.month <= 12 && r.value.day == 1
    ensures |col| < 6 ==> r.None?
    ensures |col| == 6 ==> (r.Some? <==> AllDigits(col[..4]) && DigitsValue(col[..4]) >= 1 && '1' <= col[5] <= '9')
    ensures |col| == 6 && r.Some? ==> r.value == Date(DigitsValue(col[..4]), DigitValue(col[5]), 1)
    ensures |col| >= 7 ==> (r.Some? <==> AllDigits(col[..4]) && DigitsValue(col[..4]) >= 1 && MonthDigits(col[5], col[6]))
    ensures |col| >= 7 && r.Some? ==>
      r.value == Date(DigitsValue(col[..4]), 10 * DigitValue(col[5]) + DigitValue(col[6]), 1)
  {
    assert |col| >= 4 ==> Slice(col, 0, 4) == col[..4];
    assert |col| >= 7 ==> Slice(col, 5, 7) == col[5..7];
    assert |col| == 6 ==> Slice(col, 5, 7) == col[5..6];
    match (ParseYear(Slice(col, 0, 4)), ParseMonth(Slice(col, 5, 7)))
    case (Some(y), Some(m)) => Some(Date(y, m, 1))
    case _ => None
  }

  /**
   * The whole list comprehension of line 35: one date per column, in order, or
   * the first column whose name makes `strptime` raise.
   */
  function DeriveDates(cols: seq<string>): (r: Result<seq<Date>, string>)
    ensures r.Ok? <==> forall k :: 0 <= k < |cols| ==> DeriveDate(cols[k]).Some?
    ensures r.Ok? ==> |r.value| == |cols|
    ensures r.Ok? ==> forall k :: 0 <= k < |cols| ==> DeriveDate(cols[k]) == Some(r.value[k])
    ensures r.Err? ==> exists k :: 0 <= k < |cols| && cols[k] == r.error && DeriveDate(cols[k]).None? &&
                                   (forall j :: 0 <= j < k ==> DeriveDate(cols[j]).Some?)
  {
    if cols == [] then Ok([])
    else
      match DeriveDate(cols[0])
      case None => Err(cols[0])
      case Some(d) =>
        match DeriveDates(cols[1..])
        case Err(name) =>
          assert forall k :: 0 < k < |cols| ==> cols[k] == cols[1..][k - 1];
          Err(name)
        case Ok(ds) => Ok([d] + ds)
  }

  /** `n` written with exactly `width` digits, padded with leading zeros. */
  function Padded(n: nat, width: nat): (s: string)
    requires n < Pow10(width)
    ensures |s| == width && AllDigits(s) && DigitsValue(s) == n
  {
    if width == 0 then ""
    else
      var s := Padded(n / 10, width - 1) + [DigitChar(n % 10)];
      assert s[..|s| - 1] == Padded(n / 10, width - 1);
      s
  }

  /** How the dataset names the column of a (year, month) pair: `YYYY_MM`. */
  function ColumnName(year: int, month: int): string
    requires 1 <= year <= 9999 && 1 <= month <= 12
  {
    Padded(year, 4) + "_" + Padded(month, 2)
  }

  /** Naming a month's column and deriving its date gives back the first of that month. */
  lemma ColumnNameRoundTrip(year: int, month: int)
    requires 1 <= year <= 9999 && 1 <= month <= 12
    ensures IsMonthColumn(ColumnName(year, month))
    ensures DeriveDate(ColumnName(year, month)) == Some(Date(year, month, 1))
  {
    var y := Padded(year, 4);
    var m := Padded(month, 2);
    var name := ColumnName(year, month);
    assert Slice(name, 0, 4) == y;
    assert Slice(name, 5, 7) == m;
    assert m[..1] == [m[0]];
    assert DigitsValue(m) == 10 * DigitValue(m[0]) + DigitValue(m[1]);
    assert MonthDigits(m[0], m[1]);
    MonthColumnShape(name);
  }

  /** The separator at index 4 is ignored. */
  lemma SeparatorIgnored(col: string, c: char)
    requires |col| > 4
    ensures DeriveDate(col[4 := c]) == DeriveDate(col)
  {
    var col' := col[4 := c];
    assert Slice(col', 0, 4) == Slice(col, 0, 4);
    assert Slice(col', 5, 7) == Slice(col, 5, 7);
  }

  lemma DigitsValueOfFour(s: string)
    requires |s| == 4 && AllDigits(s)
    ensures DigitsValue(s) == 1000 * DigitValue(s[0]) + 100 * DigitValue(s[1]) + 10 * DigitValue(s[2]) + DigitValue(s[3])
  {
    var s1, s2, s3 := s[..1], s[..2], s[..3];
    assert s1[..0] == [] && s2[..1] == s1 && s3[..2] == s2 && s[..3] == s3;
    assert DigitsValue(s1) == DigitValue(s[0]);
    assert DigitsValue(s2) == 10 * DigitValue(s[0]) + DigitValue(s[1]);
    assert DigitsValue(s3) == 100 * DigitValue(s[0]) + 10 * DigitValue(s[1]) + DigitValue(s[2]);
  }

  lemma DeriveDateExample()
    ensures DeriveDate("2003_07") == Some(Date(2003, 7, 1))
  {
    var y := Slice("2003_07", 0, 4);
    assert y == "2003";
    DigitsValueOfFour(y);
    assert Slice("2003_07", 5, 7) == "07";
  }

  /** The month comes from characters 5-6, not from the suffix that selected the column. */
  lemma DeriveDateLongNameExample()
    ensures IsMonthColumn("2003_07_01")
    ensures DeriveDate("2003_07_01") == Some(Date(2003, 7, 1))
  {
    MonthColumnShape("2003_07_01");
    DeriveDateExample();
    assert Slice("2003_07_01", 0, 4) == Slice("2003_07", 0, 4);
    assert Slice("2003_07_01", 5, 7) == Slice("2003_07", 5, 7);
  }

  /** Year 0 passes `%Y` but `datetime` refuses it. */
  lemma DeriveDateYearZeroExample()
    ensures DeriveDate("0000_07") == None
  {
    var y := Slice("0000_07", 0, 4);
    assert y == "0000";
    DigitsValueOfFour(y);
  }
}
