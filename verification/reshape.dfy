/** The wide-to-long reshape done by `get_inv_data` (streamlit_app.py:28-58):
    the year columns "2010".."2022" are melted into one (Country Code, Year, INV)
    record per input row and year column, and the Year strings are then converted
    to integers. */
module Reshape {
  import opened Wrappers
  import opened Decimal

  const MinYear: nat := 2010
  const MaxYear: nat := 2022

  /** The id column handed to `melt`. */
  const IdColumn: string := "Country Code"

  /** The `value_name` handed to `melt`: the column of the long table that holds the
      cells. */
  const ValueName: string := "INV"

  /** One line of the wide CSV. `code` is its Country Code cell; `cells` maps a
      column header to its value. An empty cell (NaN once loaded) is None, and so is a
      header the row's map does not hold. A non-numeric text cell has no value of its
      own: it is None too. */
  datatype RawRow = RawRow(name: string, code: string, cells: map<string, Option<real>>)

  /** The loaded CSV: its header (the set of column names) and its rows. */
  datatype RawTable = RawTable(columns: set<string>, rows: seq<RawRow>)

  /** A record straight out of `melt`: the Year is still the column header string. */
  datatype Melted = Melted(code: string, year: string, inv: Option<real>)

  /** A record of the long table `inv_df`: Country Code, integer Year, INV. */
  datatype Obs = Obs(code: string, year: int, inv: Option<real>)

  datatype ReshapeError =
    | ValueNameTaken(name: string)         // melt's ValueError: value_name is already a header
    | MissingColumns(missing: seq<string>) // melt's KeyError: id or value columns not in the frame
    | NotNumeric(text: string, position: nat) // to_numeric's "Unable to parse string"

  /** The value of `row` under the header `column`. */
  function Cell(row: RawRow, column: string): Option<real> {
    if column in row.cells then row.cells[column] else None
  }

  /** `range(MIN_YEAR, MAX_YEAR + 1)`. */
  function Years(): seq<nat> {
    seq(MaxYear - MinYear + 1, k requires 0 <= k => MinYear + k)
  }

  /** `[str(x) for x in years]`. */
  function Columns(years: seq<nat>): (cols: seq<string>)
    ensures |cols| == |years|
  {
    seq(|years|, k requires 0 <= k < |years| => DecimalString(years[k]))
  }

  /** The value columns handed to `melt`. */
  function YearColumns(): seq<string> {
    Columns(Years())
  }

  lemma YearsAt(k: int)
    requires 0 <= k < MaxYear - MinYear + 1
    ensures |Years()| == MaxYear - MinYear + 1 && Years()[k] == MinYear + k
    ensures |YearColumns()| == |Years()| && YearColumns()[k] == DecimalString(MinYear + k)
  {
  }

  /** A header is melted iff it is the numeral of a year in 2010..2022. */
  lemma YearColumnsMembers(s: string)
    ensures s in YearColumns() <==> exists y: nat :: MinYear <= y <= MaxYear && s == DecimalString(y)
  {
    var cols := YearColumns();
    if s in cols {
      var k :| 0 <= k < |cols| && cols[k] == s;
      YearsAt(k);
    }
    if exists y: nat :: MinYear <= y <= MaxYear && s == DecimalString(y) {
      var y: nat :| MinYear <= y <= MaxYear && s == DecimalString(y);
      YearsAt(y - MinYear);
    }
  }

  /** The melted columns are exactly the 13 numerals of 2010..2022, listed by
      increasing year and pairwise distinct. */
  lemma YearColumnsAreTheYears()
    ensures |YearColumns()| == MaxYear - MinYear + 1 == 13
    ensures forall k | 0 <= k < |YearColumns()| :: ParseDecimal(YearColumns()[k]) == Some(MinYear + k)
    ensures forall j, k | 0 <= j < k < |YearColumns()| ::
      ParseDecimal(YearColumns()[j]).value < ParseDecimal(YearColumns()[k]).value
    ensures forall j, k | 0 <= j < k < |YearColumns()| :: YearColumns()[j] != YearColumns()[k]
  {
    var cols := YearColumns();
    YearsAt(0);
    forall k | 0 <= k < |cols|
      ensures ParseDecimal(cols[k]) == Some(MinYear + k)
    {
      YearsAt(k);
      ParseDecimalString(MinYear + k);
    }
    forall j, k | 0 <= j < k < |cols|
      ensures cols[j] != cols[k]
    {
      assert ParseDecimal(cols[j]) == Some(MinYear + j);
    }
  }

  /** No year column is reported missing iff every year's numeral is a header. */
  lemma {:induction false} NothingMissing(present: set<string>)
    ensures |MissingFrom(YearColumns(), present)| == 0 <==>
      forall y: nat | MinYear <= y <= MaxYear :: DecimalString(y) in present
  {
    var missing := MissingFrom(YearColumns(), present);
    if forall y: nat | MinYear <= y <= MaxYear :: DecimalString(y) in present {
      if |missing| > 0 {
        assert missing[0] in missing;
        YearColumnsMembers(missing[0]);
      }
    } else {
      var y: nat :| MinYear <= y <= MaxYear && DecimalString(y) !in present;
      YearColumnsMembers(DecimalString(y));
      assert DecimalString(y) in missing;
    }
  }

  /** The record `melt` emits for `row` and value column `column`; every other
      column of the row (Country Name among them) is dropped. */
  function MeltCell(row: RawRow, column: string): Melted {
    Melted(row.code, column, Cell(row, column))
  }

  /** The block `melt` emits for one value column: one record per row, in row order. */
  function MeltColumn(rows: seq<RawRow>, column: string): (ms: seq<Melted>)
    ensures |ms| == |rows|
  {
    seq(|rows|, i requires 0 <= i < |rows| => MeltCell(rows[i], column))
  }

  /** `melt(['Country Code'], columns, 'Year', 'INV')`: one block per value column. */
  function Melt(rows: seq<RawRow>, columns: seq<string>): (ms: seq<Melted>)
    ensures |ms| == |rows| * |columns|
    decreases |columns|
  {
    if |columns| == 0 then []
    else
      assert |rows| * |columns| == |rows| + |rows| * (|columns| - 1);
      MeltColumn(rows, columns[0]) + Melt(rows, columns[1..])
  }

  /** `melt` emits a record iff it comes from some (row, value column) pair. */
  lemma {:induction false} MeltMembers(rows: seq<RawRow>, columns: seq<string>, m: Melted)
    ensures m in Melt(rows, columns) <==>
      exists i, j :: 0 <= i < |rows| && 0 <= j < |columns| && m == MeltCell(rows[i], columns[j])
    decreases |columns|
  {
    if |columns| > 0 {
      MeltMembers(rows, columns[1..], m);
      if m in Melt(rows, columns) {
        if m in MeltColumn(rows, columns[0]) {
          var i :| 0 <= i < |rows| && MeltColumn(rows, columns[0])[i] == m;
          assert m == MeltCell(rows[i], columns[0]);
        } else {
          assert m in Melt(rows, columns[1..]);
          var i, j :| 0 <= i < |rows| && 0 <= j < |columns[1..]| && m == MeltCell(rows[i], columns[1..][j]);
          assert m == MeltCell(rows[i], columns[j + 1]);
        }
      }
      if exists i, j :: 0 <= i < |rows| && 0 <= j < |columns| && m == MeltCell(rows[i], columns[j]) {
        var i, j :| 0 <= i < |rows| && 0 <= j < |columns| && m == MeltCell(rows[i], columns[j]);
        if j == 0 {
          assert MeltColumn(rows, columns[0])[i] == m;
        } else {
          assert columns[1..][j - 1] == columns[j];
          assert m in Melt(rows, columns[1..]);
        }
      }
    }
  }

  /** `pd.to_numeric` applied to the Year column, counting positions from `position`:
      either every Year parses and each record keeps its code and value with the
      Year replaced by its number, or the first Year that does not parse is reported
      with its position and nothing is returned. */
  function ToNumericFrom(ms: seq<Melted>, position: nat): (r: Result<seq<Obs>, ReshapeError>)
    ensures r.Success? <==> forall k | 0 <= k < |ms| :: IsNumeral(ms[k].year)
    ensures r.Success? ==> |r.value| == |ms|
    ensures r.Success? ==> forall k | 0 <= k < |ms| ::
      r.value[k] == Obs(ms[k].code, DigitsValue(ms[k].year), ms[k].inv)
    ensures r.Failure? ==> exists k | 0 <= k < |ms| ::
      && r.error == NotNumeric(ms[k].year, position + k)
      && !IsNumeral(ms[k].year)
      && forall j | 0 <= j < k :: IsNumeral(ms[j].year)
    decreases |ms|
  {
    if |ms| == 0 then Success([])
    else
      match ParseDecimal(ms[0].year)
      case None => Failure(NotNumeric(ms[0].year, position))
      case Some(y) =>
        var rest := ToNumericFrom(ms[1..], position + 1);
        if rest.Failure? then
          ghost var k :| 0 <= k < |ms[1..]| && rest.error == NotNumeric(ms[1..][k].year, position + 1 + k)
                         && !IsNumeral(ms[1..][k].year) && forall j | 0 <= j < k :: IsNumeral(ms[1..][j].year);
          assert ms[k + 1] == ms[1..][k];
          assert forall j | 1 <= j < k + 1 :: ms[j] == ms[1..][j - 1];
          Failure(rest.error)
        else
          assert forall k | 1 <= k < |ms| :: ms[k] == ms[1..][k - 1];
          Success([Obs(ms[0].code, y, ms[0].inv)] + rest.value)
  }

  /** `pd.to_numeric(inv_df['Year'])`. */
  function ToNumeric(ms: seq<Melted>): Result<seq<Obs>, ReshapeError> {
    ToNumericFrom(ms, 0)
  }

  /** The first element of `columns` not in `present`, then the next, ... in order. */
  function MissingFrom(columns: seq<string>, present: set<string>): (missing: seq<string>)
    ensures forall c :: c in missing <==> c in columns && c !in present
  {
    if |columns| == 0 then []
    else if columns[0] in present then MissingFrom(columns[1..], present)
    else [columns[0]] + MissingFrom(columns[1..], present)
  }

  /** `get_inv_data` after the CSV has been read: melt the year columns, then turn the
      Year strings into integers. `melt` first refuses a `value_name` that is already
      a header, then raises one KeyError naming every id or value column that is not
      a header, in the order they were passed: the id column, then the year columns
      (the two lists are joined here; `MissingFromAppend` shows that this is the
      same list). */
  function GetInvData(t: RawTable): Result<seq<Obs>, ReshapeError> {
    if ValueName in t.columns then Failure(ValueNameTaken(ValueName))
    else
      var missing := MissingFrom([IdColumn], t.columns) + MissingFrom(YearColumns(), t.columns);
      if |missing| > 0 then Failure(MissingColumns(missing))
      else ToNumeric(Melt(t.rows, YearColumns()))
  }

  // ---------------------------------------------------------------------------
  // An order-free reference for the long table: for each row in turn, one record
  // per year.

  /** The long-table record for `row` at `year`. */
  function ObsOf(row: RawRow, year: nat): Obs {
    Obs(row.code, year, Cell(row, DecimalString(year)))
  }

  function RowRecords(row: RawRow, years: seq<nat>): (os: seq<Obs>)
    ensures |os| == |years|
  {
    seq(|years|, j requires 0 <= j < |years| => ObsOf(row, years[j]))
  }

  function RowMajor(rows: seq<RawRow>, years: seq<nat>): (os: seq<Obs>)
    ensures |os| == |rows| * |years|
  {
    if |rows| == 0 then []
    else
      assert |rows| * |years| == |years| + (|rows| - 1) * |years|;
      RowRecords(rows[0], years) + RowMajor(rows[1..], years)
  }

  /** The reference holds a record iff it comes from some (row, year) pair. */
  lemma {:induction false} RowMajorMembers(rows: seq<RawRow>, years: seq<nat>, o: Obs)
    ensures o in RowMajor(rows, years) <==>
      exists i, j :: 0 <= i < |rows| && 0 <= j < |years| && o == ObsOf(rows[i], years[j])
  {
    if |rows| > 0 {
      RowMajorMembers(rows[1..], years, o);
      if o in RowMajor(rows, years) {
        if o in RowRecords(rows[0], years) {
          var j :| 0 <= j < |years| && RowRecords(rows[0], years)[j] == o;
          assert o == ObsOf(rows[0], years[j]);
        } else {
          assert o in RowMajor(rows[1..], years);
          var i, j :| 0 <= i < |rows[1..]| && 0 <= j < |years| && o == ObsOf(rows[1..][i], years[j]);
          assert o == ObsOf(rows[i + 1], years[j]);
        }
      }
      if exists i, j :: 0 <= i < |rows| && 0 <= j < |years| && o == ObsOf(rows[i], years[j]) {
        var i, j :| 0 <= i < |rows| && 0 <= j < |years| && o == ObsOf(rows[i], years[j]);
        if i == 0 {
          assert RowRecords(rows[0], years)[j] == o;
        } else {
          assert rows[1..][i - 1] == rows[i];
          assert o in RowMajor(rows[1..], years);
        }
      }
    }
  }

  // ---------------------------------------------------------------------------
  // The melted-and-converted table, column by column.

  function ObsColumn(rows: seq<RawRow>, year: nat): (os: seq<Obs>)
    ensures |os| == |rows|
  {
    seq(|rows|, i requires 0 <= i < |rows| => ObsOf(rows[i], year))
  }

  function ColumnMajor(rows: seq<RawRow>, years: seq<nat>): seq<Obs>
    decreases |years|
  {
    if |years| == 0 then [] else ObsColumn(rows, years[0]) + ColumnMajor(rows, years[1..])
  }

  function Convert(m: Melted): Obs
    requires IsNumeral(m.year)
  {
    Obs(m.code, DigitsValue(m.year), m.inv)
  }

  function ConvertAll(ms: seq<Melted>): (os: seq<Obs>)
    requires forall k | 0 <= k < |ms| :: IsNumeral(ms[k].year)
    ensures |os| == |ms|
  {
    seq(|ms|, k requires 0 <= k < |ms| => Convert(ms[k]))
  }

  lemma {:induction false} MeltedYearsAreNumerals(rows: seq<RawRow>, years: seq<nat>)
    ensures forall k | 0 <= k < |Melt(rows, Columns(years))| :: IsNumeral(Melt(rows, Columns(years))[k].year)
  {
    var ms := Melt(rows, Columns(years));
    forall k | 0 <= k < |ms|
      ensures IsNumeral(ms[k].year)
    {
      MeltMembers(rows, Columns(years), ms[k]);
      var i, j :| 0 <= i < |rows| && 0 <= j < |Columns(years)| && ms[k] == MeltCell(rows[i], Columns(years)[j]);
    }
  }

  lemma {:induction false} ConvertMeltColumns(rows: seq<RawRow>, years: seq<nat>)
    requires forall k | 0 <= k < |Melt(rows, Columns(years))| :: IsNumeral(Melt(rows, Columns(years))[k].year)
    ensures ConvertAll(Melt(rows, Columns(years))) == ColumnMajor(rows, years)
    decreases |years|
  {
    if |years| > 0 {
      var cols := Columns(years);
      assert cols[1..] == Columns(years[1..]);
      var head := MeltColumn(rows, cols[0]);
      var tail := Melt(rows, cols[1..]);
      assert Melt(rows, cols) == head + tail;
      assert forall k | 0 <= k < |tail| :: tail[k] == (head + tail)[|head| + k];
      ConvertMeltColumns(rows, years[1..]);
      ParseDecimalString(years[0]);
      assert ConvertAll(head) == ObsColumn(rows, years[0]);
      assert ConvertAll(head + tail) == ConvertAll(head) + ConvertAll(tail);
    }
  }

  /** Converting the Years of the melted table never fails, and gives the long
      table block by block. */
  lemma {:induction false} MeltThenConvert(rows: seq<RawRow>, years: seq<nat>)
    ensures ToNumeric(Melt(rows, Columns(years))) == Success(ColumnMajor(rows, years))
  {
    var ms := Melt(rows, Columns(years));
    MeltedYearsAreNumerals(rows, years);
    ConvertMeltColumns(rows, years);
    assert ToNumeric(ms).value == ConvertAll(ms);
  }

  // ---------------------------------------------------------------------------
  // The two orders hold the same records.

  lemma RowMajorNoYears(rows: seq<RawRow>)
    ensures RowMajor(rows, []) == []
  {
  }

  /** Taking the first year off every row's block leaves the reference minus that
      year's column. */
  lemma {:induction false} RowMajorSplitFirstYear(rows: seq<RawRow>, years: seq<nat>)
    requires |years| > 0
    ensures multiset(RowMajor(rows, years))
         == multiset(ObsColumn(rows, years[0])) + multiset(RowMajor(rows, years[1..]))
  {
    if |rows| > 0 {
      RowMajorSplitFirstYear(rows[1..], years);
      assert RowRecords(rows[0], years) == [ObsOf(rows[0], years[0])] + RowRecords(rows[0], years[1..]);
      assert ObsColumn(rows, years[0]) == [ObsOf(rows[0], years[0])] + ObsColumn(rows[1..], years[0]);
    } else {
      assert ObsColumn(rows, years[0]) == [];
    }
  }

  /** Column-by-column and row-by-row emission hold the same records with the same
      multiplicities. */
  lemma {:induction false} ColumnMajorIsRowMajor(rows: seq<RawRow>, years: seq<nat>)
    ensures multiset(ColumnMajor(rows, years)) == multiset(RowMajor(rows, years))
    decreases |years|
  {
    if |years| == 0 {
      RowMajorNoYears(rows);
    } else {
      ColumnMajorIsRowMajor(rows, years[1..]);
      RowMajorSplitFirstYear(rows, years);
    }
  }

  /** The missing labels of a list are those of its first part, then those of the
      rest. */
  lemma {:induction false} MissingFromAppend(a: seq<string>, b: seq<string>, present: set<string>)
    ensures MissingFrom(a + b, present) == MissingFrom(a, present) + MissingFrom(b, present)
  {
    if |a| > 0 {
      MissingFromAppend(a[1..], b, present);
      assert (a + b)[1..] == a[1..] + b;
    } else {
      assert a + b == b;
    }
  }

  /** The id column is reported missing exactly when it is not a header. */
  lemma IdColumnMissing(present: set<string>)
    ensures MissingFrom([IdColumn], present) == if IdColumn in present then [] else [IdColumn]
  {
  }

  /** `get_inv_data` succeeds exactly when `INV` is not a header but `Country Code`
      and every year column are. A clash with `INV` is reported before anything else;
      otherwise the error names `Country Code` first when it is absent, and then
      exactly the absent year columns. On success it returns the column-by-column
      long table. */
  lemma GetInvDataValue(t: RawTable)
    ensures GetInvData(t).Success? <==>
      && ValueName !in t.columns
      && IdColumn in t.columns
      && forall y: nat | MinYear <= y <= MaxYear :: DecimalString(y) in t.columns
    ensures GetInvData(t).Failure? ==>
      if ValueName in t.columns then GetInvData(t).error == ValueNameTaken(ValueName)
      else
        && GetInvData(t).error.MissingColumns?
        && |GetInvData(t).error.missing| > 0
        && (IdColumn !in t.columns ==> GetInvData(t).error.missing[0] == IdColumn)
        && forall c :: c in GetInvData(t).error.missing <==>
             c !in t.columns && (c == IdColumn || c in YearColumns())
    ensures GetInvData(t).Success? ==> GetInvData(t).value == ColumnMajor(t.rows, Years())
  {
    NothingMissing(t.columns);
    IdColumnMissing(t.columns);
    MeltThenConvert(t.rows, Years());
  }

  /** The column-by-column table holds a record iff it comes from some (row, year)
      pair, as the reference does. */
  lemma ColumnMajorMembers(rows: seq<RawRow>, years: seq<nat>, o: Obs)
    ensures o in ColumnMajor(rows, years) <==>
      exists i, j :: 0 <= i < |rows| && 0 <= j < |years| && o == ObsOf(rows[i], years[j])
  {
    ColumnMajorIsRowMajor(rows, years);
    assert o in ColumnMajor(rows, years) <==> o in multiset(ColumnMajor(rows, years));
    assert o in RowMajor(rows, years) <==> o in multiset(RowMajor(rows, years));
    RowMajorMembers(rows, years, o);
  }

  /** Over a run of consecutive years lo..hi, the long table holds a record iff it
      is one row's code and value at one year of that run. */
  lemma {:induction false} ConsecutiveYearsMembers(rows: seq<RawRow>, years: seq<nat>, lo: nat, hi: nat, o: Obs)
    requires |years| == hi - lo + 1
    requires forall j | 0 <= j < |years| :: years[j] == lo + j
    ensures o in ColumnMajor(rows, years) <==>
      exists i, y: nat :: 0 <= i < |rows| && lo <= y <= hi && o == ObsOf(rows[i], y)
  {
    ColumnMajorMembers(rows, years, o);
    if o in ColumnMajor(rows, years) {
      var i, j :| 0 <= i < |rows| && 0 <= j < |years| && o == ObsOf(rows[i], years[j]);
      var y: nat := years[j];
      assert 0 <= i < |rows| && lo <= y <= hi && o == ObsOf(rows[i], y);
    }
    if exists i, y: nat :: 0 <= i < |rows| && lo <= y <= hi && o == ObsOf(rows[i], y) {
      var i, y: nat :| 0 <= i < |rows| && lo <= y <= hi && o == ObsOf(rows[i], y);
      assert 0 <= i < |rows| && 0 <= y - lo < |years| && o == ObsOf(rows[i], years[y - lo]);
    }
  }

  lemma LongTableMembers(rows: seq<RawRow>, o: Obs)
    ensures o in ColumnMajor(rows, Years()) <==>
      exists i, y: nat :: 0 <= i < |rows| && MinYear <= y <= MaxYear && o == ObsOf(rows[i], y)
  {
    YearsAt(0);
    forall j | 0 <= j < |Years()|
      ensures Years()[j] == MinYear + j
    {
      YearsAt(j);
    }
    ConsecutiveYearsMembers(rows, Years(), MinYear, MaxYear, o);
  }

  /** Every record of the long table is one row's code and value at one year in
      2010..2022, and every such (row, year) record is there. */
  lemma GetInvDataMembers(t: RawTable, o: Obs)
    requires GetInvData(t).Success?
    ensures o in GetInvData(t).value <==>
      exists i, y: nat :: 0 <= i < |t.rows| && MinYear <= y <= MaxYear && o == ObsOf(t.rows[i], y)
  {
    GetInvDataValue(t);
    LongTableMembers(t.rows, o);
  }

  /** What `get_inv_data` promises its callers: it fails only when `INV` is already a
      header, or `Country Code` or a year column is absent from the CSV; otherwise it
      returns rows × 13 records, every Year an integer in 2010..2022, and each
      (row, year) record exactly as often as the row-by-row reference holds it. */
  lemma GetInvDataSpec(t: RawTable)
    ensures GetInvData(t).Success? <==>
      && ValueName !in t.columns
      && IdColumn in t.columns
      && forall y: nat | MinYear <= y <= MaxYear :: DecimalString(y) in t.columns
    ensures GetInvData(t).Failure? ==>
      if ValueName in t.columns then GetInvData(t).error == ValueNameTaken(ValueName)
      else
        && GetInvData(t).error.MissingColumns?
        && |GetInvData(t).error.missing| > 0
        && (IdColumn !in t.columns ==> GetInvData(t).error.missing[0] == IdColumn)
        && forall c :: c in GetInvData(t).error.missing <==>
             c !in t.columns && (c == IdColumn || c in YearColumns())
    ensures GetInvData(t).Success? ==>
      && |GetInvData(t).value| == |t.rows| * 13
      && (forall o | o in GetInvData(t).value :: MinYear <= o.year <= MaxYear)
      && multiset(GetInvData(t).value) == multiset(RowMajor(t.rows, Years()))
  {
    GetInvDataValue(t);
    if GetInvData(t).Success? {
      var obs := GetInvData(t).value;
      ColumnMajorIsRowMajor(t.rows, Years());
      YearsAt(0);
      assert |obs| == |multiset(obs)| == |RowMajor(t.rows, Years())|;
      forall o | o in obs
        ensures MinYear <= o.year <= MaxYear
      {
        GetInvDataMembers(t, o);
      }
    }
  }
}
