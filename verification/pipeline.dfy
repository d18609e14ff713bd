/** The script's data flow end to end: the table `get_inv_data` returns is the one
    table both the chart filter and the year slices read (streamlit_app.py:60,
    100-104, 121-142). */
module Pipeline {
  import opened Wrappers
  import opened Decimal
  import opened Reshape
  import opened Filter
  import opened Growth

  /** No two rows of the CSV share a Country Code. */
  predicate UniqueCodes(rows: seq<RawRow>) {
    forall i, j | 0 <= i < j < |rows| :: rows[i].code != rows[j].code
  }

  /** The chart shows a record iff it is the record of a row whose code is selected,
      at a year that is both in 2010..2022 and in the slider's range. */
  lemma ChartMembers(t: RawTable, selected: seq<string>, fromYear: int, toYear: int, o: Obs)
    requires GetInvData(t).Success?
    ensures o in RangeFilter(GetInvData(t).value, selected, fromYear, toYear) <==>
      exists i, y: nat ::
        && 0 <= i < |t.rows| && t.rows[i].code in selected
        && MinYear <= y <= MaxYear && fromYear <= y <= toYear
        && o == ObsOf(t.rows[i], y)
  {
    GetInvDataMembers(t, o);
  }

  /** In the reshaped table, the first record of a row's code at a year of the range
      carries that row's cell for the year, provided no other row has the same code. */
  lemma LookupReshaped(t: RawTable, i: int, year: nat)
    requires GetInvData(t).Success?
    requires UniqueCodes(t.rows)
    requires 0 <= i < |t.rows|
    requires MinYear <= year <= MaxYear
    ensures Lookup(YearSlice(GetInvData(t).value, year), t.rows[i].code, year)
         == Success(Cell(t.rows[i], DecimalString(year)))
  {
    var obs := GetInvData(t).value;
    var code := t.rows[i].code;
    SliceLookup(obs, code, year);
    GetInvDataMembers(t, ObsOf(t.rows[i], year));
    var k :| 0 <= k < |obs| && obs[k] == ObsOf(t.rows[i], year);
    assert Matches(obs, k, code, year);
    var r := Lookup(YearSlice(obs, year), code, year);
    var first :| IsFirstMatch(obs, first, code, year) && r.value == obs[first].inv;
    GetInvDataMembers(t, obs[first]);
    var i', y: nat :| 0 <= i' < |t.rows| && MinYear <= y <= MaxYear && obs[first] == ObsOf(t.rows[i'], y);
    assert i' == i;
  }

  /** In the reshaped table, a code no row carries, or a year outside 2010..2022, has
      no record: the lookup raises rather than yielding a value or "n/a". */
  lemma LookupReshapedMissing(t: RawTable, country: string, year: int)
    requires GetInvData(t).Success?
    requires (forall i | 0 <= i < |t.rows| :: t.rows[i].code != country) || year < MinYear || MaxYear < year
    ensures Lookup(YearSlice(GetInvData(t).value, year), country, year) == Failure(NoRecord(country, year))
  {
    var obs := GetInvData(t).value;
    SliceLookup(obs, country, year);
    forall k | 0 <= k < |obs|
      ensures !Matches(obs, k, country, year)
    {
      GetInvDataMembers(t, obs[k]);
    }
  }

  /** The metric of a country of the CSV, for two years of the range: the row's cells
      for those years in billions, with "n/a" exactly when the from-year cell is
      empty and otherwise their ratio. */
  lemma MetricOfReshaped(t: RawTable, i: int, fromYear: nat, toYear: nat)
    requires GetInvData(t).Success?
    requires UniqueCodes(t.rows)
    requires 0 <= i < |t.rows|
    requires MinYear <= fromYear <= MaxYear && MinYear <= toYear <= MaxYear
    requires Cell(t.rows[i], DecimalString(fromYear)) != Some(0.0)
    ensures !DividesByZero(GetInvData(t).value, t.rows[i].code, fromYear, toYear)
    ensures
      var first := Scale(Cell(t.rows[i], DecimalString(fromYear)));
      var last := Scale(Cell(t.rows[i], DecimalString(toYear)));
      && first != Some(0.0)
      && CountryMetric(GetInvData(t).value, t.rows[i].code, fromYear, toYear)
         == Success(Metric(t.rows[i].code, first, last, GrowthOf(first, last)))
  {
    LookupReshaped(t, i, fromYear);
    LookupReshaped(t, i, toYear);
  }

  /** The metric of a country the CSV does not hold, or for a from-year outside the
      range, is the lookup error for the from-year, never "n/a". */
  lemma MetricOfMissing(t: RawTable, country: string, fromYear: int, toYear: int)
    requires GetInvData(t).Success?
    requires (forall i | 0 <= i < |t.rows| :: t.rows[i].code != country) || fromYear < MinYear || MaxYear < fromYear
    ensures !DividesByZero(GetInvData(t).value, country, fromYear, toYear)
    ensures CountryMetric(GetInvData(t).value, country, fromYear, toYear) == Failure(NoRecord(country, fromYear))
  {
    LookupReshapedMissing(t, country, fromYear);
  }
}
