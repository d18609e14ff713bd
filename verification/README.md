# Investment dashboard: the data pipeline, in Dafny

This project models the data pipeline of a small Streamlit investment dashboard
(`streamlit_app.py`) and proves properties of it. Streamlit only draws the page.
The pipeline is the logic underneath:

- **Reshape** (`get_inv_data`). The wide CSV has one row per country and one column
  per year. The year columns `"2010"`..`"2022"` are melted into a long table
  `inv_df` with one record per (row, year column). Each record is
  `(Country Code, Year, INV)`. The Year strings are then converted to integers.
- **Chart filter.** The chart keeps the records whose Country Code is one of the
  selected countries and whose Year lies in the slider's range, both ends included.
- **Growth metric.** The table is sliced at exactly `from_year` and exactly
  `to_year`. For each selected country, the value of its first record in each slice
  is divided by 10^9. The growth is the sentinel `"n/a"` when the first value is
  missing (NaN). Otherwise it is `last / first`. A country with no record in a
  slice makes `.iat[0]` raise. The model keeps that error separate from `"n/a"`.

Modules, one per stage:

| file | module | what it holds |
|---|---|---|
| `wrappers.dfy` | `Wrappers` | `Option` (a missing / NaN cell is `None`) and `Result` (a value or a raised error) |
| `decimal.dfy` | `Decimal` | `str(n)` for year columns, and `pd.to_numeric` on one digit string |
| `reshape.dfy` | `Reshape` | the raw table, `melt`, `to_numeric` on the Year column, `get_inv_data`, and a row-by-row reference table |
| `filter.dfy` | `Filter` | boolean-mask selection `df[mask]`, the chart filter, the year slices |
| `growth.dfy` | `Growth` | the `.iat[0]` lookup, scaling to billions, the `"n/a"` sentinel, the per-country metric and the loop over the selection |
| `pipeline.dfy` | `Pipeline` | end-to-end facts about the reshaped table feeding the filter and the metric |

Design choices:

- `inv_df` is the single table that feeds both the chart filter and the two year
  slices. The script names other tables at those places (`gdp_df`, `filtered_inv_df`).
  Those names are never defined, so the model does not guess at them.
- `melt` is modelled in the order pandas emits: one block per year column, rows in
  table order within each block (the order of `ravel("F")` on the value columns).
  `Reshape.GetInvDataValue` and `Reshape.MeltThenConvert` state that order exactly,
  as the reference table `Reshape.ColumnMajor`. `Reshape.GetInvDataSpec` and
  `Reshape.ColumnMajorIsRowMajor` also state the order-free facts: length,
  membership, and multiset equality with a row-by-row table (`Reshape.RowMajor`).
- `melt` is modelled as pandas 2.2 and later define it. It first raises a
  ValueError when its `value_name`, `INV`, is already a header
  (`ValueNameTaken`). Then it raises one KeyError listing every id or value column
  that is not a header, in the order they were passed: `Country Code` first, then
  the absent year columns (`MissingColumns`).
- The growth sentinel guards only NaN (streamlit_app.py:137). The model follows
  that: `"n/a"` happens exactly when the first value is missing. A zero first
  value is excluded by a precondition, because the division is not defined there.
- A missing record makes `.iat[0]` raise (streamlit_app.py:134-135). The model
  returns `Failure(NoRecord(country, year))`, which is distinct from `"n/a"`.

## Model

| member | source | states |
|---|---|---|
| `Decimal.DecimalString` | streamlit_app.py:50 | `str(x)` of a year is a non-empty digit string with no leading zero |
| `Decimal.ParseDecimal` | streamlit_app.py:56 | the Year conversion accepts exactly the non-empty digit strings |
| `Decimal.ParseDecimalString` | streamlit_app.py:50-56 | converting a column name made by `str(year)` gives back that year (round trip) |
| `Decimal.DecimalStringInjective` | streamlit_app.py:50 | distinct years give distinct column names |
| `Reshape.YearColumnsMembers` | streamlit_app.py:50 | a header is melted iff it is the numeral of a year in 2010..2022 |
| `Reshape.YearColumnsAreTheYears` | streamlit_app.py:28-50 | there are 13 year columns; the k-th converts to 2010 + k, so they are increasing and pairwise distinct |
| `Reshape.Melt` | streamlit_app.py:48-53 | melting emits rows × columns records |
| `Reshape.MeltMembers` | streamlit_app.py:48-53 | melting emits a record iff it is some row's code with that row's cell under some value column; other columns such as Country Name are dropped |
| `Reshape.ToNumericFrom` | streamlit_app.py:56 | converting the Year column succeeds exactly when every Year is a digit string, keeps each record's code and value with its Year turned into that number, and otherwise reports the first non-numeric Year with its position |
| `Reshape.MissingFrom` | streamlit_app.py:48-53 | the columns `melt` reports as absent are exactly the value columns that are not headers |
| `Reshape.RowMajorMembers` | streamlit_app.py:48-53 | the row-by-row reference holds a record iff it comes from some (row, year) pair |
| `Reshape.MeltThenConvert` | streamlit_app.py:48-56 | converting the Years of the melted table never fails, and gives the long table with integer Years |
| `Reshape.ColumnMajorIsRowMajor` | streamlit_app.py:48-53 | melting column by column gives the same multiset of records as the row-by-row reference, so each (row, year) pair appears exactly once per row |
| `Reshape.ColumnMajorMembers` | streamlit_app.py:48-53 | the melted-and-converted table holds a record iff it comes from some (row, year) pair |
| `Reshape.ConsecutiveYearsMembers` | streamlit_app.py:28-53 | over consecutive years lo..hi, the long table holds a record iff it is a row's record at a year in lo..hi |
| `Reshape.NothingMissing` | streamlit_app.py:48-53 | no value column is missing iff the numeral of every year 2010..2022 is a header |
| `Reshape.MissingFromAppend` | streamlit_app.py:48-53 | the absent labels of `id_vars + value_vars`, looked up together as `melt` does, are the absent id columns followed by the absent value columns |
| `Reshape.GetInvDataValue` | streamlit_app.py:48-58 | `get_inv_data` succeeds iff `INV` is not a header while `Country Code` and the numeral of every year 2010..2022 are; an `INV` header is reported first; otherwise the error lists exactly the absent labels, `Country Code` first; on success it returns the melted, converted table in column-major order |
| `Reshape.GetInvDataMembers` | streamlit_app.py:48-58 | a record is in `inv_df` iff it is some row's code and cell at some year in 2010..2022 |
| `Reshape.GetInvDataSpec` | streamlit_app.py:28-58 | `get_inv_data` succeeds iff `INV` is not a header while `Country Code` and every year numeral are, with the same errors as `Reshape.GetInvDataValue`; then `inv_df` has rows × 13 records, every Year is an integer in 2010..2022, and its multiset of records equals the row-by-row reference |
| `Filter.Select` | streamlit_app.py:100-104 | `df[mask]` keeps each record satisfying the mask as often as it occurs, drops the rest, and keeps table order |
| `Filter.RangeFilter` | streamlit_app.py:100-104 | a record is charted iff it is in the table, its code is selected, and from_year <= Year <= to_year; multiplicities and order are kept; an empty selection charts nothing |
| `Filter.YearSlice` | streamlit_app.py:121-122 | a slice holds exactly the records whose Year equals the given year, in table order |
| `Filter.SelectSelect` | streamlit_app.py:100-122 | selecting with one mask and then another is selecting with both |
| `Filter.RangeFilterIdempotent` | streamlit_app.py:100-104 | filtering the filtered table again with the same settings changes nothing |
| `Filter.RangeFilterOneYear` | streamlit_app.py:100-122 | the chart filter over a one-year range is that year's slice restricted to the selected countries |
| `Growth.Scale` | streamlit_app.py:134-135 | dividing by 10^9 keeps a missing value missing, a present one present, and zero exactly at zero |
| `Growth.GrowthOf` | streamlit_app.py:137-141 | growth is "n/a" iff the first value is missing; otherwise it is the multiple m with m × first = last, and NaN iff the last value is missing |
| `Growth.GrowthIgnoresScale` | streamlit_app.py:134-141 | scaling both values to billions does not change the growth |
| `Growth.Lookup` | streamlit_app.py:134-135 | `.iat[0]` fails iff the slice has no record of the country; otherwise it returns the value of the country's first record |
| `Growth.SliceLookup` | streamlit_app.py:121-135 | looking a country up in a year's slice fails iff the table has no record of that country and year; otherwise it finds the value of the first such record |
| `Growth.MetricIn` | streamlit_app.py:134-142 | a successful metric for one country, given the two slices, is labelled with the country it was asked for |
| `Growth.CountryMetricSpec` | streamlit_app.py:121-142 | the metric fails iff a slice lacks the country, naming the from-year first; otherwise it is labelled with that country, shows the scaled first records at both years, has a non-zero first value, and its growth is `GrowthOf(first, last)`, so "n/a" iff the first is missing |
| `Wrappers.Sequence` | streamlit_app.py:130-142 | running fallible steps in order succeeds iff every step does, collecting their values in order; otherwise it returns the error of the first failing step |
| `Growth.MetricsIn` | streamlit_app.py:130-142 | given the two slices, the loop yields one metric per selected country |
| `Growth.MetricsInSpec` | streamlit_app.py:130-142 | given the two slices, the loop succeeds iff every selected country's metric does, yielding them in selection order; otherwise it returns the first failing country's error |
| `Growth.Metrics` | streamlit_app.py:121-142 | slicing once and running the loop yields one metric per selected country |
| `Growth.MetricsSpec` | streamlit_app.py:130-142 | the loop succeeds iff every selected country's metric does, and then yields them in selection order; otherwise it stops with the error of the first failing country |
| `Pipeline.ChartMembers` | streamlit_app.py:100-104 | over `inv_df`, a record is charted iff it is a selected row's record at a year in both 2010..2022 and the slider range |
| `Pipeline.LookupReshaped` | streamlit_app.py:121-135 | with unique codes, a country's lookup at a year in range returns its row's cell for that year |
| `Pipeline.LookupReshapedMissing` | streamlit_app.py:121-135 | a code no row carries, or a year outside 2010..2022, makes the lookup fail, not default |
| `Pipeline.MetricOfReshaped` | streamlit_app.py:121-142 | with unique codes, a country's metric is its row's two cells in billions and their growth ("n/a" iff the from-year cell is empty) |
| `Pipeline.MetricOfMissing` | streamlit_app.py:121-142 | a country absent from the CSV, or a from-year outside 2010..2022, gives the lookup error for the from-year, never "n/a" |

## Left out

- All Streamlit calls: page config, slider, multiselect, warning, header, line chart, columns, metric, and the bare-string markdown. They are rendering in a framework outside this model.
- Reading the CSV (`pd.read_csv`) and `@st.cache_data` memoisation are file I/O and process caching. The model starts from the loaded table `RawTable`.
- The loader's cell parsing is left out. A cell is `Option<real>`, and an empty or non-numeric cell is `None`. In pandas, a non-numeric text cell would make the column hold text, and the later division would raise.
- pandas versions before 2.2 are left out. Versions 2.0 and 2.1 raise a separate KeyError for the id column before checking the year columns. Versions 1.x only warn when `INV` is already a header.
- IEEE floating point is left out: NaN propagation, infinities, rounding, and the `{:,.2f}x` / `{:,.0f}B` formatting. Values are reals; a NaN growth is `Multiple(None)`.
- Growth.GrowthOf: requires a non-zero first value. numpy would return an infinite or NaN multiple for a zero first value; the model does not represent infinities.
- Growth.MetricIn: requires `!DividesByZeroIn`, which excludes exactly the case where both lookups succeed and the first value is zero. The reason is the same as for GrowthOf. `Growth.CountryMetric` has the same requirement, stated on the whole table.
- Growth.MetricsIn: requires the same condition for every selected country, for the same reason. So does `Growth.Metrics`.
- Decimal.ParseDecimal: accepts only digit strings. `pd.to_numeric` also accepts signs, decimals, exponents and surrounding spaces. Only headers built by `str(year)` reach it here.
- The undefined names `gdp_df` (lines 100, 121-122) and `filtered_inv_df` (line 111), and the column `'Investment'` (line 113), are defects. No alternative table is modelled.
- The slider bounds (`min`/`max` of Year), the empty-country warning (lines 76-88), and the column layout `cols[i % len(cols)]` are presentation glue.
- Duplicate Country Codes are allowed in the table. The lookup takes the first record, as `.iat[0]` does. The end-to-end metric lemmas assume unique codes, so that "the row's cell" is well defined.
