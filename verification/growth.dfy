/** The per-country growth metric (streamlit_app.py:121-142): look up the first
    record of the country in the from-year and to-year slices, scale both values to
    billions, and report "n/a" when the first value is missing, otherwise the
    multiple last / first. */
module Growth {
  import opened Wrappers
  import opened Reshape
  import opened Filter

  /** The display unit: values are reported in billions. */
  const Billion: real := 1000000000.0

  /** The `delta` shown under a metric: the sentinel "n/a", or a multiple. A
      multiple of None is the NaN the division yields when the last value is
      missing. */
  datatype Delta = NotAvailable | Multiple(ratio: Option<real>)

  /** What one `st.metric` call displays for a country: its first and last values in
      billions and the growth between them. */
  datatype Metric = Metric(country: string, first: Option<real>, last: Option<real>, growth: Delta)

  /** `.iat[0]` on an empty selection: the country has no record in that year's slice. */
  datatype MetricError = NoRecord(country: string, year: int)

  /** `value / 1000000000`. Scaling by a positive constant neither creates nor hides
      a missing value, and keeps zero exactly at zero. */
  function Scale(v: Option<real>): (r: Option<real>)
    ensures r.None? <==> v.None?
    ensures r.Some? ==> r.value * Billion == v.value
    ensures r.Some? ==> (r.value == 0.0 <==> v.value == 0.0)
  {
    match v
    case None => None
    case Some(x) => Some(x / Billion)
  }

  /** The growth shown for a first and last value. Only a missing first value is
      guarded; a zero first value is excluded by the precondition (the division
      would not be defined). */
  function GrowthOf(first: Option<real>, last: Option<real>): (g: Delta)
    requires first != Some(0.0)
    ensures g.NotAvailable? <==> first.None?
    ensures g.Multiple? ==> (g.ratio.None? <==> last.None?)
    ensures g.Multiple? && g.ratio.Some? ==> g.ratio.value * first.value == last.value
  {
    match first
    case None => NotAvailable
    case Some(f) =>
      match last
      case None => Multiple(None)
      case Some(l) => Multiple(Some(l / f))
  }

  /** Scaling both values by the display unit does not change the growth. */
  lemma GrowthIgnoresScale(first: Option<real>, last: Option<real>)
    requires first != Some(0.0)
    ensures Scale(first) != Some(0.0)
    ensures GrowthOf(Scale(first), Scale(last)) == GrowthOf(first, last)
  {
    if first.Some? && last.Some? {
      var f, l := first.value, last.value;
      var r := (l / Billion) / (f / Billion);
      assert r * (f / Billion) == l / Billion;
      assert r * f == l by {
        assert r * f == (r * (f / Billion)) * Billion;
      }
      assert r == l / f;
    }
  }

  /** `slice[slice['Country Code'] == country]['INV'].iat[0]`: the value of the first
      record of `country` in `slice`, or NoRecord when there is none. */
  function Lookup(slice: seq<Obs>, country: string, year: int): (r: Result<Option<real>, MetricError>)
    ensures r.Failure? <==> forall k | 0 <= k < |slice| :: slice[k].code != country
    ensures r.Failure? ==> r.error == NoRecord(country, year)
    ensures r.Success? ==> exists k | 0 <= k < |slice| ::
      && slice[k].code == country
      && r.value == slice[k].inv
      && forall j | 0 <= j < k :: slice[j].code != country
  {
    if |slice| == 0 then Failure(NoRecord(country, year))
    else if slice[0].code == country then Success(slice[0].inv)
    else
      var rest := Lookup(slice[1..], country, year);
      assert forall k | 1 <= k < |slice| :: slice[k] == slice[1..][k - 1];
      if rest.Success? then
        ghost var k :| 0 <= k < |slice[1..]| && slice[1..][k].code == country && rest.value == slice[1..][k].inv
                       && forall j | 0 <= j < k :: slice[1..][j].code != country;
        assert slice[k + 1] == slice[1..][k];
        rest
      else rest
  }

  /** `k` is the position of the first record of `country` at `year` in `obs`. */
  ghost predicate IsFirstMatch(obs: seq<Obs>, k: int, country: string, year: int) {
    && 0 <= k < |obs|
    && Matches(obs, k, country, year)
    && forall j | 0 <= j < k :: !Matches(obs, j, country, year)
  }

  /** The record of `country` at `year` is at position `k` of `obs`. */
  predicate Matches(obs: seq<Obs>, k: int, country: string, year: int)
    requires 0 <= k < |obs|
  {
    obs[k].code == country && obs[k].year == year
  }

  lemma FirstMatchAfterHead(obs: seq<Obs>, k: int, country: string, year: int)
    requires |obs| > 0 && !Matches(obs, 0, country, year)
    requires IsFirstMatch(obs[1..], k, country, year)
    ensures IsFirstMatch(obs, k + 1, country, year)
  {
    forall j | 1 <= j < k + 1
      ensures !Matches(obs, j, country, year)
    {
      assert obs[j] == obs[1..][j - 1];
      assert !Matches(obs[1..], j - 1, country, year);
    }
  }

  lemma NoMatchAfterHead(obs: seq<Obs>, country: string, year: int)
    requires |obs| > 0
    ensures (forall k | 0 <= k < |obs| :: !Matches(obs, k, country, year)) <==>
      !Matches(obs, 0, country, year) && forall k | 0 <= k < |obs[1..]| :: !Matches(obs[1..], k, country, year)
  {
    if forall k | 0 <= k < |obs| :: !Matches(obs, k, country, year) {
      forall k | 0 <= k < |obs[1..]|
        ensures !Matches(obs[1..], k, country, year)
      {
        assert obs[1..][k] == obs[k + 1];
        assert !Matches(obs, k + 1, country, year);
      }
    }
    if !Matches(obs, 0, country, year) && forall k | 0 <= k < |obs[1..]| :: !Matches(obs[1..], k, country, year) {
      forall k | 1 <= k < |obs|
        ensures !Matches(obs, k, country, year)
      {
        assert obs[k] == obs[1..][k - 1];
        assert !Matches(obs[1..], k - 1, country, year);
      }
    }
  }

  /** Looking a country up in a year's slice finds the first record of that country
      and year in the whole table, and fails exactly when there is none. */
  lemma {:induction false} SliceLookup(obs: seq<Obs>, country: string, year: int)
    ensures Lookup(YearSlice(obs, year), country, year).Failure? <==>
      forall k | 0 <= k < |obs| :: !Matches(obs, k, country, year)
    ensures Lookup(YearSlice(obs, year), country, year).Success? ==>
      exists k :: IsFirstMatch(obs, k, country, year)
               && Lookup(YearSlice(obs, year), country, year).value == obs[k].inv
  {
    var keep := (o: Obs) => o.year == year;
    assert YearSlice(obs, year) == Select(obs, keep);
    if |obs| > 0 {
      SliceLookup(obs[1..], country, year);
      NoMatchAfterHead(obs, country, year);
      var rest := Select(obs[1..], keep);
      assert YearSlice(obs[1..], year) == rest;
      if Matches(obs, 0, country, year) {
        var s := [obs[0]] + rest;
        assert Select(obs, keep) == s;
        assert IsFirstMatch(obs, 0, country, year);
      } else {
        if keep(obs[0]) {
          var s := [obs[0]] + rest;
          assert Select(obs, keep) == s;
          assert s[1..] == rest;
          assert Lookup(s, country, year) == Lookup(rest, country, year);
        } else {
          assert Select(obs, keep) == rest;
        }
        if Lookup(rest, country, year).Success? {
          var k :| IsFirstMatch(obs[1..], k, country, year) && Lookup(rest, country, year).value == obs[1..][k].inv;
          FirstMatchAfterHead(obs, k, country, year);
        }
      }
    }
  }

  /** The one input on which the script would divide by zero: both lookups succeed
      and the first value is exactly zero. */
  predicate DividesByZeroIn(firstYear: seq<Obs>, lastYear: seq<Obs>, country: string, fromYear: int, toYear: int) {
    && Lookup(firstYear, country, fromYear) == Success(Some(0.0))
    && Lookup(lastYear, country, toYear).Success?
  }

  predicate DividesByZero(obs: seq<Obs>, country: string, fromYear: int, toYear: int) {
    DividesByZeroIn(YearSlice(obs, fromYear), YearSlice(obs, toYear), country, fromYear, toYear)
  }

  /** The body of the loop for one country (streamlit_app.py:134-142), given the
      two year slices. */
  function MetricIn(firstYear: seq<Obs>, lastYear: seq<Obs>, country: string, fromYear: int, toYear: int): (r: Result<Metric, MetricError>)
    requires !DividesByZeroIn(firstYear, lastYear, country, fromYear, toYear)
    ensures r.Success? ==> r.value.country == country
  {
    match Lookup(firstYear, country, fromYear)
    case Failure(e) => Failure(e)
    case Success(firstInv) =>
      match Lookup(lastYear, country, toYear)
      case Failure(e) => Failure(e)
      case Success(lastInv) =>
        var first := Scale(firstInv);
        var last := Scale(lastInv);
        Success(Metric(country, first, last, GrowthOf(first, last)))
  }

  /** The metric for one country, slicing the table at both years first
      (streamlit_app.py:121-122, 134-142). */
  function CountryMetric(obs: seq<Obs>, country: string, fromYear: int, toYear: int): (r: Result<Metric, MetricError>)
    requires !DividesByZero(obs, country, fromYear, toYear)
  {
    MetricIn(YearSlice(obs, fromYear), YearSlice(obs, toYear), country, fromYear, toYear)
  }

  /** The metric for one country fails, naming the from-year first, exactly when the
      country has no record in one of the two slices; otherwise it shows the scaled
      values of the country's first record at each year, and "n/a" exactly when the
      first of them is missing. */
  lemma CountryMetricSpec(obs: seq<Obs>, country: string, fromYear: int, toYear: int)
    requires !DividesByZero(obs, country, fromYear, toYear)
    ensures CountryMetric(obs, country, fromYear, toYear).Failure? <==>
      || (forall k | 0 <= k < |obs| :: !Matches(obs, k, country, fromYear))
      || (forall k | 0 <= k < |obs| :: !Matches(obs, k, country, toYear))
    ensures CountryMetric(obs, country, fromYear, toYear).Failure? ==>
      CountryMetric(obs, country, fromYear, toYear).error ==
        if forall k | 0 <= k < |obs| :: !Matches(obs, k, country, fromYear)
        then NoRecord(country, fromYear) else NoRecord(country, toYear)
    ensures CountryMetric(obs, country, fromYear, toYear).Success? ==>
      var m := CountryMetric(obs, country, fromYear, toYear).value;
      && (exists k :: IsFirstMatch(obs, k, country, fromYear) && m.first == Scale(obs[k].inv))
      && (exists k :: IsFirstMatch(obs, k, country, toYear) && m.last == Scale(obs[k].inv))
      && m.country == country
      && m.first != Some(0.0)
      && m.growth == GrowthOf(m.first, m.last)
      && (m.growth.NotAvailable? <==> m.first.None?)
  {
    SliceLookup(obs, country, fromYear);
    SliceLookup(obs, country, toYear);
  }

  /** The loop over the selected countries (streamlit_app.py:130-142), given the
      two year slices: the metrics of the selected countries in selection order,
      computed until one lookup raises. */
  function MetricsIn(firstYear: seq<Obs>, lastYear: seq<Obs>, selected: seq<string>, fromYear: int, toYear: int): (r: Result<seq<Metric>, MetricError>)
    requires forall c | c in selected :: !DividesByZeroIn(firstYear, lastYear, c, fromYear, toYear)
    ensures r.Success? ==> |r.value| == |selected|
  {
    Sequence(seq(|selected|, i requires 0 <= i < |selected| => MetricIn(firstYear, lastYear, selected[i], fromYear, toYear)))
  }

  /** Slice the table once at each year (streamlit_app.py:121-122), then run the
      loop. */
  function Metrics(obs: seq<Obs>, selected: seq<string>, fromYear: int, toYear: int): (r: Result<seq<Metric>, MetricError>)
    requires forall c | c in selected :: !DividesByZero(obs, c, fromYear, toYear)
    ensures r.Success? ==> |r.value| == |selected|
  {
    var firstYear := YearSlice(obs, fromYear);
    var lastYear := YearSlice(obs, toYear);
    assert forall c | c in selected :: !DividesByZeroIn(firstYear, lastYear, c, fromYear, toYear) by {
      forall c | c in selected
        ensures !DividesByZeroIn(firstYear, lastYear, c, fromYear, toYear)
      {
        assert !DividesByZero(obs, c, fromYear, toYear);
      }
    }
    MetricsIn(firstYear, lastYear, selected, fromYear, toYear)
  }

  /** Given the slices, the loop shows every selected country's metric, in order,
      iff each of them succeeds; otherwise it stops at the first country that fails
      and reports that country's error. */
  lemma MetricsInSpec(firstYear: seq<Obs>, lastYear: seq<Obs>, selected: seq<string>, fromYear: int, toYear: int)
    requires forall c | c in selected :: !DividesByZeroIn(firstYear, lastYear, c, fromYear, toYear)
    ensures MetricsIn(firstYear, lastYear, selected, fromYear, toYear).Success? <==>
      forall i | 0 <= i < |selected| :: MetricIn(firstYear, lastYear, selected[i], fromYear, toYear).Success?
    ensures MetricsIn(firstYear, lastYear, selected, fromYear, toYear).Success? ==> forall i | 0 <= i < |selected| ::
      MetricsIn(firstYear, lastYear, selected, fromYear, toYear).value[i] == MetricIn(firstYear, lastYear, selected[i], fromYear, toYear).value
    ensures MetricsIn(firstYear, lastYear, selected, fromYear, toYear).Failure? ==> exists i | 0 <= i < |selected| ::
      && MetricIn(firstYear, lastYear, selected[i], fromYear, toYear) == Failure(MetricsIn(firstYear, lastYear, selected, fromYear, toYear).error)
      && forall j | 0 <= j < i :: MetricIn(firstYear, lastYear, selected[j], fromYear, toYear).Success?
  {
    var rs := seq(|selected|, i requires 0 <= i < |selected| => MetricIn(firstYear, lastYear, selected[i], fromYear, toYear));
    var r := MetricsIn(firstYear, lastYear, selected, fromYear, toYear);
    assert r == Sequence(rs);
    assert forall i | 0 <= i < |selected| :: rs[i] == MetricIn(firstYear, lastYear, selected[i], fromYear, toYear);
    if r.Failure? {
      var i :| 0 <= i < |rs| && rs[i] == Failure(r.error) && forall j | 0 <= j < i :: rs[j].Success?;
      assert MetricIn(firstYear, lastYear, selected[i], fromYear, toYear) == Failure(r.error);
    }
  }

  /** The loop shows every selected country's metric, in order, iff each of them has
      a record in both slices; otherwise it stops at the first country that has none
      and reports that country's error. */
  lemma MetricsSpec(obs: seq<Obs>, selected: seq<string>, fromYear: int, toYear: int)
    requires forall c | c in selected :: !DividesByZero(obs, c, fromYear, toYear)
    ensures Metrics(obs, selected, fromYear, toYear).Success? <==>
      forall i | 0 <= i < |selected| :: CountryMetric(obs, selected[i], fromYear, toYear).Success?
    ensures Metrics(obs, selected, fromYear, toYear).Success? ==> forall i | 0 <= i < |selected| ::
      Metrics(obs, selected, fromYear, toYear).value[i] == CountryMetric(obs, selected[i], fromYear, toYear).value
    ensures Metrics(obs, selected, fromYear, toYear).Failure? ==> exists i | 0 <= i < |selected| ::
      && CountryMetric(obs, selected[i], fromYear, toYear) == Failure(Metrics(obs, selected, fromYear, toYear).error)
      && forall j | 0 <= j < i :: CountryMetric(obs, selected[j], fromYear, toYear).Success?
  {
    var firstYear := YearSlice(obs, fromYear);
    var lastYear := YearSlice(obs, toYear);
    forall c | c in selected
      ensures !DividesByZeroIn(firstYear, lastYear, c, fromYear, toYear)
    {
      assert !DividesByZero(obs, c, fromYear, toYear);
    }
    MetricsInSpec(firstYear, lastYear, selected, fromYear, toYear);
    assert Metrics(obs, selected, fromYear, toYear) == MetricsIn(firstYear, lastYear, selected, fromYear, toYear);
    forall i | 0 <= i < |selected|
      ensures CountryMetric(obs, selected[i], fromYear, toYear) == MetricIn(firstYear, lastYear, selected[i], fromYear, toYear)
    {
    }
  }
}
