/** Boolean-mask selection on the long table (`df[mask]` in pandas): the range and
    country filter that feeds the chart (streamlit_app.py:100-104) and the
    single-year slices that feed the growth metric (streamlit_app.py:121-122). */
module Filter {
  import opened Reshape

  /** `a` is `b` with some records left out, the rest in their original order. */
  ghost predicate IsSubsequence<T>(a: seq<T>, b: seq<T>)
    decreases |b|
  {
    || |a| == 0
    || (&& |b| > 0
        && ((a[0] == b[0] && IsSubsequence(a[1..], b[1..])) || IsSubsequence(a, b[1..])))
  }

  /** `df[mask]`: the records that satisfy `keep`, in table order. Each kept record
      appears exactly as often as in `obs`, each dropped one not at all. */
  function Select(obs: seq<Obs>, keep: Obs -> bool): (r: seq<Obs>)
    ensures forall o :: multiset(r)[o] == if keep(o) then multiset(obs)[o] else 0
    ensures IsSubsequence(r, obs)
  {
    if |obs| == 0 then []
    else
      var rest := Select(obs[1..], keep);
      assert obs == [obs[0]] + obs[1..];
      if keep(obs[0]) then
        assert ([obs[0]] + rest)[1..] == rest;
        [obs[0]] + rest
      else rest
  }

  /** The chart mask: the code is one of the selected countries and the Year lies
      in the slider's range, both ends included. */
  predicate InRange(o: Obs, selected: seq<string>, fromYear: int, toYear: int) {
    && o.code in selected
    && o.year <= toYear
    && fromYear <= o.year
  }

  /** `filtered_inv_df`: the long table restricted to the selected countries and
      years. */
  function RangeFilter(obs: seq<Obs>, selected: seq<string>, fromYear: int, toYear: int): (r: seq<Obs>)
    ensures forall o :: o in r <==> o in obs && InRange(o, selected, fromYear, toYear)
    ensures forall o | InRange(o, selected, fromYear, toYear) :: multiset(r)[o] == multiset(obs)[o]
    ensures IsSubsequence(r, obs)
    ensures |selected| == 0 ==> r == []
  {
    var r := Select(obs, o => InRange(o, selected, fromYear, toYear));
    assert forall o :: o in r <==> o in multiset(r);
    assert forall o :: o in obs <==> o in multiset(obs);
    assert |selected| == 0 ==> multiset(r) == multiset{};
    r
  }

  /** `first_year` / `last_year`: the records at exactly `year`. */
  function YearSlice(obs: seq<Obs>, year: int): (r: seq<Obs>)
    ensures forall o :: o in r <==> o in obs && o.year == year
    ensures forall o: Obs | o.year == year :: multiset(r)[o] == multiset(obs)[o]
    ensures IsSubsequence(r, obs)
  {
    var r := Select(obs, (o: Obs) => o.year == year);
    assert forall o :: o in r <==> o in multiset(r);
    assert forall o :: o in obs <==> o in multiset(obs);
    r
  }

  /** Selecting twice is selecting once with both masks. */
  lemma {:induction false} SelectSelect(obs: seq<Obs>, p: Obs -> bool, q: Obs -> bool)
    ensures Select(Select(obs, p), q) == Select(obs, o => p(o) && q(o))
  {
    if |obs| > 0 {
      SelectSelect(obs[1..], p, q);
      var rest := Select(obs[1..], p);
      if p(obs[0]) {
        assert Select(obs, p) == [obs[0]] + rest;
        assert ([obs[0]] + rest)[1..] == rest;
      }
    }
  }

  /** Two masks that agree on every record select the same records. */
  lemma {:induction false} SelectSameMask(obs: seq<Obs>, p: Obs -> bool, q: Obs -> bool)
    requires forall o :: p(o) == q(o)
    ensures Select(obs, p) == Select(obs, q)
  {
    if |obs| > 0 {
      SelectSameMask(obs[1..], p, q);
    }
  }

  /** Filtering an already filtered table with the same settings changes nothing. */
  lemma RangeFilterIdempotent(obs: seq<Obs>, selected: seq<string>, fromYear: int, toYear: int)
    ensures RangeFilter(RangeFilter(obs, selected, fromYear, toYear), selected, fromYear, toYear)
         == RangeFilter(obs, selected, fromYear, toYear)
  {
    var keep := o => InRange(o, selected, fromYear, toYear);
    SelectSelect(obs, keep, keep);
    SelectSameMask(obs, o => keep(o) && keep(o), keep);
  }

  /** A one-year range is that year's slice restricted to the selected countries. */
  lemma RangeFilterOneYear(obs: seq<Obs>, selected: seq<string>, year: int)
    ensures RangeFilter(obs, selected, year, year)
         == Select(YearSlice(obs, year), (o: Obs) => o.code in selected)
  {
    var p := (o: Obs) => o.year == year;
    var q := (o: Obs) => o.code in selected;
    SelectSelect(obs, p, q);
    SelectSameMask(obs, o => p(o) && q(o), o => InRange(o, selected, year, year));
  }
}
