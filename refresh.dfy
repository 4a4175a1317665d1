/** The data side of `refresh`: the countries offered after a TOP, BOTTOM or
    REGION refresh, the assembly of the series to draw, and the fold over the
    visible points that feeds the y axis and places the legend. */
module Refresh {
  import opened Wrappers
  import opened Weo
  import opened Seqs
  import opened Extraction
  import opened Ranking

  // ---------------------------------------------------------------------
  // Countries to offer after a ranking or a region choice
  // ---------------------------------------------------------------------

  /** The country codes of the first `HighestOrLowestCountries` ranked
      series (all of them when there are fewer). */
  function TopCountryCodes(ranked: seq<Series>): (codes: seq<Option<string>>)
    ensures |codes| == if |ranked| < HighestOrLowestCountries then |ranked| else HighestOrLowestCountries
    ensures forall i :: 0 <= i < |codes| ==> codes[i] == ranked[i].countryCode
  {
    var n := if |ranked| < HighestOrLowestCountries then |ranked| else HighestOrLowestCountries;
    seq(n, i requires 0 <= i < n => ranked[i].countryCode)
  }

  /** On a ranked list, every offered country ranks at least as high as
      every country left out, and the list is as long as it can be. */
  lemma TopCodesAreMostExtreme(ranked: seq<Series>, dir: Direction)
    requires SortedBy(ranked, dir)
    ensures var n := |TopCountryCodes(ranked)|;
      && (n == HighestOrLowestCountries || n == |ranked|)
      && forall i, k :: 0 <= i < n <= k < |ranked| ==> Before(dir, ranked[i], ranked[k])
  {
  }

  /** As written, a series without a point in the window ties with every
      other series. AAA has data only in 2000 and BBB has 5.0 in 2012;
      ranked TOP over 2010..2015, the comparator accepts both orders, so a
      stable sort keeps AAA first and offers a country with no data ahead
      of one with data. The ranking order of the model rejects that order. */
  lemma NoDataCountryMayBeOfferedFirst()
    ensures var aaa := WithExtremes(Plain("AAA", [Point(2000, 1.0)]), 2010, 2015);
      var bbb := WithExtremes(Plain("BBB", [Point(2012, 5.0)]), 2010, 2015);
      && aaa.maxY.None? && bbb.maxY == Some(5.0)
      && SourceSortedBy([aaa, bbb], Top) && SourceSortedBy([bbb, aaa], Top)
      && TopCountryCodes([aaa, bbb])[0] == Some("AAA")
      && !SortedBy([aaa, bbb], Top)
  {
    var aaa := WithExtremes(Plain("AAA", [Point(2000, 1.0)]), 2010, 2015);
    var bbb := WithExtremes(Plain("BBB", [Point(2012, 5.0)]), 2010, 2015);
    assert WindowYs([Point(2000, 1.0)], 2010, 2015) == [];
    assert WindowYs([Point(2012, 5.0)], 2010, 2015) == [5.0];
    assert aaa.maxY.None?;
    assert bbb.maxY == Some(5.0);
    assert SourceCompare(Top, aaa, bbb) == 0 && SourceCompare(Top, bbb, aaa) == 0;
    assert SourceSortedBy([aaa, bbb], Top) by {
      forall i, j | 0 <= i < j < 2 ensures SourceCompare(Top, [aaa, bbb][i], [aaa, bbb][j]) <= 0 {
        assert i == 0 && j == 1;
      }
    }
    assert SourceSortedBy([bbb, aaa], Top) by {
      forall i, j | 0 <= i < j < 2 ensures SourceCompare(Top, [bbb, aaa][i], [bbb, aaa][j]) <= 0 {
        assert i == 0 && j == 1;
      }
    }
    assert !Before(Top, [aaa, bbb][0], [aaa, bbb][1]);
  }

  /** In the ranking order, a country without a point in the window is
      offered only when every country left out has none either. */
  lemma OfferedWithoutDataOnlyWhenNoneLeft(ranked: seq<Series>, dir: Direction)
    requires SortedBy(ranked, dir)
    ensures forall i, k :: 0 <= i < |TopCountryCodes(ranked)| <= k < |ranked| && Key(dir, ranked[i]).None? ==>
      Key(dir, ranked[k]).None?
  {
    forall i, k | 0 <= i < |TopCountryCodes(ranked)| <= k < |ranked| && Key(dir, ranked[i]).None?
      ensures Key(dir, ranked[k]).None?
    {
      assert Before(dir, ranked[i], ranked[k]);
    }
  }

  /** `region[regionSelection]`, checked by `checkRequiredValue` in
      `initCountrySelector`: an undefined selection or an unknown region
      is undefined and throws. */
  function RegionCountries(region: map<string, seq<string>>, regionSelection: Option<string>): (r: Result<seq<string>>)
    ensures r.Success? <==> regionSelection.Some? && regionSelection.value in region
    ensures r.Success? ==> r.value == region[regionSelection.value]
    ensures r.Failure? ==> r.error == RequiredValueMissing
  {
    if regionSelection.Some? && regionSelection.value in region then Success(region[regionSelection.value])
    else Failure(RequiredValueMissing)
  }

  // ---------------------------------------------------------------------
  // Assembly: one series per selected country that has one
  // ---------------------------------------------------------------------

  function SelectedCode(countrySelection: seq<Row>, i: nat): Option<string>
    requires i < |countrySelection|
  {
    Get(countrySelection[i], CountryCodeColumn)
  }

  /** Selected country `i` has a series for the subject. */
  function HasSeries(subjectData: seq<Series>, countrySelection: seq<Row>): nat -> bool
  {
    (i: nat) => i < |countrySelection| && LastMatch(subjectData, SelectedCode(countrySelection, i)).Some?
  }

  /** The selected countries among the first `n` that have a series. */
  function Drawn(subjectData: seq<Series>, countrySelection: seq<Row>, n: nat): (idx: seq<nat>)
    requires n <= |countrySelection|
    ensures forall a :: 0 <= a < |idx| ==> idx[a] < n && HasSeries(subjectData, countrySelection)(idx[a])
  {
    IndicesWhereSpec(n, HasSeries(subjectData, countrySelection));
    IndicesWhere(n, HasSeries(subjectData, countrySelection))
  }

  function AssembledUpTo(subjectData: seq<Series>, countrySelection: seq<Row>, n: nat): seq<Series>
    requires n <= |countrySelection|
  {
    var idx := Drawn(subjectData, countrySelection, n);
    seq(|idx|, a requires 0 <= a < |idx| => LastMatch(subjectData, SelectedCode(countrySelection, idx[a])).value)
  }

  /** The series `refresh` draws, in the order of the country selection. */
  function Assembled(subjectData: seq<Series>, countrySelection: seq<Row>): seq<Series>
  {
    AssembledUpTo(subjectData, countrySelection, |countrySelection|)
  }

  lemma AssembledUpToStep(subjectData: seq<Series>, countrySelection: seq<Row>, n: nat)
    requires n < |countrySelection|
    ensures AssembledUpTo(subjectData, countrySelection, n + 1) ==
      AssembledUpTo(subjectData, countrySelection, n) +
      (match LastMatch(subjectData, SelectedCode(countrySelection, n))
       case None => []
       case Some(d) => [d])
  {
  }

  /** The `countrySelection.forEach` of `refresh`: looks every selected
      country up and keeps the non-null results. */
  method AssembleSeries(subjectData: seq<Series>, countrySelection: seq<Row>) returns (data: seq<Series>)
    ensures data == Assembled(subjectData, countrySelection)
  {
    data := [];
    var i := 0;
    while i < |countrySelection|
      invariant 0 <= i <= |countrySelection|
      invariant data == AssembledUpTo(subjectData, countrySelection, i)
    {
      AssembledUpToStep(subjectData, countrySelection, i);
      var seriesData := FilterSubjectDataByCountry(subjectData, countrySelection[i]);
      if seriesData.Some? {
        data := data + [seriesData.value];
      }
      i := i + 1;
    }
  }

  /** The drawn series are, in selection order, exactly the last series of
      each selected country that has one: countries without a series are
      skipped and no other series appears. */
  lemma AssembledSpec(subjectData: seq<Series>, countrySelection: seq<Row>)
    ensures var data, idx := Assembled(subjectData, countrySelection), Drawn(subjectData, countrySelection, |countrySelection|);
      && |data| == |idx|
      && StrictlyIncreasing(idx)
      && (forall a :: 0 <= a < |idx| ==>
            idx[a] < |countrySelection|
            && data[a].countryCode == SelectedCode(countrySelection, idx[a])
            && exists k: nat :: IsLastMatch(subjectData, SelectedCode(countrySelection, idx[a]), k) && data[a] == subjectData[k])
      && (forall i :: 0 <= i < |countrySelection| ==>
            (i in idx <==> exists k :: 0 <= k < |subjectData| && subjectData[k].countryCode == SelectedCode(countrySelection, i)))
  {
    var n := |countrySelection|;
    var p := HasSeries(subjectData, countrySelection);
    IndicesWhereSpec(n, p);
    var data, idx := Assembled(subjectData, countrySelection), Drawn(subjectData, countrySelection, n);
    forall a | 0 <= a < |idx|
      ensures exists k: nat :: IsLastMatch(subjectData, SelectedCode(countrySelection, idx[a]), k) && data[a] == subjectData[k]
    {
      var code := SelectedCode(countrySelection, idx[a]);
      var k: nat := LastMatchIndex(subjectData, code).value;
      assert IsLastMatch(subjectData, code, k) && data[a] == subjectData[k];
    }
  }

  // ---------------------------------------------------------------------
  // The visible-values fold
  // ---------------------------------------------------------------------

  /** The years of the points whose year lies in [from, to], in order. */
  function WindowYears(values: seq<Point>, from: int, to: int): seq<int>
  {
    if values == [] then []
    else
      var p := values[|values| - 1];
      WindowYears(values[..|values| - 1], from, to) + (if from <= p.year <= to then [p.year] else [])
  }

  /** `xVisibleValues`: the visible years of every series, series by series. */
  function VisibleYears(data: seq<Series>, from: int, to: int): seq<int>
  {
    if data == [] then []
    else VisibleYears(data[..|data| - 1], from, to) + WindowYears(data[|data| - 1].values, from, to)
  }

  /** `yVisibleValues` without its leading 0. */
  function VisibleYs(data: seq<Series>, from: int, to: int): seq<real>
  {
    if data == [] then []
    else VisibleYs(data[..|data| - 1], from, to) + WindowYs(data[|data| - 1].values, from, to)
  }

  /** The legend position a series ends with: the y of its last visible
      point, or the position it had when none of its points is visible. */
  function LegendY(values: seq<Point>, from: int, to: int, prior: Option<real>): Option<real>
  {
    if values == [] then prior
    else
      var p := values[|values| - 1];
      if from <= p.year <= to then Some(p.y) else LegendY(values[..|values| - 1], from, to, prior)
  }

  function WithLegend(d: Series, from: int, to: int): Series
  {
    d.(seriesLegendY := LegendY(d.values, from, to, d.seriesLegendY))
  }

  /** A series none of whose points is visible keeps its legend position. */
  lemma {:induction false} LegendKeepsPosition(values: seq<Point>, from: int, to: int, prior: Option<real>)
    requires forall k :: 0 <= k < |values| ==> !(from <= values[k].year <= to)
    ensures LegendY(values, from, to, prior) == prior
  {
    if values != [] {
      var init := values[..|values| - 1];
      assert forall k :: 0 <= k < |init| ==> init[k] == values[k];
      LegendKeepsPosition(init, from, to, prior);
    }
  }

  /** Otherwise the legend sits at the y of the last visible point. */
  lemma {:induction false} LegendAtLastVisible(values: seq<Point>, from: int, to: int, prior: Option<real>, k: nat)
    requires k < |values| && from <= values[k].year <= to
    requires forall j :: k < j < |values| ==> !(from <= values[j].year <= to)
    ensures LegendY(values, from, to, prior) == Some(values[k].y)
  {
    if k < |values| - 1 {
      var init := values[..|values| - 1];
      assert forall j :: 0 <= j < |init| ==> init[j] == values[j];
      LegendAtLastVisible(init, from, to, prior, k);
    }
  }

  lemma WindowStep(values: seq<Point>, from: int, to: int, prior: Option<real>, j: nat)
    requires j < |values|
    ensures WindowYs(values[..j + 1], from, to) ==
      WindowYs(values[..j], from, to) + (if from <= values[j].year <= to then [values[j].y] else [])
    ensures WindowYears(values[..j + 1], from, to) ==
      WindowYears(values[..j], from, to) + (if from <= values[j].year <= to then [values[j].year] else [])
    ensures LegendY(values[..j + 1], from, to, prior) ==
      if from <= values[j].year <= to then Some(values[j].y) else LegendY(values[..j], from, to, prior)
  {
    assert values[..j + 1][..j] == values[..j];
  }

  lemma VisibleStep(data: seq<Series>, from: int, to: int, i: nat)
    requires i < |data|
    ensures VisibleYs(data[..i + 1], from, to) == VisibleYs(data[..i], from, to) + WindowYs(data[i].values, from, to)
    ensures VisibleYears(data[..i + 1], from, to) == VisibleYears(data[..i], from, to) + WindowYears(data[i].values, from, to)
  {
    assert data[..i + 1][..i] == data[..i];
  }

  /** The inner `forEach` of the fold, over the points of one series. */
  method FoldSeries(values: seq<Point>, from: int, to: int, seriesLegendY: Option<real>)
    returns (xs: seq<int>, ys: seq<real>, legendY: Option<real>)
    ensures xs == WindowYears(values, from, to)
    ensures ys == WindowYs(values, from, to)
    ensures legendY == LegendY(values, from, to, seriesLegendY)
  {
    xs, ys, legendY := [], [], seriesLegendY;
    var j := 0;
    while j < |values|
      invariant 0 <= j <= |values|
      invariant xs == WindowYears(values[..j], from, to)
      invariant ys == WindowYs(values[..j], from, to)
      invariant legendY == LegendY(values[..j], from, to, seriesLegendY)
    {
      WindowStep(values, from, to, seriesLegendY, j);
      var d := values[j];
      if from <= d.year <= to {
        xs := xs + [d.year];
        ys := ys + [d.y];
        legendY := Some(d.y);
      }
      j := j + 1;
    }
    assert values[..j] == values;
  }

  /** One series of the fold: its visible years and values, and its legend
      moved to its last visible value. */
  method FoldSeriesAt(data: array<Series>, i: nat, from: int, to: int) returns (xs: seq<int>, ys: seq<real>)
    requires i < data.Length
    modifies data
    ensures xs == WindowYears(old(data[i]).values, from, to)
    ensures ys == WindowYs(old(data[i]).values, from, to)
    ensures data[i] == WithLegend(old(data[i]), from, to)
    ensures forall k :: 0 <= k < data.Length && k != i ==> data[k] == old(data[k])
  {
    var seriesData := data[i];
    var legendY;
    xs, ys, legendY := FoldSeries(seriesData.values, from, to, seriesData.seriesLegendY);
    data[i] := seriesData.(seriesLegendY := legendY);
  }

  /** The nested `forEach` of `refresh` over the drawn series: collects the
      visible years and values (after an initial 0) and moves each series'
      legend to its last visible value. */
  method FoldVisible(data: array<Series>, from: int, to: int) returns (xVisibleValues: seq<int>, yVisibleValues: seq<real>)
    modifies data
    ensures xVisibleValues == VisibleYears(old(data[..]), from, to)
    ensures yVisibleValues == [0.0] + VisibleYs(old(data[..]), from, to)
    ensures forall i :: 0 <= i < data.Length ==> data[i] == WithLegend(old(data[i]), from, to)
  {
    ghost var original := data[..];
    xVisibleValues := [];
    yVisibleValues := [0.0];
    var i := 0;
    while i < data.Length
      invariant 0 <= i <= data.Length
      invariant xVisibleValues == VisibleYears(original[..i], from, to)
      invariant yVisibleValues == [0.0] + VisibleYs(original[..i], from, to)
      invariant forall k :: 0 <= k < i ==> data[k] == WithLegend(original[k], from, to)
      invariant forall k :: i <= k < data.Length ==> data[k] == original[k]
    {
      VisibleStep(original, from, to, i);
      var xs, ys := FoldSeriesAt(data, i, from, to);
      xVisibleValues := xVisibleValues + xs;
      yVisibleValues := yVisibleValues + ys;
      i := i + 1;
    }
    assert original[..i] == original;
  }

  /** `d3.extent`: the least and the greatest value, undefined on no values. */
  function Extent(ys: seq<real>): (r: Option<(real, real)>)
    ensures r.None? <==> ys == []
    ensures r.Some? ==> r.value.0 in ys && r.value.1 in ys
    ensures r.Some? ==> forall y :: y in ys ==> r.value.0 <= y <= r.value.1
  {
    match (Min(ys), Max(ys))
    case (Some(lo), Some(hi)) => Some((lo, hi))
    case _ => None
  }

  /** The y axis always takes in 0 and every visible value, whatever the
      series and the window. */
  lemma {:induction false} YDomainContainsZero(data: seq<Series>, from: int, to: int)
    ensures var e := Extent([0.0] + VisibleYs(data, from, to));
      && e.Some?
      && e.value.0 <= 0.0 <= e.value.1
      && forall y :: y in VisibleYs(data, from, to) ==> e.value.0 <= y <= e.value.1
  {
    var ys := [0.0] + VisibleYs(data, from, to);
    assert 0.0 in ys;
    assert forall y :: y in VisibleYs(data, from, to) ==> y in ys;
  }
}
