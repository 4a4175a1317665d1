/** Ranking of the subject's series by their values inside the year window
    (`orderSubjectDataByValue`). */
module Ranking {
  import opened Wrappers
  import opened Weo
  import opened Extraction

  /** The kinds of refresh the chart performs. */
  datatype RefreshType = YEAR | SUBJECT | COUNTRY | REGION | ALL | TOP | BOTTOM

  /** The y values of the points whose year lies in [from, to], in order. */
  function WindowYs(values: seq<Point>, from: int, to: int): seq<real>
  {
    if values == [] then []
    else
      var p := values[|values| - 1];
      WindowYs(values[..|values| - 1], from, to) + (if from <= p.year <= to then [p.y] else [])
  }

  /** A value is in the window exactly when some point in the window has it. */
  lemma {:induction false} WindowYsSpec(values: seq<Point>, from: int, to: int)
    ensures forall y :: y in WindowYs(values, from, to) <==>
      exists k :: 0 <= k < |values| && from <= values[k].year <= to && values[k].y == y
  {
    if values != [] {
      var init := values[..|values| - 1];
      WindowYsSpec(init, from, to);
      forall y
        ensures y in WindowYs(values, from, to) <==>
          exists k :: 0 <= k < |values| && from <= values[k].year <= to && values[k].y == y
      {
        if y in WindowYs(init, from, to) {
          var k :| 0 <= k < |init| && from <= init[k].year <= to && init[k].y == y;
          assert values[k] == init[k];
        }
        if exists k :: 0 <= k < |values| && from <= values[k].year <= to && values[k].y == y {
          var k :| 0 <= k < |values| && from <= values[k].year <= to && values[k].y == y;
          if k < |init| {
            assert init[k] == values[k];
          }
        }
      }
    }
  }

  /** `d3.min`: undefined for no values. */
  function Min(ys: seq<real>): (r: Option<real>)
    ensures r.None? <==> ys == []
    ensures r.Some? ==> r.value in ys && forall y :: y in ys ==> r.value <= y
  {
    if ys == [] then None
    else
      var init, last := ys[..|ys| - 1], ys[|ys| - 1];
      assert ys == init + [last];
      match Min(init)
      case None => Some(last)
      case Some(m) => Some(if last < m then last else m)
  }

  /** `d3.max`: undefined for no values. */
  function Max(ys: seq<real>): (r: Option<real>)
    ensures r.None? <==> ys == []
    ensures r.Some? ==> r.value in ys && forall y :: y in ys ==> y <= r.value
  {
    if ys == [] then None
    else
      var init, last := ys[..|ys| - 1], ys[|ys| - 1];
      assert ys == init + [last];
      match Max(init)
      case None => Some(last)
      case Some(m) => Some(if last > m then last else m)
  }

  /** A series with `minY`/`maxY` set from the points in the window. */
  function WithExtremes(d: Series, from: int, to: int): Series
  {
    var ys := WindowYs(d.values, from, to);
    d.(minY := Min(ys), maxY := Max(ys))
  }

  function AllWithExtremes(s: seq<Series>, from: int, to: int): (r: seq<Series>)
    ensures |r| == |s|
  {
    seq(|s|, i requires 0 <= i < |s| => WithExtremes(s[i], from, to))
  }

  /** `minY` and `maxY` are the least and greatest y of the points in the
      window, and undefined exactly when no point is in the window. */
  lemma WindowExtremesSpec(d: Series, from: int, to: int)
    ensures var e := WithExtremes(d, from, to);
      && (e.minY.None? <==> forall k :: 0 <= k < |d.values| ==> !(from <= d.values[k].year <= to))
      && e.minY.None? == e.maxY.None?
      && (e.minY.Some? ==>
            (exists k :: 0 <= k < |d.values| && from <= d.values[k].year <= to && d.values[k].y == e.minY.value) &&
            (exists k :: 0 <= k < |d.values| && from <= d.values[k].year <= to && d.values[k].y == e.maxY.value) &&
            (forall k :: 0 <= k < |d.values| && from <= d.values[k].year <= to ==>
               e.minY.value <= d.values[k].y <= e.maxY.value))
  {
    var ys := WindowYs(d.values, from, to);
    WindowYsSpec(d.values, from, to);
    if ys == [] {
      forall k | 0 <= k < |d.values|
        ensures !(from <= d.values[k].year <= to)
      {
        assert d.values[k].y !in ys;
      }
    } else {
      assert ys[0] in ys;
      forall k | 0 <= k < |d.values| && from <= d.values[k].year <= to
        ensures Min(ys).value <= d.values[k].y <= Max(ys).value
      {
        assert d.values[k].y in ys;
      }
    }
  }

  /** The collecting loop of orderSubjectDataByValue. */
  method YValuesInWindow(values: seq<Point>, from: int, to: int) returns (yValues: seq<real>)
    ensures yValues == WindowYs(values, from, to)
  {
    yValues := [];
    var k := 0;
    while k < |values|
      invariant 0 <= k <= |values|
      invariant yValues == WindowYs(values[..k], from, to)
    {
      assert values[..k + 1][..k] == values[..k];
      if from <= values[k].year && values[k].year <= to {
        yValues := yValues + [values[k].y];
      }
      k := k + 1;
    }
    assert values[..k] == values;
  }

  // ---------------------------------------------------------------------
  // Ordering
  // ---------------------------------------------------------------------

  /** TOP ranks by `maxY`, descending; BOTTOM by `minY`, ascending. */
  datatype Direction = Top | Bottom

  function Key(dir: Direction, d: Series): Option<real>
  {
    if dir == Top then d.maxY else d.minY
  }

  /** `x` may come before `y`. Between defined keys this is the chart's
      comparator returning -1 or 0; undefined keys, which that comparator
      cannot order, are placed last. */
  predicate Before(dir: Direction, x: Series, y: Series)
  {
    var u, v := Key(dir, x), Key(dir, y);
    if u.None? then v.None?
    else if v.None? then true
    else if dir == Top then u.value >= v.value
    else u.value <= v.value
  }

  ghost predicate SortedBy(s: seq<Series>, dir: Direction)
  {
    forall i, j :: 0 <= i < j < |s| ==> Before(dir, s[i], s[j])
  }

  /** The comparator as written in orderSubjectDataByValue. `>` and `<`
      with an undefined operand are false, so a series without a point in
      the window compares equal to every other series. */
  function SourceCompare(dir: Direction, a: Series, b: Series): (r: int)
    ensures r == 0 ==> Key(dir, a).None? || Key(dir, b).None? || Key(dir, a).value == Key(dir, b).value
    ensures Key(dir, a).None? ==> r == 0
  {
    var u, v := Key(dir, a), Key(dir, b);
    var less := u.Some? && v.Some? && u.value < v.value;
    var greater := u.Some? && v.Some? && u.value > v.value;
    if dir == Top then (if greater then -1 else if less then 1 else 0)
    else (if less then -1 else if greater then 1 else 0)
  }

  /** An order the comparator as written accepts: no pair is out of order. */
  ghost predicate SourceSortedBy(s: seq<Series>, dir: Direction)
  {
    forall i, j :: 0 <= i < j < |s| ==> SourceCompare(dir, s[i], s[j]) <= 0
  }

  /** Where every series has a point in the window, the ranking order is
      exactly the order the comparator as written accepts. */
  lemma SortedAgreesWithSourceWhenAllDefined(s: seq<Series>, dir: Direction)
    requires forall k :: 0 <= k < |s| ==> Key(dir, s[k]).Some?
    ensures SortedBy(s, dir) <==> SourceSortedBy(s, dir)
  {
  }

  lemma BeforeTotal(dir: Direction, x: Series, y: Series)
    ensures Before(dir, x, y) || Before(dir, y, x)
  {
  }

  lemma BeforeTransitive(dir: Direction, x: Series, y: Series, z: Series)
    requires Before(dir, x, y) && Before(dir, y, z)
    ensures Before(dir, x, z)
  {
  }

  method Swap(a: array<Series>, i: nat, j: nat)
    requires i < j < a.Length
    modifies a
    ensures a[i] == old(a[j]) && a[j] == old(a[i])
    ensures forall k :: 0 <= k < a.Length && k != i && k != j ==> a[k] == old(a[k])
    ensures multiset(a[..]) == multiset(old(a[..]))
  {
    a[i], a[j] := a[j], a[i];
  }

  /** Moves `a[i]` left by adjacent swaps until it follows an element that
      may precede it; `a[..i]` is sorted before and `a[..i + 1]` after. */
  method Insert(a: array<Series>, i: nat, dir: Direction)
    requires i < a.Length
    requires SortedBy(a[..i], dir)
    modifies a
    ensures SortedBy(a[..i + 1], dir)
    ensures multiset(a[..]) == multiset(old(a[..]))
  {
    var j := i;
    while j > 0 && !Before(dir, a[j - 1], a[j])
      invariant 0 <= j <= i
      invariant forall p, q :: 0 <= p < q <= i && p != j && q != j ==> Before(dir, a[p], a[q])
      invariant forall q :: j < q <= i ==> Before(dir, a[j], a[q])
      invariant multiset(a[..]) == multiset(old(a[..]))
    {
      BeforeTotal(dir, a[j - 1], a[j]);
      Swap(a, j - 1, j);
      j := j - 1;
    }
    forall p, q | 0 <= p < q <= i
      ensures Before(dir, a[p], a[q])
    {
      if q == j && p < j - 1 {
        BeforeTransitive(dir, a[p], a[j - 1], a[j]);
      }
    }
  }

  /** Sorts in place: an insertion sort. */
  method SortInPlace(a: array<Series>, dir: Direction)
    modifies a
    ensures SortedBy(a[..], dir)
    ensures multiset(a[..]) == multiset(old(a[..]))
  {
    var i := 0;
    while i < a.Length
      invariant 0 <= i <= a.Length
      invariant SortedBy(a[..i], dir)
      invariant multiset(a[..]) == multiset(old(a[..]))
    {
      Insert(a, i, dir);
      i := i + 1;
    }
    assert a[..i] == a[..];
  }

  /** orderSubjectDataByValue: writes `minY`/`maxY` into every series, then
      for TOP or BOTTOM sorts the array in place and returns it (true);
      any other refresh type returns null (false) after the writes. */
  method OrderSubjectDataByValue(subjectData: array<Series>, fromYear: int, toYear: int, refreshType: RefreshType)
    returns (ordered: bool)
    modifies subjectData
    ensures ordered <==> refreshType == TOP || refreshType == BOTTOM
    ensures multiset(subjectData[..]) == multiset(AllWithExtremes(old(subjectData[..]), fromYear, toYear))
    ensures refreshType == TOP ==> SortedBy(subjectData[..], Top)
    ensures refreshType == BOTTOM ==> SortedBy(subjectData[..], Bottom)
    ensures !ordered ==> subjectData[..] == AllWithExtremes(old(subjectData[..]), fromYear, toYear)
  {
    var i := 0;
    while i < subjectData.Length
      invariant 0 <= i <= subjectData.Length
      invariant forall k :: 0 <= k < i ==> subjectData[k] == WithExtremes(old(subjectData[k]), fromYear, toYear)
      invariant forall k :: i <= k < subjectData.Length ==> subjectData[k] == old(subjectData[k])
    {
      var d := subjectData[i];
      var yValues := YValuesInWindow(d.values, fromYear, toYear);
      subjectData[i] := d.(minY := Min(yValues), maxY := Max(yValues));
      i := i + 1;
    }
    assert subjectData[..] == AllWithExtremes(old(subjectData[..]), fromYear, toYear);
    match refreshType {
      case TOP =>
        SortInPlace(subjectData, Top);
        ordered := true;
      case BOTTOM =>
        SortInPlace(subjectData, Bottom);
        ordered := true;
      case _ =>
        ordered := false;
    }
  }

  /** After a ranking, the first series has the greatest `maxY` (TOP) or the
      least `minY` (BOTTOM) among the series with a point in the window. */
  lemma FirstIsExtreme(s: seq<Series>, dir: Direction, k: nat)
    requires SortedBy(s, dir)
    requires k < |s| && Key(dir, s[k]).Some?
    ensures Key(dir, s[0]).Some?
    ensures dir == Top ==> s[k].maxY.value <= s[0].maxY.value
    ensures dir == Bottom ==> s[0].minY.value <= s[k].minY.value
  {
    if k > 0 {
      assert Before(dir, s[0], s[k]);
    }
  }

  function Plain(code: string, values: seq<Point>): Series
  {
    Series(Some(code), Some(code), Some("BCA"), None, values, None, None, None, None)
  }

  /** Current-account balances of Venezuela (1980: -100, 1990: -200) and the
      United States (1980: 50) ranked BOTTOM over 1980..1990: the only
      ranking the sort may produce puts Venezuela first, with minimum -200. */
  lemma BottomRankingScenario(ranked: seq<Series>)
    requires var ven, usa := Plain("VEN", [Point(1980, -100.0), Point(1990, -200.0)]), Plain("USA", [Point(1980, 50.0)]);
      multiset(ranked) == multiset(AllWithExtremes([ven, usa], 1980, 1990))
    requires SortedBy(ranked, Bottom)
    ensures |ranked| == 2
    ensures ranked[0].countryCode == Some("VEN") && ranked[0].minY == Some(-200.0) && ranked[0].maxY == Some(-100.0)
    ensures ranked[1].countryCode == Some("USA") && ranked[1].minY == Some(50.0) && ranked[1].maxY == Some(50.0)
  {
    var ven, usa := Plain("VEN", [Point(1980, -100.0), Point(1990, -200.0)]), Plain("USA", [Point(1980, 50.0)]);
    var v, u := WithExtremes(ven, 1980, 1990), WithExtremes(usa, 1980, 1990);
    assert [Point(1980, -100.0), Point(1990, -200.0)][..1] == [Point(1980, -100.0)];
    assert WindowYs(ven.values, 1980, 1990) == [-100.0, -200.0];
    assert WindowYs(usa.values, 1980, 1990) == [50.0];
    assert [-100.0, -200.0][..1] == [-100.0];
    assert v.minY == Some(-200.0) && v.maxY == Some(-100.0);
    assert u.minY == Some(50.0) && u.maxY == Some(50.0);
    assert AllWithExtremes([ven, usa], 1980, 1990) == [v, u];
    assert |multiset(ranked)| == 2;
    assert ranked[0] in multiset(ranked) && ranked[1] in multiset(ranked);
    assert Before(Bottom, ranked[0], ranked[1]);
    assert !Before(Bottom, u, v);
  }
}
