/** Series extraction for one subject (`filterWeoDataBySubject`) and the
    lookup of one country's series (`filterSubjectDataByCountry`). */
module Extraction {
  import opened Wrappers
  import opened Weo
  import opened Seqs

  /** One year's value of a series. The chart turns the year into January 1
      of that year; the model keeps the year. */
  datatype Point = Point(year: int, y: real)

  /** A country's series for the selected subject. `minY`/`maxY` are written
      by the ranking, `seriesLegendY` by the visible-values fold and
      `seriesColor` by the colour allocator; all start undefined. */
  datatype Series = Series(
    countryCode: Option<string>,
    country: Option<string>,
    subjectCode: Option<string>,
    subject: Option<string>,
    values: seq<Point>,
    minY: Option<real>,
    maxY: Option<real>,
    seriesLegendY: Option<real>,
    seriesColor: Option<ColorSlot>)

  /** The message of the TypeError raised by `.replace` on a missing cell. */
  const MissingCell: string := "Cannot read property 'replace' of undefined"

  /** `s.replace(/,/g, '')`. */
  function StripCommas(s: string): (r: string)
    ensures ',' !in r
    ensures ',' !in s ==> r == s
    ensures |r| <= |s|
  {
    if s == [] then []
    else StripCommas(s[..|s| - 1]) + (if s[|s| - 1] == ',' then [] else [s[|s| - 1]])
  }

  /** Stripping keeps every character other than a comma, as often as it
      occurs. */
  lemma {:induction false} StripCommasKeepsOthers(s: string)
    ensures forall c :: c != ',' ==> multiset(StripCommas(s))[c] == multiset(s)[c]
  {
    if s != [] {
      var init, last := s[..|s| - 1], s[|s| - 1];
      assert s == init + [last];
      StripCommasKeepsOthers(init);
    }
  }

  /** Stripping works piecewise, so it keeps the other characters in their
      order: together with the single-character cases of its body this
      makes it exactly "s with its commas deleted". */
  lemma {:induction false} StripCommasAppend(a: string, b: string)
    ensures StripCommas(a + b) == StripCommas(a) + StripCommas(b)
    decreases |b|
  {
    if b == [] {
      assert a + b == a;
    } else {
      var init, last := b[..|b| - 1], b[|b| - 1];
      assert (a + b)[..|a + b| - 1] == a + init;
      assert (a + b)[|a + b| - 1] == last;
      StripCommasAppend(a, init);
    }
  }

  /** The value read from a year's cell: commas stripped, then parsed;
      None when `parseFloat` gives NaN. */
  function Cell(row: Row, year: int, parse: string -> Option<real>): Option<real>
    requires YearColumn(year) in row
  {
    parse(StripCommas(row[YearColumn(year)]))
  }

  /** The row has a cell for every year of the chart. */
  predicate RowComplete(row: Row)
  {
    CellsUpTo(row, |YearData()|)
  }

  /** The row has a cell for each of the first `n` years. */
  predicate CellsUpTo(row: Row, n: nat)
    requires n <= |YearData()|
  {
    forall j :: 0 <= j < n ==> YearColumn(YearData()[j]) in row
  }

  lemma CellsUpToStep(row: Row, n: nat)
    requires n < |YearData()|
    requires CellsUpTo(row, n) && YearColumn(YearData()[n]) in row
    ensures CellsUpTo(row, n + 1)
  {
  }

  function Parsed(row: Row, parse: string -> Option<real>): nat -> bool
  {
    (j: nat) => j < |YearData()| && YearColumn(YearData()[j]) in row && Cell(row, YearData()[j], parse).Some?
  }

  /** Positions in YearData, below `n`, of the cells that parse. */
  function ParsedYears(row: Row, parse: string -> Option<real>, n: nat): (idx: seq<nat>)
    requires n <= |YearData()|
    ensures forall a :: 0 <= a < |idx| ==> idx[a] < n && Parsed(row, parse)(idx[a])
  {
    IndicesWhereSpec(n, Parsed(row, parse));
    IndicesWhere(n, Parsed(row, parse))
  }

  /** The points read from the first `n` years of the row. */
  function PointsUpTo(row: Row, parse: string -> Option<real>, n: nat): seq<Point>
    requires n <= |YearData()|
  {
    var idx := ParsedYears(row, parse, n);
    seq(|idx|, a requires 0 <= a < |idx| =>
      Point(YearData()[idx[a]], Cell(row, YearData()[idx[a]], parse).value))
  }

  /** The points of a row: one per year whose cell parses. */
  function Points(row: Row, parse: string -> Option<real>): seq<Point>
  {
    PointsUpTo(row, parse, |YearData()|)
  }

  predicate MatchesSubject(row: Row, subjectCode: Option<string>)
  {
    Get(row, SubjectCodeColumn) == subjectCode
  }

  /** Row `i` yields a series: its subject matches, every cell can be read
      and at least one parses. */
  function Kept(rows: seq<Row>, subjectCode: Option<string>, parse: string -> Option<real>): nat -> bool
  {
    (i: nat) => i < |rows| && MatchesSubject(rows[i], subjectCode) && RowComplete(rows[i])
                && |Points(rows[i], parse)| > 0
  }

  function KeptRows(rows: seq<Row>, subjectCode: Option<string>, parse: string -> Option<real>, n: nat): (idx: seq<nat>)
    requires n <= |rows|
    ensures forall a :: 0 <= a < |idx| ==> idx[a] < n && Kept(rows, subjectCode, parse)(idx[a])
  {
    IndicesWhereSpec(n, Kept(rows, subjectCode, parse));
    IndicesWhere(n, Kept(rows, subjectCode, parse))
  }

  function SeriesOf(row: Row, subjectCode: Option<string>, subject: Option<string>, points: seq<Point>): Series
  {
    Series(Get(row, CountryCodeColumn), Get(row, CountryColumn), subjectCode, subject, points,
           None, None, None, None)
  }

  /** The series of the kept rows among the first `n` rows. */
  function SeriesUpTo(rows: seq<Row>, subjectCode: Option<string>, subject: Option<string>,
                      parse: string -> Option<real>, n: nat): seq<Series>
    requires n <= |rows|
  {
    var idx := KeptRows(rows, subjectCode, parse, n);
    seq(|idx|, a requires 0 <= a < |idx| =>
      SeriesOf(rows[idx[a]], subjectCode, subject, Points(rows[idx[a]], parse)))
  }

  /** Every row of the subject among the first `n` has all its year cells. */
  predicate SubjectRowsComplete(rows: seq<Row>, subjectCode: Option<string>, n: nat)
    requires n <= |rows|
  {
    forall i :: 0 <= i < n && MatchesSubject(rows[i], subjectCode) ==> RowComplete(rows[i])
  }

  /** What filterWeoDataBySubject computes: it throws when the selection is
      missing or a row of the subject lacks a year cell, and otherwise
      returns the series of the subject's rows that have a value. */
  function ExtractSeries(rows: seq<Row>, subjectSelection: Option<Row>, parse: string -> Option<real>): Result<seq<Series>>
  {
    if subjectSelection.None? then Failure(RequiredValueMissing)
    else
      var code := Get(subjectSelection.value, SubjectCodeColumn);
      var subject := Get(subjectSelection.value, SubjectColumn);
      if SubjectRowsComplete(rows, code, |rows|) then Success(SeriesUpTo(rows, code, subject, parse, |rows|))
      else Failure(MissingCell)
  }

  lemma SeriesUpToStep(rows: seq<Row>, subjectCode: Option<string>, subject: Option<string>,
                       parse: string -> Option<real>, n: nat)
    requires n < |rows|
    ensures SeriesUpTo(rows, subjectCode, subject, parse, n + 1) ==
            SeriesUpTo(rows, subjectCode, subject, parse, n) +
            (if Kept(rows, subjectCode, parse)(n)
             then [SeriesOf(rows[n], subjectCode, subject, Points(rows[n], parse))] else [])
  {
  }

  lemma SubjectRowsCompleteStep(rows: seq<Row>, subjectCode: Option<string>, n: nat)
    requires n < |rows|
    requires SubjectRowsComplete(rows, subjectCode, n)
    requires MatchesSubject(rows[n], subjectCode) ==> RowComplete(rows[n])
    ensures SubjectRowsComplete(rows, subjectCode, n + 1)
  {
  }

  lemma PointsUpToStep(row: Row, parse: string -> Option<real>, j: nat)
    requires j < |YearData()| && YearColumn(YearData()[j]) in row
    ensures PointsUpTo(row, parse, j + 1) ==
      PointsUpTo(row, parse, j) +
      (if Cell(row, YearData()[j], parse).Some? then [Point(YearData()[j], Cell(row, YearData()[j], parse).value)] else [])
  {
  }

  method ReadPoints(d: Row, parse: string -> Option<real>) returns (r: Result<seq<Point>>)
    ensures r.Success? <==> RowComplete(d)
    ensures r.Success? ==> r.value == Points(d, parse)
    ensures r.Failure? ==> r.error == MissingCell
  {
    var yearData := YearData();
    var values: seq<Point> := [];
    var j := 0;
    while j < |yearData|
      invariant 0 <= j <= |yearData|
      invariant CellsUpTo(d, j)
      invariant values == PointsUpTo(d, parse, j)
    {
      var year := yearData[j];
      if YearColumn(year) !in d {
        return Failure(MissingCell);
      }
      var y := parse(StripCommas(d[YearColumn(year)]));
      PointsUpToStep(d, parse, j);
      CellsUpToStep(d, j);
      if y.Some? {
        values := values + [Point(year, y.value)];
      }
      j := j + 1;
    }
    return Success(values);
  }

  /** One row of the subject read without error: its series is appended
      when it has a point. */
  lemma ReadRowStep(rows: seq<Row>, subjectCode: Option<string>, subject: Option<string>,
                    parse: string -> Option<real>, i: nat, points: seq<Point>)
    requires i < |rows| && SubjectRowsComplete(rows, subjectCode, i)
    requires MatchesSubject(rows[i], subjectCode) && RowComplete(rows[i]) && points == Points(rows[i], parse)
    ensures SubjectRowsComplete(rows, subjectCode, i + 1)
    ensures SeriesUpTo(rows, subjectCode, subject, parse, i + 1) ==
      SeriesUpTo(rows, subjectCode, subject, parse, i) +
      (if |points| > 0 then [SeriesOf(rows[i], subjectCode, subject, points)] else [])
  {
    SeriesUpToStep(rows, subjectCode, subject, parse, i);
    SubjectRowsCompleteStep(rows, subjectCode, i);
  }

  /** A row of another subject is skipped. */
  lemma SkipRowStep(rows: seq<Row>, subjectCode: Option<string>, subject: Option<string>,
                    parse: string -> Option<real>, i: nat)
    requires i < |rows| && SubjectRowsComplete(rows, subjectCode, i)
    requires !MatchesSubject(rows[i], subjectCode)
    ensures SubjectRowsComplete(rows, subjectCode, i + 1)
    ensures SeriesUpTo(rows, subjectCode, subject, parse, i + 1) == SeriesUpTo(rows, subjectCode, subject, parse, i)
  {
    SeriesUpToStep(rows, subjectCode, subject, parse, i);
    SubjectRowsCompleteStep(rows, subjectCode, i);
  }

  /** One pass of the row loop of filterWeoDataBySubject: a row of the
      subject is read year by year and its series appended when it has a
      point; a row of another subject is skipped. */
  method ExtractRow(rows: seq<Row>, subjectCode: Option<string>, subject: Option<string>,
                    parse: string -> Option<real>, i: nat, data: seq<Series>)
    returns (r: Result<seq<Series>>)
    requires i < |rows| && SubjectRowsComplete(rows, subjectCode, i)
    requires data == SeriesUpTo(rows, subjectCode, subject, parse, i)
    ensures r.Failure? ==> r.error == MissingCell && !SubjectRowsComplete(rows, subjectCode, |rows|)
    ensures r.Success? ==>
      SubjectRowsComplete(rows, subjectCode, i + 1) && r.value == SeriesUpTo(rows, subjectCode, subject, parse, i + 1)
  {
    var d := rows[i];
    if subjectCode == Get(d, SubjectCodeColumn) {
      var values := ReadPoints(d, parse);
      if values.Failure? {
        assert MatchesSubject(rows[i], subjectCode) && !RowComplete(rows[i]);
        return Failure(values.error);
      }
      ReadRowStep(rows, subjectCode, subject, parse, i, values.value);
      if |values.value| > 0 {
        return Success(data + [SeriesOf(d, subjectCode, subject, values.value)]);
      }
      return Success(data);
    } else {
      SkipRowStep(rows, subjectCode, subject, parse, i);
      return Success(data);
    }
  }

  /** filterWeoDataBySubject: the rows of the selected subject, in input
      order, each read year by year; only series with a point are kept. */
  method FilterWeoDataBySubject(weoData: seq<Row>, subjectSelection: Option<Row>, parse: string -> Option<real>)
    returns (r: Result<seq<Series>>)
    ensures r == ExtractSeries(weoData, subjectSelection, parse)
  {
    if subjectSelection.None? {
      return Failure(RequiredValueMissing);
    }
    var subjectCode := Get(subjectSelection.value, SubjectCodeColumn);
    var subject := Get(subjectSelection.value, SubjectColumn);
    var data: seq<Series> := [];
    var i := 0;
    while i < |weoData|
      invariant 0 <= i <= |weoData|
      invariant SubjectRowsComplete(weoData, subjectCode, i)
      invariant data == SeriesUpTo(weoData, subjectCode, subject, parse, i)
    {
      var step := ExtractRow(weoData, subjectCode, subject, parse, i, data);
      if step.Failure? {
        return Failure(step.error);
      }
      data := step.value;
      i := i + 1;
    }
    return Success(data);
  }

  /** The points of a row are in strictly ascending year order. */
  lemma PointsAscending(row: Row, parse: string -> Option<real>)
    ensures var ps := Points(row, parse);
      forall a, b :: 0 <= a < b < |ps| ==> ps[a].year < ps[b].year
  {
    IndicesWhereSpec(|YearData()|, Parsed(row, parse));
  }

  /** Each point lies in StartYear..EndYear and holds the parsed,
      comma-stripped cell of its year. */
  lemma PointsFromCells(row: Row, parse: string -> Option<real>)
    ensures var ps := Points(row, parse);
      forall a :: 0 <= a < |ps| ==>
        StartYear <= ps[a].year <= EndYear && YearColumn(ps[a].year) in row &&
        Cell(row, ps[a].year, parse) == Some(ps[a].y)
  {
  }

  /** Every year whose cell parses has its point. */
  lemma PointsComplete(row: Row, parse: string -> Option<real>)
    ensures var ps := Points(row, parse);
      forall year ::
        (StartYear <= year <= EndYear && YearColumn(year) in row && Cell(row, year, parse).Some?) ==>
        exists a :: 0 <= a < |ps| && ps[a] == Point(year, Cell(row, year, parse).value)
  {
    var ps := Points(row, parse);
    var idx := ParsedYears(row, parse, |YearData()|);
    IndicesWhereSpec(|YearData()|, Parsed(row, parse));
    forall year | StartYear <= year <= EndYear && YearColumn(year) in row && Cell(row, year, parse).Some?
      ensures exists a :: 0 <= a < |ps| && ps[a] == Point(year, Cell(row, year, parse).value)
    {
      var j: nat := year - StartYear;
      assert YearData()[j] == year;
      assert Parsed(row, parse)(j);
      var a :| 0 <= a < |idx| && idx[a] == j;
      assert ps[a] == Point(year, Cell(row, year, parse).value);
    }
  }

  /** On success, the series are those of the subject's rows with at least
      one point, in input order, one per such row. */
  lemma ExtractSeriesSpec(rows: seq<Row>, subjectSelection: Option<Row>, parse: string -> Option<real>)
    requires ExtractSeries(rows, subjectSelection, parse).Success?
    ensures subjectSelection.Some?
    ensures var code := Get(subjectSelection.value, SubjectCodeColumn);
      var s, idx := ExtractSeries(rows, subjectSelection, parse).value, KeptRows(rows, code, parse, |rows|);
      && |s| == |idx|
      && StrictlyIncreasing(idx)
      && (forall a :: 0 <= a < |s| ==>
            MatchesSubject(rows[idx[a]], code) && |s[a].values| > 0 &&
            s[a].values == Points(rows[idx[a]], parse) &&
            s[a].countryCode == Get(rows[idx[a]], CountryCodeColumn) && s[a].subjectCode == code)
      && (forall i :: 0 <= i < |rows| && MatchesSubject(rows[i], code) && |Points(rows[i], parse)| > 0 ==>
            i in idx)
  {
    var code := Get(subjectSelection.value, SubjectCodeColumn);
    IndicesWhereSpec(|rows|, Kept(rows, code, parse));
  }

  /** The number of points over a list of series. */
  function TotalPoints(s: seq<Series>): nat
  {
    if s == [] then 0 else TotalPoints(s[..|s| - 1]) + |s[|s| - 1].values|
  }

  /** The number of cells that parse over the subject's first `n` rows. */
  function SubjectCellCount(rows: seq<Row>, subjectCode: Option<string>, parse: string -> Option<real>, n: nat): nat
    requires n <= |rows|
  {
    if n == 0 then 0
    else SubjectCellCount(rows, subjectCode, parse, n - 1) +
         (if MatchesSubject(rows[n - 1], subjectCode) then |Points(rows[n - 1], parse)| else 0)
  }

  /** When the extraction succeeds, the series hold exactly as many points
      as the subject's rows have cells that parse. */
  lemma {:induction false} TotalPointsMatchCells(rows: seq<Row>, subjectCode: Option<string>, subject: Option<string>,
                                                 parse: string -> Option<real>, n: nat)
    requires n <= |rows|
    requires SubjectRowsComplete(rows, subjectCode, n)
    ensures TotalPoints(SeriesUpTo(rows, subjectCode, subject, parse, n)) ==
            SubjectCellCount(rows, subjectCode, parse, n)
  {
    if n > 0 {
      TotalPointsMatchCells(rows, subjectCode, subject, parse, n - 1);
      SeriesUpToStep(rows, subjectCode, subject, parse, n - 1);
      var prev := SeriesUpTo(rows, subjectCode, subject, parse, n - 1);
      var next := SeriesUpTo(rows, subjectCode, subject, parse, n);
      if Kept(rows, subjectCode, parse)(n - 1) {
        assert next[..|next| - 1] == prev;
      } else {
        assert next == prev;
      }
    }
  }

  // ---------------------------------------------------------------------
  // Country lookup: filterSubjectDataByCountry
  // ---------------------------------------------------------------------

  /** Position `k` holds the last series with the given country code. */
  ghost predicate IsLastMatch(s: seq<Series>, code: Option<string>, k: nat)
  {
    k < |s| && s[k].countryCode == code && forall j :: k < j < |s| ==> s[j].countryCode != code
  }

  /** The position of the last series with the given code (`==` on codes,
      so an undefined code finds a series whose code is undefined). */
  function LastMatchIndex(s: seq<Series>, code: Option<string>): (r: Option<nat>)
    ensures r.None? <==> forall k :: 0 <= k < |s| ==> s[k].countryCode != code
    ensures r.Some? ==> IsLastMatch(s, code, r.value)
  {
    if s == [] then None
    else if s[|s| - 1].countryCode == code then Some(|s| - 1)
    else LastMatchIndex(s[..|s| - 1], code)
  }

  function LastMatch(s: seq<Series>, code: Option<string>): Option<Series>
  {
    match LastMatchIndex(s, code)
    case None => None
    case Some(k) => Some(s[k])
  }

  /** filterSubjectDataByCountry: scans every series and keeps the last one
      whose code equals the selected country's; null when none does. */
  method FilterSubjectDataByCountry(subjectData: seq<Series>, countrySelection: Row) returns (data: Option<Series>)
    ensures var code := Get(countrySelection, CountryCodeColumn);
      && data == LastMatch(subjectData, code)
      && (data.None? <==> forall k :: 0 <= k < |subjectData| ==> subjectData[k].countryCode != code)
      && (data.Some? ==> exists k: nat :: IsLastMatch(subjectData, code, k) && data.value == subjectData[k])
  {
    var countryCode := Get(countrySelection, CountryCodeColumn);
    data := None;
    var i := 0;
    while i < |subjectData|
      invariant 0 <= i <= |subjectData|
      invariant data == LastMatch(subjectData[..i], countryCode)
    {
      assert subjectData[..i + 1][..i] == subjectData[..i];
      if countryCode == subjectData[i].countryCode {
        data := Some(subjectData[i]);
      }
      i := i + 1;
    }
    assert subjectData[..i] == subjectData;
  }
}
