/** The linked from-year/to-year selectors (`initYearSelector`): each change
    handler keeps the window at least MinYears wide. */
module YearWindow {
  import opened Weo

  /** What a change handler does: refresh the chart for the new window, or
      write a corrected year back into its selector and fire its own change
      event again. */
  datatype HandlerStep = Refresh | SetAndRetrigger(year: int)

  function Max(a: int, b: int): int { if a >= b then a else b }
  function Min(a: int, b: int): int { if a <= b then a else b }

  /** The from-year selector's change handler. */
  function FromYearChanged(fromYear: int, toYear: int): HandlerStep
  {
    if fromYear + MinYears > toYear then SetAndRetrigger(Max(StartYear, toYear - MinYears)) else Refresh
  }

  /** The to-year selector's change handler. */
  function ToYearChanged(fromYear: int, toYear: int): HandlerStep
  {
    if fromYear + MinYears > toYear then SetAndRetrigger(Min(EndYear, fromYear + MinYears)) else Refresh
  }

  /** A window the chart can show: inside the data range and at least
      MinYears wide. */
  predicate ValidWindow(fromYear: int, toYear: int)
  {
    StartYear <= fromYear && toYear <= EndYear && fromYear + MinYears <= toYear
  }

  /** A window at least MinYears wide is left alone by both handlers; a
      narrower one is corrected by both. */
  lemma HandlersRefreshExactlyWhenWideEnough(fromYear: int, toYear: int)
    ensures FromYearChanged(fromYear, toYear) == Refresh <==> fromYear + MinYears <= toYear
    ensures ToYearChanged(fromYear, toYear) == Refresh <==> fromYear + MinYears <= toYear
  {
  }

  /** The from handler moves `from` down to `to - MinYears`, or to StartYear
      when that is lower, so the gap becomes exactly MinYears unless the
      year is pinned at StartYear; a from-year is never moved above
      `toYear - MinYears` or below StartYear. */
  lemma FromCorrection(fromYear: int, toYear: int)
    requires fromYear + MinYears > toYear
    ensures FromYearChanged(fromYear, toYear).SetAndRetrigger?
    ensures var f := FromYearChanged(fromYear, toYear).year;
      && StartYear <= f
      && (toYear - MinYears >= StartYear ==> f + MinYears == toYear)
      && (toYear - MinYears < StartYear ==> f == StartYear)
  {
  }

  /** The to handler moves `to` up to `from + MinYears`, or to EndYear when
      that is higher, so the gap becomes exactly MinYears unless the year is
      pinned at EndYear. */
  lemma ToCorrection(fromYear: int, toYear: int)
    requires fromYear + MinYears > toYear
    ensures ToYearChanged(fromYear, toYear).SetAndRetrigger?
    ensures var t := ToYearChanged(fromYear, toYear).year;
      && t <= EndYear
      && (fromYear + MinYears <= EndYear ==> t == fromYear + MinYears)
      && (fromYear + MinYears > EndYear ==> t == EndYear)
  {
  }

  /** The from-year the from handler settles on, given that the re-fired
      event finds a wide enough window. */
  function SettledFrom(fromYear: int, toYear: int): int
  {
    match FromYearChanged(fromYear, toYear)
    case Refresh => fromYear
    case SetAndRetrigger(f) => f
  }

  function SettledTo(fromYear: int, toYear: int): int
  {
    match ToYearChanged(fromYear, toYear)
    case Refresh => toYear
    case SetAndRetrigger(t) => t
  }

  /** From a valid window, whatever from-year the user picks in the data
      range, the handler fires at most once more and the chart refreshes
      with a valid window. */
  lemma FromChangeKeepsWindowValid(fromYear: int, toYear: int, picked: int)
    requires ValidWindow(fromYear, toYear)
    requires StartYear <= picked <= EndYear
    ensures FromYearChanged(SettledFrom(picked, toYear), toYear) == Refresh
    ensures ValidWindow(SettledFrom(picked, toYear), toYear)
  {
  }

  /** From a valid window, whatever to-year the user picks in the data
      range, the handler fires at most once more and the chart refreshes
      with a valid window. */
  lemma ToChangeKeepsWindowValid(fromYear: int, toYear: int, picked: int)
    requires ValidWindow(fromYear, toYear)
    requires StartYear <= picked <= EndYear
    ensures ToYearChanged(fromYear, SettledTo(fromYear, picked)) == Refresh
    ensures ValidWindow(fromYear, SettledTo(fromYear, picked))
  {
  }

  /** The pinned cases re-fire forever: with a to-year below
      StartYear + MinYears the from handler, once at StartYear, writes
      StartYear back again and again, and with a from-year above
      EndYear - MinYears the to handler does the same with EndYear. Neither
      state is reachable from a valid window (the two lemmas above). */
  lemma PinnedHandlersRefireThemselves(fromYear: int, toYear: int)
    ensures toYear < StartYear + MinYears ==>
      FromYearChanged(StartYear, toYear) == SetAndRetrigger(StartYear)
    ensures fromYear > EndYear - MinYears ==>
      ToYearChanged(fromYear, EndYear) == SetAndRetrigger(EndYear)
  {
  }

  /** The initial window, the whole data range, is valid. */
  lemma InitialWindowValid()
    ensures ValidWindow(StartYear, EndYear)
  {
  }
}
