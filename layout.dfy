/** The windowed x-layout of `plotSeries`: every series is drawn over the
    whole data range at the pixel density of the visible window, shifted so
    that the window starts at pixel 0. */
module Layout {
  import opened Weo

  /** A linear scale from the domain [d0, d1] onto the range [r0, r1]. */
  function Linear(d0: real, d1: real, r0: real, r1: real, x: real): real
    requires d0 != d1
  {
    r0 + (x - d0) / (d1 - d0) * (r1 - r0)
  }

  /** `totalWidth`: the width the whole data range takes at the density of
      the window [fromYear, toYear] drawn `width` pixels wide. */
  function TotalWidth(width: real, fromYear: int, toYear: int): real
    requires fromYear < toYear
  {
    width * (EndYear - StartYear) as real / (toYear - fromYear) as real
  }

  /** `a`: where the window starts on that full-range scale. */
  function Offset(width: real, fromYear: int, toYear: int): real
    requires fromYear < toYear
  {
    (fromYear - StartYear) as real / (EndYear - StartYear) as real * TotalWidth(width, fromYear, toYear)
  }

  /** `allX`: the data range [StartYear, EndYear] mapped onto
      [-a, totalWidth - a]. */
  function AllX(width: real, fromYear: int, toYear: int, year: real): real
    requires fromYear < toYear
  {
    var a := Offset(width, fromYear, toYear);
    Linear(StartYear as real, EndYear as real, -a, TotalWidth(width, fromYear, toYear) - a, year)
  }

  /** allX is the window's own scale: it sends every year to
      width * (year - fromYear) / (toYear - fromYear), so the window start
      lies at pixel 0, its end at `width`, and one year is
      width / (toYear - fromYear) pixels wide everywhere. */
  lemma AllXIsWindowScale(width: real, fromYear: int, toYear: int, year: real)
    requires fromYear < toYear
    ensures AllX(width, fromYear, toYear, year) ==
            width * (year - fromYear as real) / (toYear - fromYear) as real
  {
  }

  /** The window's ends map to the edges of the plot. */
  lemma WindowEndsAtPlotEdges(width: real, fromYear: int, toYear: int)
    requires fromYear < toYear
    ensures AllX(width, fromYear, toYear, fromYear as real) == 0.0
    ensures AllX(width, fromYear, toYear, toYear as real) == width
  {
    AllXIsWindowScale(width, fromYear, toYear, fromYear as real);
    AllXIsWindowScale(width, fromYear, toYear, toYear as real);
  }

  /** The full window is the plain full-range scale: no offset, and the
      full range is exactly the plot width. */
  lemma FullWindowIsPlainScale(width: real)
    ensures TotalWidth(width, StartYear, EndYear) == width
    ensures Offset(width, StartYear, EndYear) == 0.0
  {
  }

  /** The window 2000..2010 on the 660-pixel plot: the 35-year range is
      2310 pixels wide and the window starts 1320 pixels into it. */
  lemma DecadeWindowExample()
    ensures TotalWidth(Width, 2000, 2010) == 2310.0
    ensures Offset(Width, 2000, 2010) == 1320.0
  {
  }
}
