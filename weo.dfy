/** Constants, column names and the raw row of the WEO chart. */
module Weo {
  import opened Wrappers

  // The fixed year range of the data set and the chart's limits.
  const StartYear: int := 1980
  const EndYear: int := 2015
  const MaxCountries: nat := 20
  const MinYears: int := 5
  const HighestOrLowestCountries: nat := 10

  /** Plot width in pixels: 960 less the left (100) and right (200) margins. */
  const Width: real := 660.0

  /** The message of `checkRequiredValue` on a null or undefined argument. */
  const RequiredValueMissing: string := "Required value is missing"

  // Column names of the WEO table.
  const CountryCodeColumn: string := "ISO"
  const SubjectCodeColumn: string := "WEO Subject Code"
  const CountryColumn: string := "Country"
  const SubjectColumn: string := "Subject Descriptor"
  const UnitColumn: string := "Units"
  const ScaleColumn: string := "Scale"

  /** A row of the table: column name to cell text. A column the row does
      not have reads as `undefined`. */
  type Row = map<string, string>

  /** `d[column]`: the cell, or None for `undefined`. */
  function Get(row: Row, column: string): Option<string>
  {
    if column in row then Some(row[column]) else None
  }

  /** The years of the chart, StartYear..EndYear inclusive, ascending. */
  function YearData(): (years: seq<int>)
    ensures |years| == EndYear - StartYear + 1
    ensures forall i :: 0 <= i < |years| ==> years[i] == StartYear + i
  {
    seq(EndYear - StartYear + 1, i => StartYear + i)
  }

  function Digit(d: nat): char
    requires d < 10
  {
    "0123456789"[d]
  }

  /** The decimal text of `n` without leading zeros. */
  function NatToString(n: nat): string
  {
    if n < 10 then [Digit(n)] else NatToString(n / 10) + [Digit(n % 10)]
  }

  /** The column holding a year's cell: `d[year]` turns the number into its
      decimal text. */
  function YearColumn(year: int): string
  {
    if year < 0 then "-" + NatToString(-year) else NatToString(year)
  }

  /** Where a colour slot of the palette points: an index into the
      20-colour palette, or `undefined` once all 20 indices are taken. */
  datatype ColorSlot = Palette(index: nat) | Exhausted
}
