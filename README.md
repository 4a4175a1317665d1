# WEO chart: data selection and layout, modelled in Dafny

The chart (`js/weo.js`) draws IMF World Economic Outlook series for a
handful of countries over a window of years. This project models the part
of it that decides what gets drawn and where, without the DOM and d3
rendering:

- **Catalog deduplication** (`getUniqueData`): one record per distinct
  non-null key, in first-occurrence order, holding only the requested
  fields.
- **Selection** (`getSelectedData`): the rows whose property equals one of
  the given values, in data order.
- **Series extraction** (`filterWeoDataBySubject`,
  `filterSubjectDataByCountry`): the rows of one subject become series of
  (year, value) points over 1980..2015. Cells have their thousands commas
  stripped and are then parsed. A series with no parsed point is dropped.
  One country's series is then looked up.
- **Window ranking** (`orderSubjectDataByValue`): each series gets the
  minimum and maximum of its values inside the year window. The array is
  then sorted in place: descending by maximum for TOP, ascending by
  minimum for BOTTOM.
- **Colour slots** (`setSeriesColor`): a persistent map from country code
  to one of 20 palette indices. Slots of countries no longer shown are
  freed. Each new country gets the lowest free index.
- **Year window** (the change handlers of `initYearSelector`): keeps the
  window at least 5 years wide.
- **Windowed x-layout** (`plotSeries`): each series is drawn over the
  whole data range at the window's pixel density, shifted so that the
  window starts at pixel 0.
- **Refresh** (`refresh`), data side only:
  - the ten countries offered after a ranking;
  - the region lookup;
  - the assembly of the drawn series;
  - the fold over visible points, which sets the y-axis extent and the
    legend positions.

Representation choices:

- **Rows** are `map<string, string>` from column name to cell text. A
  missing column is JavaScript's `undefined`, modelled as `None`.
- **Years** are `int`; data values and layout arithmetic are `real`.
- **Parsing** of a cell (`parseFloat` with the NaN test) is a parameter
  `parse: string -> Option<real>`.
- **Exceptions:** a thrown error becomes a `Failure` carrying the error's
  message. These are the `TypeError` of `.replace` on a missing cell and
  the "Required value is missing" of `checkRequiredValue`.
- **Mutable state:**
  - arrays that the source changes in place stay `array`s: the ranking
    sort, the series whose colour or legend gets written;
  - the colour map is a class field;
  - loops stay loops. Each looping method is proved equal to a
    specification function, and the properties are proved about that
    function.

Modules, one file each:

- `Wrappers`: `Option`, `Result`, and `OneOrMany`, the "array or single value" argument.
- `Seqs`: index filters and counting.
- `Weo`: constants, column names, rows, the year list.
- `Catalog`: `getUniqueData`, `getSelectedData`.
- `Extraction`: series extraction and country lookup.
- `Ranking`: window extremes and the in-place sort.
- `Colors`: the colour-slot allocator.
- `YearWindow`: the year handlers.
- `Layout`: the x-layout arithmetic.
- `Refresh`: the data side of `refresh`.

## Model

| member | source | states |
|---|---|---|
| Weo.YearData | js/weo.js:50-51 | the year list has 36 entries, entry i being 1980 + i |
| Catalog.GetUniqueData | js/weo.js:725-745 | the loop returns exactly `UniqueData`, for a single field name as for a list of them |
| Catalog.Project | js/weo.js:737-740 | the record holding the row's value for each requested field (its use is stated by `UniqueDataIsDedup`) |
| Catalog.UniqueDataIsDedup | js/weo.js:734-742 | one record per distinct non-null key, read from strictly increasing rows, each row the first with its key. Each record is that row projected on the requested fields. The keys are pairwise distinct. Every row with a non-null key has its key represented. |
| Catalog.FirstOccurrenceExists | js/weo.js:735 | every non-null key value has a first row carrying it |
| Catalog.GetSelectedData | js/weo.js:747-763 | fails with "Required value is missing" exactly when `values` is a single undefined value; otherwise the nested loops return exactly `SelectedData`, for a single value as for a list |
| Catalog.SelectedDataSpec | js/weo.js:755-761 | the selection is the data read along a non-decreasing index list. Row i occurs exactly as many times as there are values equal to its non-null property. |
| Catalog.SelectedShape | js/weo.js:755-761 | each selected row is the data row at its index, and the indices are rows of the data |
| Catalog.SelectedOrdered | js/weo.js:755-761 | the selected rows' indices never decrease, so the selection follows data order |
| Catalog.SelectedCounts | js/weo.js:755-761 | row i is selected exactly as many times as there are values equal to its non-null property |
| Catalog.SelectedMatch | js/weo.js:757 | every selected row has the property and its value is among the given values |
| Catalog.SelectionIgnoresValueOrder | js/weo.js:305-306 | reordering the values does not change the selection, so the drawn countries follow catalog order, not the order they were picked in |
| Seqs.IndicesWhereSpec | js/weo.js:812-833 | the index filter behind every `forEach` with a guarded `push` yields exactly the indices that satisfy the guard, ascending |
| Seqs.CountIsMultiplicity | js/weo.js:756 | counting a value in a list depends only on the list's multiset |
| Extraction.StripCommas | js/weo.js:818 | the result has no comma, is no longer than the input, and is the input itself when it had none |
| Extraction.StripCommasKeepsOthers | js/weo.js:818 | every character other than a comma occurs in the result as often as in the input |
| Extraction.StripCommasAppend | js/weo.js:818 | stripping a concatenation is the concatenation of the stripped halves, so the kept characters stay in order and the result is the input with its commas deleted |
| Extraction.Cell | js/weo.js:818-819 | a year's cell with its commas stripped, then parsed; undefined where parsing gives NaN (properties in `PointsFromCells` and `PointsComplete`) |
| Extraction.ReadPoints | js/weo.js:817-822 | fails with the `.replace` TypeError exactly when a year cell is missing; otherwise returns `Points` |
| Extraction.PointsAscending | js/weo.js:817-822 | points are in strictly ascending year order |
| Extraction.PointsFromCells | js/weo.js:817-822 | every point's year is within 1980..2015 and its value is that year's stripped-and-parsed cell |
| Extraction.PointsComplete | js/weo.js:817-822 | every year in 1980..2015 whose cell parses has a point |
| Extraction.ExtractRow | js/weo.js:813-832 | one row of the loop: a row of the subject that lacks a year cell fails with the TypeError, and then the whole extraction fails; otherwise the result is the series of the first i + 1 rows |
| Extraction.FilterWeoDataBySubject | js/weo.js:796-835 | the loop returns exactly `ExtractSeries` |
| Extraction.ExtractSeriesSpec | js/weo.js:802-831 | success needs a subject selection. Then the series come, in input order, from exactly the rows whose subject code equals the selection's and that have at least one point. Each series holds that row's points and country code and the selected subject code. |
| Extraction.TotalPointsMatchCells | js/weo.js:817-823 | the number of points over all extracted series equals the number of parsable cells in the subject's rows |
| Extraction.LastMatchIndex | js/weo.js:847-851 | none exactly when no series has the code; otherwise the position of the last series that has it |
| Extraction.FilterSubjectDataByCountry | js/weo.js:837-853 | returns the last series whose code equals the selected country's, and null exactly when there is none |
| Ranking.WindowYsSpec | js/weo.js:866-874 | a value is collected exactly when some point with a year in [from, to] has it |
| Ranking.Min | js/weo.js:875 | undefined exactly on no values; otherwise a member that is at most every value |
| Ranking.Max | js/weo.js:876 | undefined exactly on no values; otherwise a member that is at least every value |
| Ranking.YValuesInWindow | js/weo.js:867-874 | the loop collects exactly `WindowYs` |
| Ranking.WindowExtremesSpec | js/weo.js:866-877 | minY/maxY are undefined exactly when no point is in the window. Otherwise they are attained by points in the window and bound every point in it. |
| Ranking.SourceCompare | js/weo.js:881-891 | the comparator as written: -1, 1 or 0 by `maxY` (TOP, descending) or `minY` (BOTTOM, ascending), and 0 whenever either key is undefined |
| Ranking.SortedAgreesWithSourceWhenAllDefined | js/weo.js:881-891 | when every series has a point in the window, an order is sorted in the model's ranking order exactly when the comparator as written accepts it |
| Ranking.BeforeTotal | js/weo.js:881-891 | the ranking order relates any two series |
| Ranking.BeforeTransitive | js/weo.js:881-891 | the ranking order is transitive |
| Ranking.Swap | js/weo.js:881-891 | exchanges two entries, leaves the rest and keeps the multiset |
| Ranking.Insert | js/weo.js:881-891 | extends the sorted prefix by one, keeping the multiset |
| Ranking.SortInPlace | js/weo.js:881-891 | the array ends sorted for the direction and is a permutation of its old contents |
| Ranking.OrderSubjectDataByValue | js/weo.js:855-895 | returns a ranking exactly for TOP and BOTTOM. The array ends as a permutation of the series with their window extremes set. TOP ends sorted by non-increasing maxY and BOTTOM by non-decreasing minY. Any other type leaves the updated series in place. |
| Ranking.FirstIsExtreme | js/weo.js:881-891 | in the model's ranking order, where series without a point in the window come last, the first series has the greatest maxY (TOP) or the least minY (BOTTOM) among those with a point. Under the comparator as written this holds when every series has a point in the window (`SortedAgreesWithSourceWhenAllDefined`); see Findings |
| Ranking.BottomRankingScenario | js/weo.js:866-891 | Venezuela (-100, -200) and the United States (50) ranked BOTTOM over 1980..1990 can only come out as Venezuela (minY -200) then the United States (minY 50) |
| Colors.LowestFree | js/weo.js:374-380 | the lowest palette index no entry uses, or `Exhausted` (properties in `LowestFreeSpec`) |
| Colors.LowestFreeSpec | js/weo.js:374-380 | returns the least palette index no entry uses, or reports all 20 in use |
| Colors.Prune | js/weo.js:366-370 | the map without the entries of countries no shown series carries (properties in `PruneValid`) |
| Colors.AssignOne | js/weo.js:373-383 | one country's step of the second loop: unchanged when it has an entry, else it gets `LowestFree` (properties in `AssignOneKeeps`, `AssignOneValid`) |
| Colors.AssignAll | js/weo.js:372-384 | the second loop over the series' countries in order (properties in `AssignAllKeeps`, `AssignAllValid`) |
| Colors.AssignAllKeeps | js/weo.js:372-383 | a country that already has a slot keeps it, and afterwards exactly the old keys and the new countries have slots |
| Colors.AssignAllValid | js/weo.js:372-384 | assigning new countries keeps the slots pairwise distinct and within the palette |
| Colors.PruneValid | js/weo.js:366-370 | pruning keeps exactly the entries of shown countries, with their slots, and keeps the slots valid |
| Colors.SeriesColorMap.FreeHiddenSlots | js/weo.js:366-370 | the map loses exactly the entries of countries no longer shown, and keeps the others' slots |
| Colors.ColorSeriesAt | js/weo.js:372-384 | one step: the series' country gets the lowest free slot when it had none, the series gets its country's slot, and no other series changes |
| Colors.AssignSlots | js/weo.js:372-384 | the map becomes the in-order assignment of the series' countries, and every series gets its country's slot |
| Colors.SeriesColorMap.SetSeriesColor | js/weo.js:365-386 | the map becomes the assignment of the shown countries, in order, onto the pruned map, and stays valid. Every series gets its country's slot and nothing else changes. It allocates with the corrected free test `LowestFree`, not the test as written (`LowestFreeAsWritten`, see Findings). |
| Colors.FirstCountriesGetFirstSlots | js/weo.js:365-386 | on an empty map, AAA, BBB and CCC get slots 0, 1 and 2 |
| Colors.HiddenCountryIsPruned | js/weo.js:366-370 | with AAA, CCC and DDD shown, BBB's entry is deleted and AAA and CCC keep theirs |
| Colors.GapIsRefilled | js/weo.js:372-384 | onto AAA on 0 and CCC on 2, the new country DDD gets the lowest free index 1 |
| Colors.ReplacingACountryReusesItsSlot | js/weo.js:365-386 | replacing BBB by DDD keeps AAA and CCC on 0 and 2 and gives DDD the freed slot 1 |
| Colors.LowestFreeAsWritten | js/weo.js:376-379 | the index test as written: an index counts as free when only entries with an empty key use it |
| Colors.EmptyCodeSlotLooksFree | js/weo.js:376-379 | with an entry for the empty code holding 0, the test as written hands 0 to a new country and breaks distinctness; the corrected test hands out 1 |
| YearWindow.FromYearChanged | js/weo.js:238-250 | the from-year handler: refresh, or write `max(1980, to - 5)` back and fire again (properties in the lemmas below) |
| YearWindow.ToYearChanged | js/weo.js:252-266 | the to-year handler: refresh, or write `min(2015, from + 5)` back and fire again (properties in the lemmas below) |
| YearWindow.HandlersRefreshExactlyWhenWideEnough | js/weo.js:238-266 | each handler refreshes exactly when the window is at least 5 years wide, and corrects it otherwise |
| YearWindow.FromCorrection | js/weo.js:241-245 | a too-narrow window moves from to `max(1980, to - 5)`, leaving a gap of exactly 5 unless pinned at 1980 |
| YearWindow.ToCorrection | js/weo.js:257-261 | a too-narrow window moves to to `min(2015, from + 5)`, leaving a gap of exactly 5 unless pinned at 2015 |
| YearWindow.FromChangeKeepsWindowValid | js/weo.js:238-249 | from a valid window, any picked from-year settles after at most one re-fire on a valid window that refreshes |
| YearWindow.ToChangeKeepsWindowValid | js/weo.js:254-265 | from a valid window, any picked to-year settles after at most one re-fire on a valid window that refreshes |
| YearWindow.PinnedHandlersRefireThemselves | js/weo.js:241-245 | in the pinned states the handler writes back the year it read, so it would re-fire without end |
| YearWindow.InitialWindowValid | js/weo.js:223-236 | the initial window 1980..2015 is valid |
| Layout.TotalWidth | js/weo.js:536-537 | the width of the whole data range at the window's pixel density (properties in `FullWindowIsPlainScale`, `DecadeWindowExample`) |
| Layout.Offset | js/weo.js:539-540 | `a`, the pixel position of the window's start in that range (same lemmas) |
| Layout.AllX | js/weo.js:544-545 | the linear map of 1980..2015 onto [-a, totalWidth - a] (properties in `AllXIsWindowScale`, `WindowEndsAtPlotEdges`) |
| Layout.AllXIsWindowScale | js/weo.js:536-545 | the full-range map onto [-a, totalWidth - a] sends every year to width · (year - from) / (to - from) |
| Layout.WindowEndsAtPlotEdges | js/weo.js:536-545 | fromYear maps to pixel 0 and toYear to `width` |
| Layout.FullWindowIsPlainScale | js/weo.js:536-540 | the full window gives totalWidth = width and a = 0 |
| Layout.DecadeWindowExample | js/weo.js:536-540 | with width 660 and window 2000..2010, totalWidth is 2310 and a is 1320 |
| Refresh.TopCountryCodes | js/weo.js:295-296 | the first min(10, n) ranked series' codes, in ranked order |
| Refresh.TopCodesAreMostExtreme | js/weo.js:292-297 | in the model's ranking order, every offered country ranks at least as high as every country left out, and ten are offered unless fewer exist. Under the comparator as written this holds when every series has a point in the window; see Findings |
| Refresh.OfferedWithoutDataOnlyWhenNoneLeft | js/weo.js:292-297 | in the model's ranking order, a country without a point in the window is offered only when no country left out has one |
| Refresh.NoDataCountryMayBeOfferedFirst | js/weo.js:881-885 | AAA without data in 2010..2015 and BBB with 5.0 in 2012: the comparator as written accepts both orders, so AAA can be offered first; the model's order rejects that |
| Refresh.RegionCountries | js/weo.js:299-302 | the region's countries when the selection names a known region; otherwise "Required value is missing" |
| Refresh.AssembleSeries | js/weo.js:324-330 | the loop returns exactly `Assembled` |
| Refresh.AssembledSpec | js/weo.js:324-330 | in selection order, one series per selected country that has one. That series is the last series with the country's code. Countries without a series are skipped. |
| Refresh.FoldSeries | js/weo.js:341-348 | one series' visible years and values, in order, and its legend moved to its last visible value |
| Refresh.FoldSeriesAt | js/weo.js:341-348 | one series in the array: its visible years and values are returned, its legend is moved, and no other series changes |
| Refresh.FoldVisible | js/weo.js:336-350 | collects every visible year, and 0 followed by every visible value, series by series. Every series' legend is moved and nothing else changes. |
| Refresh.LegendKeepsPosition | js/weo.js:344-347 | a series with no visible point keeps its legend position |
| Refresh.LegendAtLastVisible | js/weo.js:344-347 | otherwise the legend sits at the y of its last visible point |
| Refresh.Extent | js/weo.js:352 | undefined exactly on no values; otherwise the least and greatest value, both members |
| Refresh.YDomainContainsZero | js/weo.js:337-352 | the y domain always contains 0 and every visible value |

## Left out

- DOM, jQuery and select2 wiring are not modelled. This covers building the selectors (`initSelector`, `initCountrySelector` and the others), reading and writing their values, and the `maximumSelectionLength` of 20. Their values are taken as inputs. A `null` from `.val()` on an empty selector is not modelled.
- d3 rendering is not modelled: axes, paths, transitions, the title and labels, highlighting, and the transition-end callback that calls `refresh` again. It is drawing code in a library.
- The force-simulation legend layout (js/weo.js:650-672) is not modelled. It is iterative floating-point physics in a library.
- The TSV file loading and `d3.queue` (js/weo.js:109-119) are I/O. The tables are inputs.
- `parseFloat` and `isNaN` are not modelled: parsing is the parameter `parse`.
- `d3.timeParse` and `d3.scaleTime` are not modelled. Points keep the year rather than a date, and the x map is linear in years. The source map is linear in milliseconds, so leap years make it only roughly year-linear.
- The palette colour strings of `d3.schemeCategory20` are not modelled. A series gets its slot index, or `Exhausted` when all 20 are in use.
- When all 20 slots are in use, the source's `find` yields `undefined` and the scale then hands out a colour for it. The model records `Exhausted` instead.
- The ordinal scale over `.domain([0, 19])` is not modelled. It maps 0 and 19 to the first two colours, and any further index to the next unused colour.
- The region table's contents (js/weo.js:924-996) are not modelled. The table is an opaque map input.
- The `jQuery.type` checks of `checkRequiredValue` are not modelled. The model's types enforce them. The missing-value cases are modelled as `Failure` where an argument can be undefined: the selection of `filterWeoDataBySubject`, the region of `RegionCountries`, and a single `values` of `getSelectedData`. The other checked arguments (the tables, property names and field lists) have types that cannot be undefined.
- Each point's copy of its country code (js/weo.js:820) is not modelled. Nothing in the core reads it.
- Ranking.OrderSubjectDataByValue: the JavaScript comparator ties a series whose `minY`/`maxY` is undefined with every other series, so the order it yields for such input is not specified. The model sorts series without a point in the window last instead: this is the corrected order of the Findings row, and `SourceCompare` models the comparator as written. Where every series has a point in the window the two orders agree (`SortedAgreesWithSourceWhenAllDefined`). The model claims no particular order among ties.
- Within one `refresh`, the source shares the series objects between `subjectData`, `data` and the arrays that the ranking, colouring and visible fold write into, so a write made through one is seen through the others. The model passes the series as values from one step to the next and specifies each step on the series it is given. It does not capture that sharing. Across refreshes nothing is shared: `filterWeoDataBySubject` builds new series objects each time (js/weo.js:824-830).
- Loose equality (`==`) between codes is modelled as equality of optional strings. An undefined code matches an undefined code, which is what `undefined == undefined` gives.
- YearWindow: a SetAndRetrigger step writes the year and fires the handler again. The pinned states would loop forever. These are from = 1980 with to < 1985, and to = 2015 with from > 2010. The model states this as a fixed point rather than running the loop, because neither state is reachable from a valid window.
- Colors.SeriesColorMap.SetSeriesColor: allocates with the corrected free test `LowestFree`. On a map holding an entry for the empty country code it differs from js/weo.js:376-379, which `LowestFreeAsWritten` models (see Findings).
- The `refresh` function as a whole is not a single member. Its steps are modelled separately:
  - subject selection is `SelectedData` plus `ExtractSeries`;
  - ranking is `OrderSubjectDataByValue`;
  - the offered countries are `TopCountryCodes` and `RegionCountries`;
  - assembly is `AssembleSeries`;
  - colours are `SetSeriesColor`;
  - the visible fold is `FoldVisible` and `Extent`.

  The calls between them pass through the DOM.

## Findings

| source | as written | input that shows it | evidently intended | confidence | as-written member | corrected member |
|---|---|---|---|---|---|---|
| js/weo.js:376-379 | `!Object.keys(map).find(k => index === map[k].colorIndex)` counts an index as free when the key using it is falsy, that is the empty country code | a map holding the empty code "" on index 0, then a new country "FIN": index 0 is handed out a second time | an index is free when no entry uses it (`findIndex`/`some`) | low: needs a series whose ISO cell is empty; not executed | Colors.LowestFreeAsWritten, Colors.EmptyCodeSlotLooksFree | Colors.LowestFreeSpec, Colors.AssignAllValid |
| js/weo.js:881-891 | the TOP and BOTTOM comparators return 0 when `maxY`/`minY` is undefined, because `>` and `<` on undefined are false, so a series with no point in the window ties with every series | AAA with data only in 2000 listed before BBB with 5.0 in 2012, ranked TOP over 2010..2015: the comparator accepts AAA first, a stable sort keeps it there, and AAA is offered among the ten (js/weo.js:293-296) | series without a point in the window rank after every series with one | medium: needs a window in which some country has no data; not executed | Ranking.SourceCompare, Refresh.NoDataCountryMayBeOfferedFirst | Ranking.OrderSubjectDataByValue, Refresh.OfferedWithoutDataOnlyWhenNoneLeft |
