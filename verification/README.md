# Disaster bar chart: data pipeline model

`script.js` loads a table of disasters (one row per disaster, with a
`Disaster.Type` and a `Start.Year` field). It keeps the usable rows and
pre-sorts them by type and then year. It counts them per (type, year) with
`d3.flatRollup` and builds a colour per disaster type. It then draws one bar
per type for the year chosen on a slider, ordered by the sort control:
count ascending, count descending, or table order.

This Dafny project models that data path and proves what each step
guarantees:

| module | file | models |
|---|---|---|
| `Wrappers` | `wrappers.dfy` | `Option`, for a year that did not coerce to a number and for `d3.max` of nothing |
| `Order` | `order.dfy` | JavaScript `<` on strings, `d3.ascending`, `d3.descending` |
| `Seqs` | `seqs.dfy` | duplicate-freedom; `Array.from(new Set(xs))` |
| `Records` | `records.dfy` | the row filter and the (type, year) pre-sort |
| `Rollup` | `rollup.dfy` | `d3.flatRollup(data, v => v.length, type, year)` as nested first-occurrence grouping |
| `Categories` | `categories.dfy` | the sorted category list and the ordinal colour scale's slot per type |
| `Chart` | `chart.dfy` | `getDataForYear`, `getSortedData` (a stable sort), the value axis's upper end, and the view state |
| `Pipeline` | `pipeline.dfy` | the whole path from loaded rows to visible bars |
| `Scenario` | `scenario.dfy` | a worked example of three rows |

The rollup is modelled the way d3 computes it. The records are grouped by
type in order of first occurrence. Within each type group they are grouped by
year, again in order of first occurrence. Each year group becomes one row
holding the group's size. The lemmas then prove that on the pre-sorted input
this yields one row per (type, year), strictly ascending, counting exactly
the records with that key.

Two consequences of the code are worth spelling out. Because the rows are
pre-sorted by type and then year before grouping (script.js:15-16), the table
order of a year's bars is alphabetical by type: for the rows (Flood 2000,
Flood 2001, Drought 2000) the year-2000 bars come out Drought then Flood
(`Scenario.ScenarioYear2000`). And an empty or blank year field coerces to
`0` and is kept; only a field that coerces to `NaN` is dropped (script.js:3,
7). The model takes the coerced year as given (see "Left out").

## Model

| member | source | states |
|---|---|---|
| `Order.AscendingStr` | script.js:25 | `d3.ascending` on strings is negative exactly when the first string is below the second under JavaScript `<`, positive exactly when it is above, and zero exactly when they are equal |
| `Order.AscendingStrTransitive` | script.js:25 | `d3.ascending` on strings is a transitive comparator, as a sort needs |
| `Order.AscendingInt` | script.js:115 | `d3.ascending` on numbers is negative exactly when `a < b` and positive exactly when `a > b` |
| `Order.DescendingInt` | script.js:118 | `d3.descending` on numbers is negative exactly when `a > b` and positive exactly when `a < b` |
| `Seqs.Dedupe` | script.js:25 | `Array.from(new Set(xs))` has no duplicates, holds exactly the elements of `xs`, and is no longer than `xs` |
| `Seqs.DedupeExtends` | script.js:25 | a `Set` keeps insertion order: the distinct elements of `xs` are a prefix of those of `xs + ys` |
| `Records.FilterValid` | script.js:13-14 | every record that passes the filter has a non-empty type, and the filter never lengthens its input |
| `Records.FilterValidCounts` | script.js:13-14 | each record with a non-empty type and a year occurs after the filter exactly as often as its row occurs in the input, and no other record occurs |
| `Records.FilterValidSingle` | script.js:13-14 | a single row is kept, as the record it denotes, exactly when its type is non-empty and its year is not null |
| `Records.FilterValidConcat` | script.js:13-14 | the filter works row by row, so kept rows stay in their original relative order |
| `Records.FilterValidEmpty` | script.js:13-14 | nothing passes the filter exactly when no row has both a non-empty type and a year |
| `Records.CompareRecords` | script.js:16 | the pre-sort comparator is zero exactly for equal records, and negative exactly when the type is below or the types tie and the year is smaller |
| `Records.CompareRecordsFlip` | script.js:16 | swapping the records flips the comparator's sign |
| `Records.CompareRecordsTransitive` | script.js:16 | the pre-sort comparator is transitive |
| `Records.SortRecords` | script.js:15-16 | the pre-sorted data is a permutation of the filtered records, ordered by type ascending and then year ascending |
| `Records.SortedPermutationUnique` | script.js:15-16 | two sorted permutations of the same records are equal, so the pre-sort's result does not depend on the algorithm or its stability |
| `Rollup.YearRowsKeys` | script.js:18-23 | the year level of the rollup over one type's group yields pairwise distinct keys, exactly the group's records |
| `Rollup.YearRowsValues` | script.js:18-23 | each year row's value is the number of records in the group with its (type, year), hence at least one |
| `Rollup.YearRowsTotal` | script.js:18-23 | the year rows' values add up to the group's size |
| `Rollup.Rollup` | script.js:18-23 | the flattened rollup has at most one row per record and is empty exactly when the data is; the lemmas below state its keys, counts and order |
| `Rollup.RollupKeys` | script.js:18-23 | the rollup has one row per (type, year) that occurs in the data, none twice and none invented |
| `Rollup.RollupValues` | script.js:18-23 | every row's value is the number of records with its (type, year), so no row has value 0 |
| `Rollup.RollupTotal` | script.js:18-23 | the values add up to the number of records |
| `Rollup.RollupAscending` | script.js:15-23 | on pre-sorted data the rows are strictly increasing in (type, year) |
| `Categories.SortStrings` | script.js:25 | `.sort(d3.ascending)` on strings yields a permutation of its input in ascending order |
| `Categories.Categories` | script.js:25 | the category list is strictly ascending, has no duplicates, and holds exactly the types of the aggregated rows |
| `Categories.StrictlyAscendingUnique` | script.js:25 | a strictly ascending list is determined by its set of elements |
| `Categories.CategoriesDependOnTypesOnly` | script.js:25-28 | the category list, and so every type's colour, depends only on which types occur |
| `Categories.ColourIndex` | script.js:26-27 | the ordinal scale's domain index of a type is the position of its first occurrence in the category list |
| `Categories.ColourSlot` | script.js:26-28 | with a range of `Math.max(n, 1)` colours, the range slot of a category is within the list and names that category |
| `Categories.ColourSlotIsPosition` | script.js:26-28 | in the duplicate-free category list, a category's colour slot is its position |
| `Chart.DataForYear` | script.js:105-109 | the slice for year `y` holds, projected to (type, value), exactly the rows of year `y`, and is empty exactly when no row has that year |
| `Chart.DataForYearConcat` | script.js:105-109 | the slice is taken row by row, so it keeps the table's order |
| `Chart.SliceTypesDistinct` | script.js:105-109 | when the table has one row per (type, year), a year's slice has at most one bar per type |
| `Chart.ParseSortMode` | script.js:114-120 | `'cntAsce'` and only it selects the ascending sort, and `'cntDesc'` and only it selects the descending sort |
| `Chart.StableSort` | script.js:115-118 | the value sort returns a permutation, ordered by the comparator, in which bars of equal value keep their relative order |
| `Chart.SortedGroupsDetermine` | script.js:115-118 | two sorted sequences with the same bars of each value, in the same order, are equal |
| `Chart.StableSortUnique` | script.js:115-118 | any sorted sequence that keeps each value's bars in their input order is the stable sort's result |
| `Chart.StableSortIdempotent` | script.js:115-118 | sorting a sorted slice again changes nothing |
| `Chart.SortedData` | script.js:111-121 | `getSortedData` is a permutation of the year's slice: non-decreasing and stable for `'cntAsce'`, non-increasing and stable for `'cntDesc'`, and the unchanged slice for any other value |
| `Chart.MaxValue` | script.js:131 | `d3.max` of the values is undefined exactly for an empty slice, and otherwise is a value of the slice that no value exceeds |
| `Chart.InitialYUpper` | script.js:58 | the initial upper end is at least 1, is 1 for an empty slice, bounds every value, and is 1 or a value of the slice |
| `Chart.UpdateYUpper` | script.js:131-133 | the upper end on update is at least 1, is 1 for an empty slice, bounds every value, and is 1 or a value of the slice |
| `Chart.YUpperAgree` | script.js:131-133 | the two formulas for the upper end agree on every slice |
| `Chart.YUpperIsMax` | script.js:131-133 | for a non-empty slice of counts the upper end is the largest count |
| `Chart.Step` | script.js:95-103 | a slider change sets the year to the slider's new value and a sort-control change sets the sort mode to the control's new value, each leaving the other field unchanged |
| `Chart.Visible` | script.js:111-124 | the bars of a state are a permutation of the selected year's slice, hold exactly the bars of that year's rows, are non-decreasing for `'cntAsce'` and non-increasing for `'cntDesc'`, and are the slice in table order for any other sort mode |
| `Chart.SortChangeKeepsBars` | script.js:100-103 | changing the sort mode shows the same bars, reordered |
| `Chart.YearChangeShowsYear` | script.js:95-98 | after a slider change the bars are those of the new year |
| `Chart.VisibleBarsHaveColours` | script.js:140-147 | every visible bar's type is in the category list, so the colour scale has a slot for it |
| `Chart.VisibleBandsDistinct` | script.js:123-129 | when the table has one row per (type, year), the band scale's domain has no repeated type in any state |
| `Pipeline.Aggregate` | script.js:13-23 | the aggregated table has at most one row per loaded row and is empty exactly when no loaded row is usable |
| `Pipeline.AggregateCounts` | script.js:13-23 | every aggregated row has a non-empty type, and its value counts the loaded rows with its exact type and year, so it is at least 1 |
| `Pipeline.AggregateKeys` | script.js:13-23 | the aggregated rows' keys are exactly the (type, year) pairs of usable loaded rows, pairwise distinct and strictly ascending |
| `Pipeline.AggregateTotal` | script.js:13-23 | the aggregated values add up to the number of usable loaded rows |
| `Pipeline.AggregateOrderIndependent` | script.js:13-23 | the aggregated table depends only on the multiset of loaded rows, not on their order in the file |
| `Pipeline.VisibleYUpper` | script.js:123-133 | in every state the value axis ends at the largest visible count, or at 1 when the year has no bars |
| `Scenario.ScenarioFiltered` | script.js:13-14 | three usable rows pass the filter in file order |
| `Scenario.ScenarioSorted` | script.js:15-16 | the pre-sort puts Drought 2000 before Flood 2000 and Flood 2001 |
| `Scenario.ScenarioTable` | script.js:13-23 | the three rows aggregate to (Drought, 2000, 1), (Flood, 2000, 1), (Flood, 2001, 1) |
| `Scenario.ScenarioYear2000` | script.js:105-121 | year 2000 in table order shows Drought then Flood |
| `Scenario.ScenarioYear2000Descending` | script.js:117-118 | sorting year 2000 by count descending keeps Drought then Flood, since the counts tie and the sort is stable |
| `Scenario.ScenarioYear2001` | script.js:105-121 | year 2001 shows only Flood |

## Left out

- Loading and parsing the CSV file (script.js:2-9) is I/O. Rows enter the model already parsed, as a type string and an optional year.
- The year coercion `+String(d["Start.Year"]).trim()` (script.js:3) follows JavaScript `Number` semantics, which are floating point. A blank field becomes 0, `"2001.5"` becomes fractional, and hex and exponent forms are accepted. The model takes the coerced year as given: None where the code maps `NaN` to null, and otherwise an integer. Fractional or infinite years are not modelled.
- A missing `Disaster.Type` field (undefined rather than a string) is not modelled. An absent type is represented by the empty string, which the filter treats the same way.
- String order is modelled by Dafny's `char` order (code points). JavaScript compares UTF-16 code units, and the two differ only for characters outside the Basic Multilingual Plane.
- The colours themselves (`d3.quantize(d3.interpolateRainbow, …)`, script.js:26-28) come from floating-point interpolation. A colour is modelled as its slot in the scale's range.
- The ordinal scale grows its domain when asked for an unknown value. That never happens here (`Chart.VisibleBarsHaveColours`), so it is not modelled.
- The band and linear scales' pixel arithmetic (padding, ranges, bandwidth; script.js:52-59, 126-134) is left out. Only the value axis's upper end is modelled.
- SVG and DOM rendering are left out: the keyed join with its enter/update/exit transitions, axes, label styling and tooltips (script.js:40-93, 136-187). The bars and their join keys are modelled as the visible slice and its band domain.
- The event wiring (script.js:44-48, 95-103) is left out. The slider's and sort control's current values become the fields of `Chart.ViewState`, and a change notification becomes `Chart.Event`.
- `console.log` diagnostics (script.js:10-11) are left out.
- `Array.prototype.sort` is stable in the language standard (since ECMAScript 2019). The model assumes that.
