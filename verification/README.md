# Salary dashboards: a Dafny model of the aggregation pipeline

The repository is a set of Streamlit pages over one table of data-area
salaries (year, experience level, employment type, company size, job
title, remote ratio, country of residence, salary in US dollars). Each
page filters the table with four sidebar multiselects and then computes
aggregates for its charts and messages. This project models that pipeline
and proves what the pages rely on:

- the four-way `isin` filter;
- Home's KPI block, with its empty-table fallback;
- the year-over-year growth insight;
- the visual trim at the 0.99 quantile;
- the `groupby(...).mean()` results: yearly evolution, the seniority × company
  size heatmap and the Data Scientist map;
- the `nlargest(10)` rankings;
- the two-role comparison, with the Main Courts `delta` and the Role
  Comparison insight;
- the Main Courts currency switch, which adds a `salario` column to the
  filtered frame in place.

Salaries and means are `real`, so pandas' float arithmetic becomes exact.
A float result that would be infinite or NaN (a division by a zero mean)
or an exception (a missing row) is an `Option` that is `None`.

Modules, one per stage, imported bottom-up:

- `Table`: the record, the table, columns and `Where`, the boolean-mask
  selection every page uses.
- `Order`: the sorted distinct keys pandas gives a `groupby`.
- `Sorting`: ascending and descending sorts. The descending one is stable,
  as `nlargest(keep="first")` is.
- `Stats`: sum, mean, median and mode.
- `Filter`: `filter_data` and `filtrar`.
- `Kpis`: Home's KPIs.
- `Growth`: the growth insight.
- `Trim`: the quantile and the trim.
- `Grouping`: grouped means.
- `Ranking`: top-ten rankings.
- `Comparison`: the role comparison, `delta` and the insight.
- `Currency`: the `salario` column. `Currency.Frame` is a class whose
  `AddSalario` method updates the frame in place.
- `Pages`: the Home page and the Main Courts page assembled from the
  stages. `Pages.MainCourts` runs the Main Courts page step by step over a
  `Frame`.

## Model

| member | source | states |
|---|---|---|
| Table.Salaries | Home.py:107-109 | the salary column has one entry per row, and entry i is row i's salary |
| Table.Column | Home.py:55 | a column has one entry per row, and entry i is the key of row i |
| Table.Where | Home.py:82-87 | a boolean-mask selection is no longer than the table and keeps only rows of the table that pass the mask |
| Table.WhereIsSubseq | Home.py:82-87 | a mask selection is an order-preserving subsequence of the table |
| Table.WhereCounts | Home.py:82-87 | a row passing the mask is kept exactly as many times as it occurs; a row failing it is never kept |
| Table.WhereNarrows | Home.py:82-87 | masking with p and then with a stronger q equals masking with q |
| Table.WhereAll | Home.py:82-87 | a mask that holds for every row keeps the whole table |
| Table.WhereNone | Home.py:82-87 | a mask that holds for no row keeps nothing |
| Table.WhereKeeps | Home.py:82-87 | every row of the table that passes the mask is in the selection |
| Order.IntLessIsStrictTotal | pages/0_Main_Courts.py:108 | the order on years used for the group keys is irreflexive, transitive and total |
| Order.StrLessIsStrictTotal | Home.py:157 | the code-point lexicographic order on strings that pandas sorts group keys by is irreflexive, transitive and total |
| Order.StrLessIrreflexive | Home.py:157 | no string sorts before itself |
| Order.StrLessTransitive | Home.py:157 | string order is transitive |
| Order.StrLessTotal | Home.py:157 | of two different strings, one sorts before the other |
| Order.PairLessIsStrictTotal | pages/0_Main_Courts.py:150 | the lexicographic order on (seniority, company size) pairs is a strict total order |
| Order.InsertKey | Home.py:157 | inserting a key into a key list gives exactly that key and the old keys |
| Order.Keys | Home.py:157 | the group keys of a column are exactly the values occurring in it |
| Order.InsertKeySorted | Home.py:157 | inserting into a strictly ascending key list keeps it strictly ascending |
| Order.KeysSorted | Home.py:157 | the group keys come out strictly ascending, so each occurs once |
| Order.SortedCard | Home.py:123 | a strictly ascending list has as many distinct values as entries |
| Order.NUniqueIsKeyCount | Home.py:123 | `nunique()` of a column equals the number of its group keys |
| Sorting.InsertAsc | Home.py:160 | inserting into a list adds exactly that element to its multiset |
| Sorting.InsertAscSorted | Home.py:160 | inserting into an ascending list keeps it ascending |
| Sorting.SortAsc | Home.py:160 | `sort_values`: a permutation of its input, ascending by the value column |
| Sorting.InsertDesc | Home.py:159 | descending insertion adds exactly that element to the multiset |
| Sorting.InsertDescSorted | Home.py:159 | descending insertion keeps a list descending |
| Sorting.SortDesc | Home.py:159 | the descending sort behind `nlargest` is a permutation of its input, descending by value |
| Sorting.SameElements | Home.py:159 | two lists with the same multiset hold the same elements |
| Sorting.InsertDescTies | Home.py:159 | descending insertion puts the new element ahead of every element with the same value: among equal values, the inserted one comes first and the others keep their order |
| Sorting.SortDescStable | pages/0_Main_Courts.py:204 | the descending sort is stable: for each value, the elements with that value come out in their input order |
| Sorting.SortDescStableAll | pages/0_Main_Courts.py:204 | stability, for every value at once |
| Sorting.TiesOfPrefix | pages/0_Main_Courts.py:204 | for each value, the elements of a prefix with that value are the first elements of the whole list with that value |
| Stats.MaxOf | Home.py:109 | `max()` is an entry of the column and no entry exceeds it |
| Stats.MinOf | Home.py:142 | the minimum is an entry of the column and no entry is below it |
| Stats.Mean | Home.py:107 | `mean()`: the sum over the count; its bounds are stated by Stats.MeanBounds and its scaling by Stats.MeanScales |
| Stats.SumBounds | Home.py:107 | n·min ≤ sum ≤ n·max |
| Stats.MeanWithin | Home.py:107 | the mean of a non-empty column lies between any lower and any upper bound of its entries |
| Stats.MeanBounds | Home.py:107 | `mean()` lies between the smallest and the largest salary |
| Stats.SumScales | pages/0_Main_Courts.py:77 | scaling every entry by c scales the sum by c |
| Stats.MeanScales | pages/0_Main_Courts.py:77 | scaling every entry by c scales the mean by c |
| Stats.Median | Home.py:108 | `median()` (the middle sorted value, or the mean of the two middle ones) lies between min and max |
| Stats.PickMode | Home.py:111 | the chosen candidate is a candidate; none occurs more often; among equally frequent ones it sorts first |
| Stats.Mode | Home.py:111 | `mode().iloc[0]` is a title of the column; no title is more frequent; of the equally frequent titles it is the first in sorted order |
| Filter.FilterKeepsMatchingRows | Home.py:81-87 | the filter keeps a row exactly when its year, experience level, employment type and company size are all selected; it keeps it as often as it occurs, in table order |
| Filter.FilterData | Home.py:81-87 | `filter_data`/`filtrar`: the four-way `isin` mask; what it keeps is stated by Filter.FilterKeepsMatchingRows and Filter.FilterIdempotent |
| Filter.DefaultSelection | Home.py:53-75 | the sidebar defaults, `sorted(unique())` of each filter column; Filter.DefaultSelectionCovers states that they keep every row |
| Filter.FilterIdempotent | pages/0_Main_Courts.py:65-71 | filtering twice with the same selection equals filtering once |
| Filter.EmptyListSelectsNothing | Home.py:81-87 | clearing any one of the four lists empties the result |
| Filter.CoveringSelectionKeepsAll | Home.py:81-87 | with every observed value selected, the filter returns the whole table |
| Filter.DefaultSelectionCovers | Home.py:53-75 | the default selections (every observed value, sorted) cover every row, so the filter keeps the whole table |
| Kpis.Summarize | pages/0_Main_Courts.py:96-99 | the count is the row count; the maximum is a salary of the table and no salary exceeds it; mean and median lie between the smallest salary and the maximum |
| Kpis.HomeKpis | Home.py:102-111 | an empty table gives 0, 0, 0, 0 and "-"; otherwise the count is the row count, median ≤ max, mean ≤ max, every salary ≤ max, and the title is a title of the table with no title more frequent |
| Growth.PctChanges | Home.py:127 | `pct_change()` without its leading NaN has one entry per consecutive pair, m[i+1]/m[i] − 1 |
| Growth.AverageGrowth | Home.py:124-129 | `pct_change().mean() * 100` over the yearly means; its definedness and sign are stated by Growth.GrowthDefined, Growth.RisingMeansGrow and Growth.FallingMeansShrink |
| Growth.Growth | Home.py:123-134 | the insight, shown only for a non-empty table with more than one year; stated by Growth.GrowthDefined, Growth.RisingMeansGrow and Growth.FallingMeansShrink |
| Growth.GrowthDefined | Home.py:123-129 | the insight exists exactly when the table has more than one distinct year and no yearly mean but the last is 0 |
| Growth.RisingMeansGrow | Home.py:131-132 | positive, strictly rising yearly means are reported as growth (a positive percentage) |
| Growth.FallingMeansShrink | Home.py:133-134 | positive, strictly falling yearly means are reported as a decrease (a negative percentage) |
| Growth.TenPercentExample | Home.py:124-129 | yearly means 100, 110, 121 give 10% per year |
| Growth.AverageOfChangesExample | Home.py:124-129 | means 100, 200, 100 give +25%: the figure averages the period changes, it is not the first-to-last change |
| Trim.Quantile | Home.py:142 | `quantile(q)` with linear interpolation lies between the smallest and the largest salary |
| Trim.Interpolate | Home.py:142 | interpolating at a position of a sorted column gives a value between two of its entries |
| Trim.Position | Home.py:142 | the position (n − 1)·q lies inside the sorted column |
| Trim.InRange | Home.py:142 | a value between two entries of a permutation of s lies between min(s) and max(s) |
| Trim.TrimOutliers | Home.py:141-145 | an empty table passes unchanged; otherwise the trim keeps an order-preserving, non-empty subsequence whose salaries are all ≤ the 0.99 quantile, and keeps every row at or below it |
| Grouping.MembersExact | Home.py:157-158 | the rows of a group are exactly the table's rows carrying its key |
| Grouping.MembersNonEmpty | Home.py:157-158 | a key of the table has at least one row, so its mean is defined |
| Grouping.GroupMean | pages/0_Main_Courts.py:108 | one group's mean salary; Grouping.GroupRowMean states it is the mean of exactly that key's rows, between their min and max |
| Grouping.GroupMeans | Home.py:157-158 | `groupby(key)[salary].mean()`; stated by Grouping.GroupKeysAscending, Grouping.GroupCount, Grouping.GroupCoverage and Grouping.GroupEntries |
| Grouping.MeansFor | Home.py:157-158 | one entry per requested key, holding that key and its mean |
| Grouping.GroupKeysAscending | Home.py:157-158 | the grouped result's keys are strictly ascending |
| Grouping.GroupCount | Home.py:157-158 | the grouped result has as many rows as the key column has distinct values |
| Grouping.KeysOf | Home.py:157-158 | the key column of a grouped result, row by row |
| Grouping.MeansOf | Home.py:124-127 | the mean column of a grouped result, row by row |
| Grouping.GroupCoverage | Home.py:157-158 | a key has a row in the grouped result exactly when it occurs in the table |
| Grouping.GroupEntries | Home.py:157-158 | every row of the grouped result is a key of the table with that key's mean salary |
| Grouping.GroupRowMean | pages/0_Main_Courts.py:108 | each group's mean is the mean of exactly the rows with its key, and lies between their smallest and largest salary |
| Grouping.YearlyMeans | pages/0_Main_Courts.py:108 | the yearly evolution; stated by Grouping.YearlyEvolution |
| Grouping.YearlyEvolution | pages/0_Main_Courts.py:108 | one row per distinct year of the table and no other year, in ascending year order |
| Grouping.SeniorityBySizeMeans | pages/0_Main_Courts.py:149-153 | the two-key heatmap groupby; stated by Grouping.HeatmapObservedPairsOnly and Grouping.HeatmapRowCount |
| Grouping.HeatmapObservedPairsOnly | pages/0_Main_Courts.py:149-153 | the heatmap has a row for a (seniority, company size) pair exactly when that pair occurs in the table, not for the full cross product |
| Grouping.HeatmapRowCount | pages/0_Main_Courts.py:149-153 | exactly one row per observed pair |
| Grouping.DataScientistByCountry | Home.py:207-215 | the map is absent exactly when no visible row has the title "Data Scientist"; otherwise it has a country exactly when a visible Data Scientist row has that country, countries ascending, each with the mean salary of exactly the visible Data Scientist rows of that country |
| Grouping.NoDataScientist | Home.py:207-208 | the Data Scientist rows are empty exactly when no row has that title |
| Grouping.DsRowsExact | Home.py:207-210 | a row is a Data Scientist row of country c exactly when it is a row of the table with that title and country |
| Grouping.DataScientistKeys | Home.py:207-210 | the map's countries are exactly those of the Data Scientist rows |
| Grouping.DataScientistMeans | Home.py:207-210 | each country of the map carries the mean salary of the Data Scientist rows of that country, of which there is at least one |
| Ranking.PrefixDominates | Home.py:159 | every entry of a descending list's prefix is at least every entry left out |
| Ranking.NLargest | pages/0_Main_Courts.py:204 | `nlargest(n)` returns min(n, size) rows drawn from its input, in descending order; every row left out has a mean no higher than every row kept; and, as `keep="first"`, for each mean the kept rows with that mean are the first rows of the input with it, in input order |
| Ranking.TopOfSorted | pages/0_Main_Courts.py:204 | a prefix of a descending permutation is drawn from the input, descending, and dominates the rest; if the permutation keeps equal means in input order, so does the prefix |
| Ranking.TopForDisplay | Home.py:159-160 | the top-ten rows re-sorted ascending: the same rows as `nlargest(10)`, ascending by mean |
| Ranking.TopTitles | Home.py:156-161 | the top-ten chart; stated by Ranking.TopTitlesSpec |
| Ranking.TopTitlesSpec | Home.py:156-161 | the top titles are min(10, number of distinct titles) titles of the table with their means, no title left out has a higher mean, and they are ascending by mean |
| Ranking.CountryRanking | pages/0_Main_Courts.py:201-206 | the country ranking; stated by Ranking.CountryRankingSpec |
| Ranking.CountryRankingSpec | pages/0_Main_Courts.py:201-206 | min(10, number of countries) countries of the table with their means, highest first; no country left out earns a higher mean; among countries with equal means the ones kept are the first in country order |
| Ranking.KeepFirstOnTie | pages/0_Main_Courts.py:204 | on a tie at the cut, `nlargest` keeps the group listed first |
| Comparison.StatsFor | pages/3_Role_Comparison.py:33-38 | one row per requested role, each holding that role's mean and median over all its rows |
| Comparison.StatsOf | pages/3_Role_Comparison.py:36 | `agg(mean, median)` for one role: both are taken over the non-empty set of exactly the table's rows of that role, and both lie between the smallest and the largest of their salaries |
| Comparison.RolesOf | pages/3_Role_Comparison.py:62 | the role column of the comparison, row by row |
| Comparison.SelectedRoles | pages/3_Role_Comparison.py:34 | a role occurs in the `isin([a, b])` selection exactly when it is a or b and occurs in the table |
| Comparison.SelectedMembers | pages/3_Role_Comparison.py:34-35 | a selected role has the same rows in the selection as in the whole table |
| Comparison.ComparedRolesSpec | pages/3_Role_Comparison.py:33-38 | the comparison holds at most two roles, strictly ascending, exactly those of a and b that occur in the table |
| Comparison.AtMostTwo | pages/3_Role_Comparison.py:34 | a strictly ascending list of roles drawn from two has at most two entries |
| Comparison.CompareRoles | pages/3_Role_Comparison.py:33-38 | the comparison table; stated by Comparison.CompareRolesSpec, Comparison.CompareRolesSymmetric and Comparison.TwoRowsIffBothRoles |
| Comparison.RolesInOrder | pages/0_Main_Courts.py:175-180 | when c1 sorts before c2 and both occur, the comparison's rows are c1's and then c2's |
| Comparison.RowsInOrder | pages/0_Main_Courts.py:175-180 | when c1 sorts before c2 and both occur, the comparison has two rows, c1's first |
| Comparison.TwoRowsIffBothRoles | pages/0_Main_Courts.py:175-180 | the comparison has two rows exactly when the two selected roles differ and both occur; otherwise it has fewer |
| Comparison.TwoKeys | pages/0_Main_Courts.py:175-180 | strictly ascending keys that are exactly those of a and b present number two exactly when a ≠ b and both are present |
| Comparison.CompareRolesSpec | Home.py:241-246 | at most two rows, in strictly ascending role order, one for each selected title that occurs, each with that title's mean and median over all its rows |
| Comparison.MeanFor | pages/3_Role_Comparison.py:62-63 | looking a role up by name finds a mean exactly when the role has a row, and the mean is that row's |
| Comparison.LookupByName | pages/3_Role_Comparison.py:62-63 | a selected role's lookup succeeds exactly when the role occurs in the table, and yields its whole-table mean |
| Comparison.CompareRolesSymmetric | pages/3_Role_Comparison.py:33-38 | choosing (a, b) or (b, a) gives the same comparison table |
| Comparison.SelectionSymmetric | pages/3_Role_Comparison.py:34 | `isin([a, b])` and `isin([b, a])` select the same rows |
| Comparison.PctOver | pages/0_Main_Courts.py:193 | (x / base − 1)·100 is the percentage p with x = base·(1 + p/100) |
| Comparison.DeltaByPosition | pages/0_Main_Courts.py:193 | `delta` as written: defined exactly when the comparison has two rows and the first mean is nonzero, and then row 1's mean is row 0's grown by delta percent |
| Comparison.DeltaByPositionSpec | pages/0_Main_Courts.py:175-193 | over a table, the delta as written exists exactly when the roles differ, both occur and the mean of the one that sorts first is nonzero; then row 0 is the role that sorts first and row 1 the other, whichever was selected first |
| Comparison.DeltaBySelection | pages/0_Main_Courts.py:193-194 | the corrected delta, c2's mean over c1's looked up by name; stated by Comparison.DeltaFromLookups and Comparison.DeltaBySelectionDefined |
| Comparison.DeltaFromLookups | pages/0_Main_Courts.py:193-194 | the corrected delta is defined exactly when c1 ≠ c2, both are found by name and c1's mean is nonzero, and then c2's mean is c1's grown by delta percent |
| Comparison.DeltaBySelectionDefined | pages/0_Main_Courts.py:193-194 | over a table, the corrected delta exists exactly when c1 and c2 are distinct roles of the table and c1's mean is nonzero |
| Comparison.DeltaAgreesInRoleOrder | pages/0_Main_Courts.py:193-194 | when c1 sorts before c2, the delta as written equals the corrected one |
| Comparison.PositionIsSelection | pages/0_Main_Courts.py:193-194 | in a two-row comparison whose rows are c1's and then c2's, the delta as written equals the corrected one |
| Comparison.MeanForPair | pages/3_Role_Comparison.py:62-63 | in a two-row comparison with distinct roles, a lookup by either name finds its row |
| Comparison.DeltaByPositionReversed | pages/0_Main_Courts.py:193-194 | with c1 = "B" earning 100 and c2 = "A" earning 200, the delta as written is −50 and the intended one is +100 |
| Comparison.ExampleMeans | pages/0_Main_Courts.py:175-180 | the example table's roles "A" and "B" have means 200 and 100 |
| Comparison.RelativeDiff | pages/3_Role_Comparison.py:65 | the difference p satisfies avg_a = avg_b·(1 + p/100), and for a positive avg_b it is positive exactly when avg_a > avg_b |
| Comparison.RoleInsight | pages/3_Role_Comparison.py:61-69 | the insight message; stated by Comparison.InsightFromLookups and Comparison.RoleInsightSpec |
| Comparison.InsightFromLookups | pages/3_Role_Comparison.py:61-69 | the insight exists exactly when a ≠ b, both are found and avg_b ≠ 0; then avg_a = avg_b·(1 + diff/100), it says "more" exactly when diff > 0 and, for avg_b > 0, exactly when avg_a > avg_b |
| Comparison.RoleInsightSpec | pages/3_Role_Comparison.py:61-69 | over a table, the insight exists exactly when a and b are distinct roles of it and b's mean is nonzero; for a positive mean of b it says "more" exactly when a's mean is higher |
| Currency.Converted | pages/0_Main_Courts.py:77 | the same rows in the same order, each with its salary replaced by `salario` |
| Currency.Salario | pages/0_Main_Courts.py:76-77 | one `salario` value; stated by Currency.UsdIsIdentity and Currency.EuroSalaries |
| Currency.WithSalaries | pages/0_Main_Courts.py:77 | the rows with row i's salary replaced by entry i of the new column |
| Currency.Frame.View | pages/0_Main_Courts.py:77 | the frame as the aggregates read it: row i with `salario[i]` as its salary |
| Currency.Frame.AddSalario | pages/0_Main_Courts.py:76-77 | adds `salario` in place: the rows are unchanged, and `salario[i]` is row i's `usd` in USD and `usd` × 0.92 in EUR |
| Currency.UsdIsIdentity | pages/0_Main_Courts.py:77 | in US dollars the converted table is the table itself |
| Currency.ConvertedKeepsColumns | pages/0_Main_Courts.py:77 | converting changes no column but the salary |
| Currency.EuroSalaries | pages/0_Main_Courts.py:76-77 | each salary in euros is 0.92 times the USD salary |
| Currency.EuroMean | pages/0_Main_Courts.py:96 | the mean salary in euros is 0.92 times the mean in dollars |
| Currency.ConvertCommutes | pages/0_Main_Courts.py:65-77 | a selection that ignores the salary picks the same rows before or after the conversion |
| Currency.FilterThenConvert | pages/0_Main_Courts.py:65-77 | filtering and then converting equals converting and then filtering |
| Currency.EuroGroupMean | pages/0_Main_Courts.py:108 | a group's mean in euros is 0.92 times its mean in dollars |
| Pages.HomeEmptyFallback | Home.py:102-246 | Home shows the zero KPIs exactly when no row passes the filter, and then no insight, chart, map or comparison; otherwise its KPIs count the filtered rows, and it shows a top-ten chart and a comparison of at most two titles |
| Pages.Home | Home.py:81-246 | the Home page; stated by Pages.HomeEmptyFallback, Pages.HomeChartsHideOnlyOutliers and Pages.DefaultHome |
| Pages.HomeChartsHideOnlyOutliers | Home.py:141-145 | the charts' rows are filtered rows in order; every filtered row at or below the quantile is among them; the KPIs still count every filtered row |
| Pages.KpiMaximumIncludesOutliers | Home.py:107-145 | with salaries 100 and 1000, the charts keep only the 100 row but the maximum KPI is 1000 |
| Pages.TrimExample | Home.py:141-145 | with salaries 100 and 1000 (0.99 quantile 991) the trim drops the 1000 row |
| Pages.QuantileExample | Home.py:142 | the 0.99 quantile of 100 and 1000 is 991 |
| Pages.DefaultHome | Home.py:53-129 | with the default selections, the Home KPIs and growth are those of the whole table |
| Pages.MainCourts | pages/0_Main_Courts.py:65-206 | running the page step by step (filter, add `salario` in place, stop if empty, aggregate) gives the report of the specification function, with the delta as written and no ranking when `comp.loc[1]` raises |
| Pages.ReportOf | pages/0_Main_Courts.py:96-206 | the Main Courts report over non-empty converted rows; stated by Pages.MainStopsWhenEmpty, Pages.MainDeltaDefined and Pages.EuroRescalesReport |
| Pages.MainCourtsReport | pages/0_Main_Courts.py:65-206 | the Main Courts page; stated by Pages.MainStopsWhenEmpty, Pages.MainDeltaDefined, Pages.MainDeltaInRoleOrder and Pages.EuroRescalesReport |
| Pages.MainStopsWhenEmpty | pages/0_Main_Courts.py:90-206 | the page stops exactly when the filter keeps no row; otherwise its KPIs count the filtered rows, its comparison has at most two roles, each with the mean and median of its filtered rows, and the country ranking is reached exactly when the two roles differ and both have filtered rows |
| Pages.MainDeltaDefined | pages/0_Main_Courts.py:175-194 | the percentage is shown exactly when both roles have filtered rows, differ, and the mean of the one that sorts first is nonzero; it then gives how much the role that sorts second earns over the one that sorts first, whichever was selected as c1 |
| Pages.MainDeltaInRoleOrder | pages/0_Main_Courts.py:193-194 | when c1 sorts before c2, the page's percentage is the one its message describes |
| Pages.MainDeltaReversed | pages/0_Main_Courts.py:193-194 | on the page, with "B" earning 100 and "A" earning 200, c1 = "B" and c2 = "A", the percentage is −50 where the message calls for +100 |
| Pages.ConvertedColumn | pages/0_Main_Courts.py:77 | converting leaves every non-salary column as it was |
| Pages.EuroGroupMeans | pages/0_Main_Courts.py:108-206 | in euros every grouped result has the same keys in the same order, with each mean 0.92 times the dollar mean |
| Pages.EuroRescalesReport | pages/0_Main_Courts.py:76-108 | switching to euros keeps the row count and the years, and multiplies the average and every yearly mean by 0.92 |

## Left out

- Rendering: Streamlit widgets, layout, metric formatting and all Plotly
  charts (bar, histogram binning, pie, choropleth, density heatmap). These
  are presentation only.
- The remote-ratio `value_counts` of Home.py:191-192 and the histogram
  feed only charts. pages/1_Overview.py and pages/2_Work_Mode.py are not
  part of this model: each is one pandas call feeding a chart.
- I/O: CSV loading, the filtered-data download and the required-columns
  check (Home.py:44-46, pages/0_Main_Courts.py:45-47). The record datatype
  always has every column.
- `st.cache_data` and `cache_data.clear()`: caching has no observable
  effect on the results.
- Widget defaults are parameters:
  - the selectbox defaults (`index=1`) and the choice of job titles are
    parameters `a`, `b`, `c1`, `c2`, which may be any strings;
  - the currency radio is the parameter `m`.
  The Main Courts page passes the unsorted `unique()` as the default
  multiselect values. Order does not matter to `isin`, so
  `Filter.DefaultSelection` covers both pages with sorted lists.
- Float behaviour: salaries are exact reals. Rounding, NaN and infinity are
  not modelled. A result pandas would make infinite or NaN, or an exception
  such as the KeyError of `comp.loc[1]` or the IndexError of `.values[0]`,
  is a `None` result. On the Main Courts page an infinite or NaN `delta`
  does not stop the page, so the country ranking is still shown; the
  KeyError does stop it, and the report then has no ranking.
- Growth.GrowthDefined: the insight is `None` whenever a yearly mean other
  than the last is 0. pandas gives an infinite change for x / 0 with x ≠ 0,
  but a NaN for 0 / 0, which `mean()` skips: with yearly means 100, 0, 0 the
  page shows −100.0% where the model has `None`. The model does not give
  the skipped-NaN average.
- Ranking.TopForDisplay: the ascending re-sort uses pandas' default,
  unstable sort. Only ascending order and the set of rows are claimed,
  not the order of equal means.
- Comparison.DeltaBySelectionDefined and Comparison.RoleInsightSpec, stated
  over a table, give the definedness condition and the direction of the
  message. The numeric relation between the percentage and the two
  whole-table means is stated by DeltaFromLookups and InsightFromLookups
  over the looked-up means, together with LookupByName, which says the
  looked-up mean is the whole-table mean.
- Pages.EuroRescalesReport states the rescaling for the average and the
  yearly means. That the other grouped results (heatmap, top roles,
  ranking) rescale the same way is stated generically by
  Pages.EuroGroupMeans.

## Findings

| source | as written | input that shows it | evidently intended | confidence | as-written member | corrected member |
|---|---|---|---|---|---|---|
| pages/0_Main_Courts.py:193-194 | `delta` divides the mean of row 1 by the mean of row 0 of `comp`, whose rows are in sorted role order, not in the order c1, c2 | c1 = "B" (mean 100), c2 = "A" (mean 200): the message says "A pays on average -50.0% more than B" | the message's "c2 pays delta% more than c1" needs mean(c2) / mean(c1) − 1, which is +100% here | not executed | Comparison.DeltaByPosition, Comparison.DeltaByPositionReversed | Comparison.DeltaBySelection, Comparison.DeltaFromLookups |

The Main Courts page model (`Pages.ReportOf`) keeps the delta as written
(`Comparison.DeltaByPosition`), and `Pages.MainDeltaReversed` shows the
discrepancy on the page itself. The corrected delta is
`Comparison.DeltaBySelection`, with its properties in
`Comparison.DeltaFromLookups` and `Comparison.DeltaBySelectionDefined`.
`Comparison.DeltaAgreesInRoleOrder` and `Pages.MainDeltaInRoleOrder` show
that the two coincide whenever c1 sorts before c2.
