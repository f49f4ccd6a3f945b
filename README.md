# Player involvement dashboard, modelled in Dafny

`Player_involvement_App.py` is a Streamlit dashboard over a spreadsheet of
football player statistics. It loads the table once and works through it as a
pandas data frame:

- For each of thirteen metrics (OBV, Key Passes, Shots, xG, ...) that is a
  column, it adds `Team M`, the sum of the metric over the player's team. It
  also adds `M Contribution`, the player's share of that total in percent,
  rounded to two decimals.
- It rounds `Minutes Played` to whole minutes. When `Matches` exists, it adds
  `Available Minutes` (90 per match). When `Minutes Played` exists as well, it
  adds `Usage` (minutes played as a percentage of available minutes).
- It offers "All" plus the distinct positions, competitions and teams as
  sidebar choices. The team choices depend on the chosen competitions.
- It filters the rows by an age range, a usage range and three multi-selects.
- It keeps the display columns that exist and renders every contribution as
  `"12.34%"`, or `"N/A"` when the value is missing.

The project models that pipeline:

- **`Numbers`**: numpy's round-half-to-even and Python's `%.2f`, on exact
  reals.
- **`Cells`**: a cell is a number, a signed infinity, NaN or text. This module
  holds the float arithmetic pandas applies column by column.
- **`Seqs`**: order-preserving selection (boolean masks) and first-appearance
  de-duplication (`Series.unique`).
- **`Tables`**: a table as a value, with column assignment and column
  selection.
- **`Derivation`**: the columns added before filtering.
- **`Filtering`**: the sidebar option lists and the row filter.
- **`Presentation`**: the projection and the percentage formatting.
- **`Dashboard`**: the script itself, built on a `Frame` class.
  - `Frame` is a data frame whose columns are assigned in place. Its methods
    are proved equal to the table functions above.
  - `Run` takes the loaded table and the user's choices. It returns the three
    option lists and the table on screen.

Three behaviours of the script are easy to misread:

- A nonzero metric over a zero team total divides to an infinity. `pd.isna` is
  false for an infinity, so the cell shows `"inf%"` or `"-inf%"`, not
  `"N/A"`. Only `0 / 0` and missing values show `"N/A"`.
- With no competition chosen, the team list is just `["All"]`. It is not every
  team, as it is when "All" is chosen.
- Usage is never formatted. For zero available minutes it stays an infinity,
  or NaN when no minutes were played. It is not the text `"N/A"`.

Rounding and the `%.2f` rendering are modelled concretely, not as
abstractions. An infinity is kept apart from NaN, because the two render
differently.

## Model

| member | source | states |
|---|---|---|
| Numbers.RoundHalfEven | Player_involvement_App.py:42 | the result is an integer within one half of the argument, and on a tie it is the even neighbour |
| Numbers.Round2 | Player_involvement_App.py:42 | `round(2)` gives a whole number of hundredths within half a hundredth of its argument |
| Numbers.Round0 | Player_involvement_App.py:86 | `round(0)` gives a whole number within one half of its argument |
| Numbers.Round2Idempotent | Player_involvement_App.py:42 | rounding an already rounded contribution again changes nothing |
| Numbers.Decimal | Player_involvement_App.py:139 | the decimal digits of a whole number are nonempty digits with no leading zero |
| Numbers.DecimalRoundTrip | Player_involvement_App.py:139 | reading the decimal digits of `n` back gives `n` |
| Numbers.FormatFixed2 | Player_involvement_App.py:139 | `%.2f` text has a point before its last two digits, and starts with '-' exactly for negative values |
| Numbers.FormatFixed2RoundTrip | Player_involvement_App.py:139 | the `%.2f` text of `x` denotes exactly `x` rounded half-to-even to two decimals |
| Cells.Divide | Player_involvement_App.py:41 | float division never yields text; for two numbers the result is a number iff the divisor is nonzero, and then quotient times divisor gives the dividend; `0/0` is NaN and `x/0` for nonzero `x` is an infinity with the sign of `x`; NaN or text operands give NaN |
| Cells.Scale | Player_involvement_App.py:41 | multiplying by 100 keeps numbers numbers (scaled), infinities infinities and gives NaN otherwise |
| Cells.RoundCell2 | Player_involvement_App.py:42 | `Series.round(2)` rounds numbers and leaves NaN and infinities as they are |
| Cells.RoundCell0 | Player_involvement_App.py:86 | `Series.round(0)` rounds numbers and leaves NaN and infinities as they are |
| Cells.PercentText | Player_involvement_App.py:139 | the rendered cell is "N/A" iff the value is NaN, otherwise it ends in '%', and for a number the text before '%' reads back as the number rounded to two decimals; an infinity renders as "inf%" or "-inf%" |
| Seqs.Where | Player_involvement_App.py:96-111 | boolean-mask selection keeps exactly the elements satisfying the mask, with their multiplicities, as an order-preserving subsequence |
| Seqs.WhereWhere | Player_involvement_App.py:101-111 | narrowing a selection by a second mask equals selecting once by the conjunction |
| Seqs.WhereCommute | Player_involvement_App.py:101-111 | the order in which the masks are applied does not matter |
| Seqs.WhereIdempotent | Player_involvement_App.py:96-111 | applying the same mask twice equals applying it once |
| Seqs.Unique | Player_involvement_App.py:66 | `unique()` holds each value of the column exactly once and nothing else |
| Seqs.UniquePrefix | Player_involvement_App.py:66 | the distinct values of a prefix are a prefix of the distinct values, so values appear in first-appearance order |
| Tables.WithColumn | Player_involvement_App.py:40 | `df[name] = values` keeps the column list when the label exists and otherwise appends the new label at the end, sets the column to `values` row by row and changes no other cell |
| Tables.ColumnValues | Player_involvement_App.py:66 | a column holds one cell per row, and a value is in it iff some row has it |
| Tables.Project | Player_involvement_App.py:133 | `df[labels]` has exactly the requested columns in the requested order, the same rows, and the same cells under those columns |
| Derivation.MetricsDistinct | Player_involvement_App.py:29-35 | the thirteen metric names are pairwise different |
| Derivation.LabelsArePlain | Player_involvement_App.py:29-35 | no metric name or fixed column label looks like a derived label (`Team ...` or `... Contribution`) |
| Derivation.DerivedInjective | Player_involvement_App.py:40-41 | different metrics get different `Team M` labels and different `M Contribution` labels |
| Derivation.GroupSum | Player_involvement_App.py:40 | the sum of a metric over a team, NaN skipped, is zero for a team with no rows |
| Derivation.GroupSumNonNegative | Player_involvement_App.py:40 | a team whose metric is never negative has a total that is not negative |
| Derivation.TeamTotalCell | Player_involvement_App.py:40 | a row's team total is NaN exactly when its Team is missing, and otherwise a finite number |
| Derivation.TeamTotals | Player_involvement_App.py:40 | `transform("sum")` gives one cell per row, NaN exactly for rows without a team, and the same total to every row of one team |
| Derivation.Ratios | Player_involvement_App.py:41 | the ratio column holds no text; for a numeric metric and total it is a number exactly when the total is not zero; a missing metric or total gives NaN |
| Derivation.Rounded | Player_involvement_App.py:42 | `round(2)` of a column keeps which cells are numbers, moves each number by at most half a hundredth and leaves NaN and infinities as they are |
| Derivation.ContributionCell | Player_involvement_App.py:41-42 | a contribution is never text, and is NaN when the metric or the team total is missing |
| Derivation.RatioStep | Player_involvement_App.py:40-41 | before rounding, the new cells are the team total and 100 * m / total; all other cells are unchanged |
| Derivation.DeriveMetric | Player_involvement_App.py:39-42 | a metric that is not a column changes nothing; otherwise exactly `Team M` and `M Contribution` are added, holding the team total and the rounded share, and every other cell is kept |
| Derivation.TeamMetrics | Player_involvement_App.py:38-42 | the loop keeps every row and every column and preserves well-formedness |
| Derivation.TeamMetricsKeepPlain | Player_involvement_App.py:38-42 | a column that is not a derived label keeps its presence and all its cells through the loop |
| Derivation.TeamMetricsUntouched | Player_involvement_App.py:38-42 | a column that is not the derived label of a present metric is left untouched, including a preexisting `Team M` of an absent metric |
| Derivation.TeamMetricsNewColumns | Player_involvement_App.py:38-39 | `Team M` and `M Contribution` exist afterwards iff they existed before or M is a listed metric present as a column |
| Derivation.TeamMetricsTotals | Player_involvement_App.py:38-42 | after the loop, each row's `Team M` is the sum of M over all rows of its team in the table as loaded (NaN for a row without a team), and its contribution is computed from that total |
| Derivation.TeamTotalShared | Player_involvement_App.py:40 | rows of the same team carry the same team total |
| Derivation.ContributionMeaning | Player_involvement_App.py:41-42 | a contribution is 100 * m / total rounded to two decimals; for a zero total it is not a number, and it is NaN exactly when m is 0; a missing m gives NaN |
| Derivation.ZeroTotalShowsInfinity | Player_involvement_App.py:41-42 | a nonzero metric over a zero team total is an infinity with the metric's sign, and shows at line 139 as "inf%" or "-inf%", not "N/A" |
| Derivation.ShareSum | Player_involvement_App.py:41 | the exact shares of one team add up to the team sum as a percentage of the total |
| Derivation.ExactContributionsSumTo100 | Player_involvement_App.py:40-41 | before rounding, the contributions of a team with a nonzero total add up to exactly 100 |
| Derivation.RoundedShare | Player_involvement_App.py:42 | a rounded share lies within half a hundredth of the exact share |
| Derivation.RoundedShareSum | Player_involvement_App.py:42 | the rounded shares of a team lie within half a hundredth per team row of the exact shares |
| Derivation.ContributionsNearHundred | Player_involvement_App.py:38-42 | after the loop, the contributions of a team with a nonzero total add up to 100 within 0.005 per player of the team |
| Derivation.ContributionExample | Player_involvement_App.py:38-42 | rows (A, 10), (A, 30), (B, 5) give team totals 40, 40, 5 and contributions 25, 75, 100 |
| Derivation.WithUsage | Player_involvement_App.py:85-93 | `Available Minutes` exists afterwards iff it did or Matches is a column; `Usage` is added iff Matches and Minutes Played are columns, and then holds no text; no other column is added or changed, and Usage is untouched when it is not recomputed |
| Derivation.WholeMinutes | Player_involvement_App.py:86 | `round(0)` of Minutes Played keeps which cells are numbers and makes each a whole number within half a minute |
| Derivation.AvailableMinutes | Player_involvement_App.py:90 | Available Minutes is 90 times a numeric Matches, and not a number when Matches is not one |
| Derivation.UsageCells | Player_involvement_App.py:93 | the usage column holds no text; for numeric operands it is a number exactly when the available minutes are not zero; a missing operand gives NaN |
| Derivation.MinutesRounded | Player_involvement_App.py:85-86 | Minutes Played is rounded whenever the column exists, with or without Matches, and is left alone otherwise |
| Derivation.AvailableOfRow | Player_involvement_App.py:89-90 | Available Minutes is 90 times Matches whenever Matches is a column, whatever Minutes Played holds, and is left as it was when Matches is absent |
| Derivation.UsageMissingOperand | Player_involvement_App.py:89-93 | a missing Matches or Minutes Played cell gives a missing Usage, and a missing Matches a missing Available Minutes |
| Derivation.UsageOfRow | Player_involvement_App.py:85-93 | Available Minutes is 90 per match, Minutes Played becomes whole, and Usage is 100 * whole minutes / available minutes rounded to two decimals; for zero matches Usage is not a number, and it is NaN exactly when no whole minute was played |
| Derivation.UsageCell | Player_involvement_App.py:93 | one usage cell from minutes and matches, with the same cases as UsageOfRow |
| Derivation.UsageExample | Player_involvement_App.py:90-93 | 10 matches and 450 minutes give 900 available minutes and usage 50 |
| Filtering.Filtered | Player_involvement_App.py:96-111 | the kept rows are an order-preserving subsequence of the input; a row is kept iff its Age and Usage lie in the ranges (NaN never does) and each multi-select is empty, contains "All" or contains the row's value; multiplicities are kept |
| Filtering.Keep | Player_involvement_App.py:96-111 | a kept row has numeric Age and Usage (NaN and infinities never pass both bounds), and a row can be kept only when both ranges are nonempty |
| Filtering.FilterRows | Player_involvement_App.py:96-111 | the step-by-step masking of the script yields exactly the filtered rows under the same columns |
| Filtering.FilterIdempotent | Player_involvement_App.py:96-111 | filtering twice with the same choices equals filtering once |
| Filtering.DefaultSelectionKeeps | Player_involvement_App.py:48-111 | with the sliders at their initial positions and no multi-select choice, a row is kept exactly when its Age is a number in 15..35 and its Usage a number in 0..140 |
| Filtering.EmptyRangeKeepsNothing | Player_involvement_App.py:96-99 | an age range or usage range with min > max keeps no row |
| Filtering.SingleAgeRange | Player_involvement_App.py:97 | with age_min = age_max, every kept row has exactly that age |
| Filtering.AllIsNoRestriction | Player_involvement_App.py:102-111 | when no multi-select restricts, only the two ranges filter |
| Filtering.AllAmongTeams | Player_involvement_App.py:110-111 | choosing "All" alongside other teams is the same as choosing no team |
| Filtering.Options | Player_involvement_App.py:66 | the option list starts with "All" and then lists each value of the column exactly once and nothing else |
| Filtering.OptionsFirstAppearance | Player_involvement_App.py:66 | the options of the first rows are a prefix of the options of the whole table |
| Filtering.InCompetitions | Player_involvement_App.py:78 | `isin(selected_competitions)` keeps exactly the rows whose Competition is chosen |
| Filtering.OptionsCongruent | Player_involvement_App.py:66 | an option list depends only on the column it reads |
| Filtering.TeamOptions | Player_involvement_App.py:74-80 | the team list starts with "All" and repeats no team; with no competition chosen it is exactly ["All"]; otherwise it lists exactly the teams of rows whose competition the choice admits, in the first-appearance order of `Options` over those rows (over all rows when "All" is chosen) |
| Filtering.CompetitionTeamsCongruent | Player_involvement_App.py:78 | the teams of the chosen competitions depend only on the Team and Competition columns |
| Filtering.TeamOptionsCongruent | Player_involvement_App.py:74-80 | the team list depends only on the Team and Competition columns |
| Filtering.NoCompetitionDiffersFromAll | Player_involvement_App.py:74-80 | for a nonempty table, no competition gives ["All"] while choosing "All" offers more |
| Presentation.AvailableColumns | Player_involvement_App.py:132 | the shown columns are exactly the display columns the table has, in display order |
| Presentation.AvailableColumnsNoRepeats | Player_involvement_App.py:132 | the projection repeats a column only as often as the display list does, so a duplicate-free display list gives duplicate-free columns |
| Presentation.Percents | Player_involvement_App.py:139 | the mapped column has one cell per row |
| Presentation.FormatContribution | Player_involvement_App.py:137-139 | formatting one metric keeps the columns and the rows |
| Presentation.Formatted | Player_involvement_App.py:136-139 | the formatting loop keeps the columns and the rows and changes no cell outside the contribution columns |
| Presentation.FormattedCell | Player_involvement_App.py:136-139 | after the loop, each existing contribution cell holds the percentage text of its old value |
| Presentation.FormattedContribution | Player_involvement_App.py:139 | a formatted contribution is "N/A" iff it was missing; otherwise it ends in '%', and a number reads back rounded to two decimals |
| Dashboard.Frame.constructor | Player_involvement_App.py:26 | the frame holds the loaded table |
| Dashboard.Frame.SetColumn | Player_involvement_App.py:40 | in-place column assignment leaves the frame equal to the table with that column assigned |
| Dashboard.Frame.DeriveTeamContributions | Player_involvement_App.py:38-42 | after the in-place loop, the frame equals the team-metric derivation of its old contents |
| Dashboard.Frame.DeriveUsage | Player_involvement_App.py:85-93 | after the in-place steps, the frame equals the usage derivation of its old contents |
| Dashboard.Frame.FormatContributions | Player_involvement_App.py:136-139 | after the in-place loop, the frame equals the formatting of its old contents |
| Dashboard.Runnable | Player_involvement_App.py:40-139 | the columns and cells the script reads without raising: the option and filter columns, Team when grouped or filtered, no text in a present metric, in Minutes Played, in Matches used for Usage, in Age or Usage, or in a contribution cell of a kept row |
| Dashboard.Derived | Player_involvement_App.py:38-93 | the derived table keeps every row and every loaded column |
| Dashboard.DerivedKeepsPlain | Player_involvement_App.py:38-93 | a column the derivations do not write keeps its presence and its cells |
| Dashboard.DerivedLabels | Player_involvement_App.py:29-35 | every label the script reads is plain, and the metrics are plain and distinct |
| Dashboard.DerivedNotUsage | Player_involvement_App.py:40-93 | no derived metric label is one of the minutes or usage columns |
| Dashboard.DerivedContributionNotText | Player_involvement_App.py:38-42 | every contribution cell of a derived row that passes the filter is a number, NaN or an infinity |
| Dashboard.DerivedRangeCells | Player_involvement_App.py:85-98 | Age and Usage of the derived table hold no text |
| Dashboard.DerivedFilterable | Player_involvement_App.py:96-111 | the derived table has every column the filter reads |
| Dashboard.Projected | Player_involvement_App.py:96-133 | the projected table has the available display columns and one row per kept row |
| Dashboard.ProjectedSource | Player_involvement_App.py:96-133 | each projected row shows the display cells of a derived row that passes the filter and nothing else |
| Dashboard.ProjectedCellNotText | Player_involvement_App.py:133 | no projected contribution cell is text |
| Dashboard.ProjectedFormattable | Player_involvement_App.py:139 | `%.2f` meets only numbers, NaN or infinities in the projected contribution columns |
| Dashboard.Shown | Player_involvement_App.py:96-139 | the shown table has the available display columns and no more rows than were loaded |
| Dashboard.Run | Player_involvement_App.py:26-139 | the whole script returns the position, competition and team options of the loaded table and the filtered, projected and formatted table |
| Dashboard.OptionsUnaffected | Player_involvement_App.py:38-80 | deriving team metrics first does not change any option list |
| Dashboard.ShownTeam | Player_involvement_App.py:114-133 | a shown Team is the Team of the loaded row it comes from |
| Dashboard.ShownTotal | Player_involvement_App.py:38-133 | a shown `Team M` is the sum of M over the whole loaded team, filtered-out rows included |
| Dashboard.ShownContributionOf | Player_involvement_App.py:38-139 | a shown contribution is the percentage text of the loaded row's share of its team total |
| Dashboard.ShownRowOrigin | Player_involvement_App.py:38-139 | every shown row comes from a loaded row that passes the filter, and shows its team, its team totals and its contribution text |
| Dashboard.ShownContributionText | Player_involvement_App.py:136-139 | every shown contribution is "N/A" or a text ending in '%' |

## Left out

- The Streamlit page is not modelled: the title, the sliders, the multi-selects, `st.dataframe` and the download button. The slider positions and the multi-select choices are the fields of `Selection`, and `DEFAULT_SELECTION` holds the sliders' initial positions with nothing chosen.
- Loading is not modelled: the HTTP request, the temporary files, `read_excel`/`to_excel` and `st.cache_data`. The loaded table is a parameter of `Run`, and the export is not modelled.
- Binary floating point is replaced by exact reals. This leaves out representation error, `-0.0`, overflow to infinity and the digit strings of very large floats. Rounding and `%.2f` are exact half-to-even on the real value.
- Cells.Addend: infinities in a summed column are skipped, where pandas would give an infinite or NaN sum. Text never reaches it from the script under `Runnable`.
- Derivation.GroupSum: for the same reason, a team whose metric holds an infinity gets a finite total here.
- Cells.Divide: text divided by anything gives NaN, where pandas raises. `Runnable` keeps text out of every column the script divides.
- Cells.RoundCell0 / Cells.Scale: text passes through `round(0)` unchanged and becomes NaN when multiplied by 90, where pandas raises on the rounding and repeats the string on the multiplication. `Runnable` keeps text out of Minutes Played. It allows text in Matches only when Minutes Played is absent, and then Available Minutes is read by nothing later.
- The inputs on which the script raises are not modelled as errors. `Run` requires `Runnable`, which lists the columns the script reads and the cells that must not be text. Raises that depend on pandas' type handling beyond whether a cell is text are not modelled. An example is grouping by a Team column that mixes text and numbers.
- Duplicate column labels are not modelled. A row maps each label to one cell, so a table whose columns repeat a label is read as one column.
- How `st.dataframe` renders numbers on screen is not modelled.
- No lemma states which of the 44 display labels belong to which metric. The lemmas about the shown table hold for any display list.

