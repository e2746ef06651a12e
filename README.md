# Curry Company dashboard: the order-table cleaning pass and the views built on it

This project models the data handling of the three Streamlit pages of the Curry Company
delivery dashboard. The charts, maps and widgets are not part of it.

- **`clean_code`.** Each page first runs this routine over the raw order table. It is the
  same statement sequence on all three pages. In order, it:
  - drops the rows whose age is the sentinel `"NaN "`;
  - coerces age, rating and order date (an empty date, or one spelled as a missing value such
    as `"NaN"` or `"NaT"`, becomes the missing timestamp NaT);
  - drops the rows with the sentinel in the number of deliveries, then coerces that column;
  - drops the rows with the sentinel in traffic density, weather, city or festival;
  - strips seven text columns;
  - cuts the time taken after `"(min) "` and coerces it to an integer.

  A value that a coercion cannot read raises, and the whole pass ends with that exception.
- **Sidebar filters.** The page then keeps the orders placed strictly before a cutoff day, in
  the chosen traffic densities and, on the deliverers and restaurants pages, in the chosen
  weather conditions.
- **Integer views** computed from what is left:
  - order counts per day, per city and traffic density, per traffic density, and per week;
  - the per-city top-10 tables of the deliverers page;
  - the youngest and oldest deliverer and the best and worst vehicle condition;
  - the selection of festival or non-festival delivery times behind the festival metrics.

The modules, one per file:

| file | module | what it holds |
|---|---|---|
| outcomes.dfy | `Outcomes` | `Option` and `Result` |
| text.dfy | `Text` | Python's `str.isspace`, `str.strip`, the syntax `int()` and `float()` accept, `int64` range, `str.split` on a fixed separator |
| dates.dfy | `Dates` | `to_datetime(format='%d-%m-%Y')`, the nanosecond-timestamp range, the strict day order, `strftime('%U')` |
| tables.dfy | `Tables` | stable selection (`Keep`), `head`, `groupby(...).count()` (`CountBy`), `max`/`min` |
| orders.dfy | `Orders` | the row and cell model, the pass as a list of 13 steps (`Pipeline`), `Clean` and what it does to each row and to the table |
| views.dfy | `Views` | the sidebar filters, the counts, the week column, the extremes, the top-deliverer tables and the festival selection |
| frame.dfy | `Frames` | the data frame as a class whose rows the statements rebind and overwrite: `clean_code`, the filters and `order_by_week` as methods proved against the functions above |
| scenarios.dfy | `Scenarios` | concrete rows whose outcome of the pass is proved |

The three copies of `clean_code` (pages/1_visao_empresa.py:167-230, pages/2_visao_entregadores.py:48-110,
pages/3_visao_restaurantes.py:128-190) are the same statements on the same columns in the same order.
The rows below cite the page 3 copy for them all. The page 2 filters (pages/2_visao_entregadores.py:160-170)
are the same statements as the page 3 filters (pages/3_visao_restaurantes.py:241-251).

Where the code does less or more than one might expect, the model follows the code:

- A strict reading of `%d-%m-%Y` would demand two-digit days and months, but `to_datetime` also
  reads `"1-2-2022"` and `" 1-02-2022"`, so `ParseOrderDate` accepts one-digit fields too.
- One might expect a date the format cannot read to raise, but `to_datetime` reads the empty text
  and `"NaN"`, `"nan"`, `"NAN"`, `"NaT"`, `"nat"` and `"NAT"` as NaT before it matches the format.
  Such a row survives the pass with NaT as its date (`Orders.UndatedRowKept`), and the date filter
  then drops it, because NaT compares false (`Views.UndatedFilteredOut`, `Scenarios.UndatedOutcome`).
- One might expect `clean_code` to be idempotent, but running it on its own output does not give
  the same table back. The second pass calls `split` on the integer time taken and raises
  (`Orders.CleanNotIdempotent`).

## Model

| member | source | states |
|---|---|---|
| Text.Strip | pages/3_visao_restaurantes.py:178-184 | `str.strip()` leaves no whitespace at either end, and leaves text that has none unchanged |
| Text.StripSlice | pages/3_visao_restaurantes.py:178-184 | the stripped text is the contiguous slice of the original that starts after the removed prefix |
| Text.StripRemovesSpace | pages/3_visao_restaurantes.py:178-184 | every character removed, at either end, is whitespace |
| Text.StripIdempotent | pages/3_visao_restaurantes.py:178-184 | stripping twice is stripping once |
| Text.ParseInt64 | pages/3_visao_restaurantes.py:148 | `astype('int64')` on text succeeds exactly when `int()` reads it and the value fits in 64 bits, and then yields that value |
| Text.DecimalRoundTrip | pages/3_visao_restaurantes.py:148 | `int()` reads back every integer `str()` writes |
| Text.SentinelIsNotInt | pages/3_visao_restaurantes.py:146-148 | neither the sentinel `"NaN "` nor `"NaN"` is an integer |
| Text.WordIsNotInt | pages/3_visao_restaurantes.py:148 | text holding an ASCII letter anywhere is not an integer: the letter survives the strip and is neither sign, digit nor underscore |
| Text.DecimalIsFloatText | pages/3_visao_restaurantes.py:152 | integer text is valid `float()` syntax |
| Text.SplitSecond | pages/3_visao_restaurantes.py:187 | `x.split(sep)[1]` fails exactly when the separator occurs nowhere |
| Text.SplitSecondOf | pages/3_visao_restaurantes.py:187 | for a text made of a prefix, the separator and a suffix without it, piece 1 is the suffix |
| Dates.ParseOrderDate | pages/3_visao_restaurantes.py:156 | a parsed order date is a real calendar day inside the timestamp range |
| Dates.ParseFormatRoundTrip | pages/3_visao_restaurantes.py:156 | every valid day written as `dd-mm-yyyy` parses back to itself |
| Dates.ParseOrderDateExample | pages/1_visao_empresa.py:197 | `"19-02-2022"` is 2022-02-19 |
| Dates.ParseOrderDateRejectsLayout | pages/1_visao_empresa.py:197 | `"2022-02-19"` does not match the format |
| Dates.ParseOrderDateRejectsDay | pages/1_visao_empresa.py:197 | `"30-02-2022"` names no calendar day and is rejected |
| Dates.RejectsInvalid | pages/3_visao_restaurantes.py:156 | no text in the format naming an impossible day is accepted |
| Dates.WeekOfYear | pages/1_visao_empresa.py:90 | the `%U` week number lies between 0 and 53 |
| Dates.WeekLabel | pages/1_visao_empresa.py:90 | the `%U` label is two digits whose value is the week number |
| Dates.FirstDayWeek | pages/1_visao_empresa.py:90 | 1 January is in week 1 when it is a Sunday, in week 0 otherwise |
| Dates.NextDayWeek | pages/1_visao_empresa.py:90 | the week number goes up by one exactly on Sundays |
| Dates.WeekExample | pages/1_visao_empresa.py:90 | 2022-02-19 is a Saturday in week `"07"` |
| Tables.KeepIsSubsequence | pages/3_visao_restaurantes.py:146-147 | a boolean-mask selection keeps rows in their original relative order |
| Tables.KeepMembers | pages/3_visao_restaurantes.py:146-147 | a row is selected exactly when it is in the table and satisfies the mask |
| Tables.KeepMultiset | pages/3_visao_restaurantes.py:146-147 | a selected row occurs as often as in the table; other rows do not occur |
| Tables.KeepKeep | pages/3_visao_restaurantes.py:242-251 | two selections in a row are one selection on both conditions |
| Tables.KeepKeepsOrder | pages/2_visao_entregadores.py:37-39 | a selection of a sorted table is still sorted |
| Tables.Head | pages/2_visao_entregadores.py:37-39 | `head(n)` is the first `n` rows, or all rows when fewer |
| Tables.CountByCorrect | pages/1_visao_empresa.py:155-160 | `groupby(key).count()` has each occurring key exactly once, each key's count is its number of rows, and the counts sum to the row count |
| Tables.CountByWhere | pages/1_visao_empresa.py:131-134 | the counts of the groups whose key satisfies a condition sum to the rows with such a key |
| Tables.MaxOf | pages/2_visao_entregadores.py:191 | the maximum of a non-empty column is one of its values and bounds all of them |
| Tables.MinOf | pages/2_visao_entregadores.py:196 | the minimum of a non-empty column is one of its values and bounded by all of them |
| Orders.ToInt64 | pages/3_visao_restaurantes.py:148 | `astype('int64')` of a text cell succeeds exactly when the text is a 64-bit integer, otherwise raises the column's error |
| Orders.ToFloat | pages/3_visao_restaurantes.py:152 | `astype(float)` of a text cell succeeds exactly on `float()` syntax |
| Orders.ReadOrderDate | pages/3_visao_restaurantes.py:156 | what `to_datetime` makes of a text is NaT or a valid day inside the timestamp range |
| Orders.ReadOrderDateSpec | pages/3_visao_restaurantes.py:156 | a text is read as NaT exactly when it is the empty text or a NaT spelling, and as a timestamp exactly when it names a day, that day; no NaT text matches `%d-%m-%Y` |
| Orders.ToDate | pages/3_visao_restaurantes.py:156 | `to_datetime` of a text cell succeeds exactly when it is a NaT text or parses; it yields NaT exactly for the NaT texts and otherwise the parsed day, which is valid and in range; a failure is the date error |
| Orders.SplitTime | pages/3_visao_restaurantes.py:187 | the split succeeds only on text holding `"(min) "`; on an integer cell it raises |
| Orders.ApplyStepOk | pages/3_visao_restaurantes.py:148 | a column coercion succeeds exactly when it succeeds on every row |
| Orders.ApplyStepErr | pages/3_visao_restaurantes.py:148 | a failing coercion raises the exception of one of its rows |
| Orders.ApplyStepErrPrefix | pages/3_visao_restaurantes.py:148 | once a row raises, the rows after it do not matter |
| Orders.DropOk | pages/3_visao_restaurantes.py:146-147 | a sentinel selection keeps exactly the rows without the sentinel, in order |
| Orders.RunRows | pages/3_visao_restaurantes.py:128-190 | the pass succeeds exactly when every row gets through it on its own, and then yields what each row becomes, in order |
| Orders.RunErrFromRow | pages/3_visao_restaurantes.py:128-190 | a failing pass fails with the exception some single row raises |
| Orders.RunSnoc | pages/3_visao_restaurantes.py:128-190 | one more row either appends its outcome or raises |
| Orders.BadAgeAborts | pages/3_visao_restaurantes.py:146-148 | one present age that is not a 64-bit integer (such as `"NaN"` without the space) aborts the pass with the age error |
| Orders.MalformedRowAborts | pages/3_visao_restaurantes.py:152-174 | a rating that `float()` rejects, or a date that is neither a NaT text nor a `%d-%m-%Y` day, on a row with an age aborts the pass, even when a later sentinel would drop that row |
| Orders.UndatedRowKept | pages/3_visao_restaurantes.py:156 | a complete row whose other coercions succeed and whose date is a NaT text comes through the pass with NaT as its date |
| Orders.TimeTakenMinutes | pages/3_visao_restaurantes.py:187-188 | a time taken is read only from text holding the separator, and fits in 64 bits |
| Orders.TimeTakenMinutesOf | pages/3_visao_restaurantes.py:187-188 | the minutes of `a + "(min) " + b`, with no separator in `a` or `b`, are `int()` of `b` in 64 bits, and there are none when `int()` rejects `b` |
| Orders.TimeTakenRoundTrip | pages/3_visao_restaurantes.py:187-188 | `"(min) "` followed by any 64-bit integer reads back as that integer |
| Orders.EarlySteps | pages/3_visao_restaurantes.py:146-156 | a row without an age is dropped; otherwise a bad age, a bad rating, or a date that is neither a NaT text nor a day raises, in that order; otherwise the three are converted, a NaT text to NaT |
| Orders.MiddleSteps | pages/3_visao_restaurantes.py:160-162 | a row without a number of deliveries is dropped; otherwise the number is converted or raises |
| Orders.LateDrops | pages/3_visao_restaurantes.py:164-174 | a row with the sentinel in traffic, weather, city or festival is dropped, any other passes on |
| Orders.StripStep | pages/3_visao_restaurantes.py:178-184 | the seven text columns are stripped |
| Orders.TimeSteps | pages/3_visao_restaurantes.py:187-188 | the time taken converts exactly when its text holds the separator and an integer after it |
| Orders.ThroughPipeline | pages/3_visao_restaurantes.py:128-190 | a raw row raises exactly when it is not admissible (a NaT date text is admissible); it survives exactly when no checked field is the sentinel; a survivor is its cleaned form field by field, with weather and the other columns untouched |
| Orders.CleanSpec | pages/3_visao_restaurantes.py:128-190 | the pass succeeds exactly when every row is admissible, NaT date texts included; it then keeps exactly the rows without a sentinel, in order, each cleaned |
| Orders.CleanedTable | pages/3_visao_restaurantes.py:128-190 | every row of a cleaned table has integer age, deliveries and time, no sentinel and stripped text |
| Orders.CleanedText | pages/3_visao_restaurantes.py:164-184 | a stripped text column never holds the sentinel, and the seven stripped columns have no whitespace at their ends |
| Orders.CleanedStepFixed | pages/3_visao_restaurantes.py:146-184 | on a cleaned row, every step before the split changes nothing |
| Orders.CleanedTableFixed | pages/3_visao_restaurantes.py:146-184 | on a cleaned table, each of those steps leaves the table as it is |
| Orders.SplitRejectsCleaned | pages/3_visao_restaurantes.py:187 | splitting an integer time taken raises |
| Orders.CleanNotIdempotent | pages/3_visao_restaurantes.py:187 | a second pass over a non-empty cleaned table raises instead of returning it |
| Views.CompanyFilters | pages/1_visao_empresa.py:276-282 | the company page keeps exactly the rows before the cutoff and in the chosen traffic, in order |
| Views.DeliveryFilters | pages/3_visao_restaurantes.py:241-251 | the other pages keep exactly the rows before the cutoff, in the chosen traffic and the chosen weather, in order |
| Views.CompanyIgnoresWeather | pages/1_visao_empresa.py:276-282 | the company page's result is the other pages' result before the weather selection; a row of another weather survives only there |
| Views.NothingFromCutoffOn | pages/3_visao_restaurantes.py:242-243 | no order of the cutoff day or later survives either filter |
| Views.UndatedFilteredOut | pages/3_visao_restaurantes.py:242-243 | a row whose date is NaT is dropped by the filters of every page |
| Views.FilteredIsDated | pages/3_visao_restaurantes.py:242-251 | the rows the filters let through hold calendar days, whatever else the cleaned date column holds |
| Views.KeepDated | pages/3_visao_restaurantes.py:242-251 | a selection of dated rows is dated |
| Views.OrdersPerDay | pages/1_visao_empresa.py:155-160 | each day occurs once, with its number of orders; the counts sum to the row count |
| Views.OrdersPerCityAndTraffic | pages/1_visao_empresa.py:110-113 | each (city, traffic) pair occurs once, with its number of orders; the counts sum to the row count |
| Views.OrdersPerTraffic | pages/1_visao_empresa.py:131-134 | each traffic density occurs once, with its number of orders; the counts sum to the row count |
| Views.CityCountsAddUp | pages/1_visao_empresa.py:110-134 | for a traffic density, the city counts and its own count both equal its number of orders |
| Views.WithWeek | pages/1_visao_empresa.py:90 | every row gets the `%U` label of its own date and nothing else changes |
| Views.OrdersPerWeek | pages/1_visao_empresa.py:92 | each week label occurs once, with its number of orders; the counts sum to the row count |
| Views.WeekCounts | pages/1_visao_empresa.py:90-92 | after adding the column, the week counts sum to the row count, hold exactly the weeks of the rows' dates, and every label is two digits from 00 to 53 |
| Views.OldestAge | pages/2_visao_entregadores.py:191 | the oldest age exists exactly on a non-empty table, is some row's age and is at least every age |
| Views.YoungestAge | pages/2_visao_entregadores.py:196 | the youngest age exists exactly on a non-empty table, is some row's age and is at most every age |
| Views.BestCondition | pages/2_visao_entregadores.py:203 | the best vehicle condition is some row's and at least every other |
| Views.WorstCondition | pages/2_visao_entregadores.py:208 | the worst vehicle condition is some row's and at most every other |
| Views.ExtremesOrdered | pages/2_visao_entregadores.py:191-208 | on a non-empty table the youngest age is at most the oldest, and the worst condition at most the best |
| Views.TopDelivers | pages/2_visao_entregadores.py:37-43 | at most 30 rows, all taken from the ranked table and all of the three cities |
| Views.CityHeadInCity | pages/2_visao_entregadores.py:37-39 | each city's block holds rows of that city only |
| Views.TopDeliversPerCity | pages/2_visao_entregadores.py:37-43 | a city's rows in the result are the first rows of that city in ranked order: 10, or all of them when fewer |
| Views.TopDeliversCityOrder | pages/2_visao_entregadores.py:42-43 | the result is the Metropolitian block, then Urban, then Semi-Urban |
| Views.TopDeliversByTime | pages/2_visao_entregadores.py:33-39 | with a ranking by mean time, every shown deliverer of a city is at least as fast (or as slow) as every one left out |
| Views.AsWrittenMissesFastest | pages/2_visao_entregadores.py:33-39 | with the ranking as written, the fastest Metropolitian deliverer can be missing from the "fastest" table |
| Views.FestivalTimes | pages/3_visao_restaurantes.py:75-81 | the festival group holds one time per order of that festival value, exactly the times of such orders, each as often as such orders took it |
| Views.MinutesCount | pages/3_visao_restaurantes.py:75 | a time occurs in the time column as often as rows took it |
| Views.FestivalCounts | pages/3_visao_restaurantes.py:75-77 | a time occurs in a `groupby('Festival')` group as often as orders of that festival value took it |
| Views.FestivalTimesAsWritten | pages/3_visao_restaurantes.py:75-83 | as written, the group selected holds exactly the times of the `'Yes'` orders, whatever value is asked for |
| Views.FestivalAsWrittenCounterexample | pages/3_visao_restaurantes.py:81 | asked for `'No'`, the function as written reports the festival order's time, not the other one |
| Views.FestivalPartition | pages/3_visao_restaurantes.py:75-77 | when every order is `'Yes'` or `'No'`, the two groups together hold every time taken, each as often as it occurs |
| Views.MinutesAt | pages/3_visao_restaurantes.py:75 | the time column has one entry per row, the row's own time |
| Frames.Frame.Select | pages/3_visao_restaurantes.py:146-147 | `df.loc[mask, :].copy()` is a new frame of exactly the selected rows |
| Frames.Frame.Coerce | pages/3_visao_restaurantes.py:148 | a column assignment converts every row, or raises the first failing row's exception and leaves the frame as it was |
| Frames.Frame.AddWeekOfYear | pages/1_visao_empresa.py:90 | the frame's rows become those with the week column added |
| Frames.DropStep | pages/3_visao_restaurantes.py:146-147 | one selection statement does what its step of the pass does |
| Frames.ConvertStep | pages/3_visao_restaurantes.py:148 | one column assignment does what its step of the pass does, or raises its exception |
| Frames.CleanCode | pages/3_visao_restaurantes.py:128-190 | the statements return a new frame holding exactly what `Clean` computes, or `Clean`'s exception; the caller's frame is untouched |
| Frames.CleanStatements | pages/3_visao_restaurantes.py:146-188 | the six numbered sections in order do what the 13 steps do |
| Frames.DropAgeAndConvert | pages/3_visao_restaurantes.py:146-148 | section 1 does steps 0 and 1 into a new frame |
| Frames.ConvertRatingAndDate | pages/3_visao_restaurantes.py:151-156 | sections 2 and 3 do steps 2 and 3 in place |
| Frames.DropSentinels | pages/3_visao_restaurantes.py:159-174 | section 4 and the four selections do steps 4 to 9 into a new frame |
| Frames.CleanTextAndTime | pages/3_visao_restaurantes.py:177-188 | sections 5 and 6 do the last three steps in place |
| Frames.FilterCompanyPage | pages/1_visao_empresa.py:276-282 | the two rebindings leave exactly the company page's selection |
| Frames.FilterDeliveryPage | pages/3_visao_restaurantes.py:241-251 | the three rebindings leave exactly the other pages' selection |
| Frames.OrderByWeek | pages/1_visao_empresa.py:90-92 | the frame it is given gains the week column, and the counts returned are the per-week counts of that frame |
| Scenarios.TimeTakenExamples | pages/3_visao_restaurantes.py:187-188 | `"(min) 24"` gives 24 and `"(min) 7"` gives 7 |
| Scenarios.TimeTakenRejectsWord | pages/3_visao_restaurantes.py:187-188 | `"(min) abc"` gives no minutes, so its coercion raises |
| Scenarios.StripExample | pages/3_visao_restaurantes.py:179 | `" Jam "` becomes `"Jam"` |
| Scenarios.BadAgeExamples | pages/3_visao_restaurantes.py:146-148 | an age of `"NaN"` or `"abc"` anywhere aborts the pass with the age error |
| Scenarios.NoAgeOutcome | pages/3_visao_restaurantes.py:146-147 | a row without an age is dropped whatever else it holds |
| Scenarios.ScenarioOutcome | pages/3_visao_restaurantes.py:128-190 | the sample complete row comes through with each field converted or stripped |
| Scenarios.EndToEnd | pages/3_visao_restaurantes.py:128-190 | of a row without an age and the sample row, the pass keeps exactly the sample row, cleaned |
| Scenarios.UndatedRow | pages/3_visao_restaurantes.py:156 | the sample row with the date `"NaN"` comes through the pass with NaT as its date |
| Scenarios.UndatedOutcome | pages/3_visao_restaurantes.py:242-251 | the pass over that single row keeps it, dated NaT, and every page's filters then leave nothing |

## Left out

- The Streamlit layout, sidebar widgets, tabs and metrics, and every Plotly and Folium chart. The
  cutoff and the chosen traffic and weather options are parameters of the filters.
- `pd.read_csv` and `Image.open`. The raw table is a given sequence of rows whose cells hold the texts of
  the file. `read_csv` would already turn an empty field or a bare `"NaN"` into a float NaN. The pass
  treats that NaN as it treats the text `"NaN"`: the date coercion makes it NaT, the rating coercion
  accepts it, and the integer coercions raise. An empty rating field therefore passes in the program,
  while the model, reading it as the empty text that `float()` rejects, raises.
- Float arithmetic: the means, standard deviations and `round(2)` of `avg_std_time_festival`,
  `avg_std_time_on_traffic` and `avg_std_time_graph`, the shares of `traffic_order_share` and
  `order_share_by_week`, and the value of a rating. A rating is kept as its text once `float()` accepts it.
- `distance_mean` and `country_maps`. They are float trigonometry and medians over coordinates.
  Coordinates are carried through the pass unread.
- `nunique` of the deliverer IDs (pages/3_visao_restaurantes.py:267). It is not part of the modelled views.
- The groupby mean and the sort inside `top_delivers`. The ranked table of per-deliverer means is an
  input of `Views.TopDelivers`. Its ordering is stated as a predicate (`Views.RankedAsWritten`,
  `Views.RankedByTime`).
- Tables.CountByCorrect: pandas returns the groups sorted by key, while the model
  lists them in order of first appearance. The keys, their counts and their sum are the same.
  `count()` counts non-missing IDs, and an ID is never missing in the model.
- Views.NothingFromCutoffOn: the slider returns a date-time. Comparing a midnight order date to it keeps
  the cutoff day itself only when the cutoff has a time after midnight, and the model compares whole days.
- The slider's default of 2022-04-13 lies after its own maximum of 2022-04-06. Which value the widget
  then reports is a Streamlit matter.
- Text.IsDigit: digits are the ASCII ones. `int()` and `float()` also accept other Unicode decimal
  digits, which the model rejects.
- Views.MinutesOf: a time that is not an integer counts as 0. Every member that uses it requires
  integer times, which the cleaning pass guarantees.
- Frames.CleanStatements: the pass's steps are a ghost parameter that the caller instantiates with the
  13-step list (`Frames.PipelineIsCleanCode`). This keeps the constant list out of the statement-by-statement proof.

## Findings

| source | as written | input that shows it | evidently intended | confidence | as-written member | corrected member |
|---|---|---|---|---|---|---|
| pages/2_visao_entregadores.py:33 | the per-deliverer means are sorted by `Delivery_person_ID` first and by time only among equal IDs. Each ID has one row per city, so `head(10)` shows the first ten IDs, not the ten fastest or slowest | 11 Metropolitian deliverers with IDs `a` to `k`, where `k` averages 1.0 minute and the others 50.0: the "fastest" table shows `a` to `j` and leaves out `k` | sort by the mean time (within each city), so that each city block is its fastest or slowest ten | not executed | Views.AsWrittenMissesFastest | Views.TopDeliversByTime |
| pages/3_visao_restaurantes.py:81 | the group is chosen with `== 'Yes'`, so the `festival` argument is never used, and the two "s/ Festival" metrics (lines 283-288) repeat the festival figures | one `'Yes'` order of 10 minutes and one `'No'` order of 40 minutes, asked for `'No'`: the times used are [10] | select the group with `== festival` | not executed | Views.FestivalAsWrittenCounterexample | Views.FestivalTimes |
