# E-commerce dashboard: loader, date filter and aggregator

This project models the data-shaping part of a Streamlit dashboard over an
e-commerce transaction table (the merged orders, payments, reviews, customers
and products dataset) and proves properties of that model in Dafny.

There are two pieces.

- **Load phase and date filter** (`Dashboard/dashboard.py`). The script reads
  the table and sorts it in place by the approval column, while that column
  still holds raw text with NaN last. From the sorted table it takes the
  geolocation subset, keeping the first row of each unique customer. It then
  coerces the six timestamp columns one after another: text that does not
  parse becomes NaT. Next it computes the minimum and maximum approval
  instants that bound the date picker. Finally it keeps the rows whose
  approval instant lies between the picked dates.
- **`DataAnalyzer`** (`Dashboard/func.py`). It computes six read-only
  summaries of the selected rows:
  - distinct orders and revenue per calendar day;
  - spend per day;
  - rows per product category;
  - the review-score distribution and its mode;
  - distinct customers per state and the state with the most;
  - the order-status distribution and its mode.

Modules, one per file:

| module | file | contents |
|---|---|---|
| `Wrappers` | `wrappers.dfy` | `Option` |
| `Strings` | `strings.dfy` | Python's string order, decimal digit fields |
| `Sequences` | `sequences.dfy` | boolean-mask `Filter`, subsequences, `KeepFirst` (`drop_duplicates(keep='first')`), `Present` (the non-missing values of a column) |
| `Sorting` | `sorting.dfy` | a sort parametrised by its order, proved to be a permutation and sorted |
| `Datetime` | `datetime.dfy` | the proleptic Gregorian calendar, the parser for `YYYY-MM-DD HH:MM:SS`, seconds since the epoch, calendar days |
| `Records` | `records.dfy` | the row datatype, timestamp cells, `to_datetime(errors='coerce')`, the sort order on the approval cell, `min`/`max` of the approval column |
| `Counting` | `counting.dfy` | `(key, count)` entries, tallies, the sort by descending count, `idxmax`, `value_counts` |
| `Aggregator` | `aggregator.dfy` | the six `DataAnalyzer` summaries |
| `Loader` | `loader.dfy` | the load phase as a method with the column-coercion loop, and the date filter |

Modelling choices:

- **Timestamp cells.** A timestamp cell is `Missing` (NaN/NaT), `Text` (as read from the file) or `Stamp` (whole seconds since 1970-01-01 00:00:00). A calendar day is `seconds / 86400`, rounded down as `resample('D')` does.
- **Payments.** Payments are whole cents.
- **Mode on no data.** Each mode is `None` where `idxmax` would raise, which is on an empty distribution.
- **Sort order.** `sort_values` on a count column is not stable, so its contracts state only a permutation in non-increasing order. For the state with the most customers, the maximum is taken before the sort, over the groups `groupby` has placed in key order. Ties therefore go to the smallest state. The model proves exactly that.
- **Purity.** The summaries are functions, so none of them can change the table they are given.
- **Load order.** `Loader.Load` follows the script's order. It sorts, takes the geolocation subset from the sorted table before any coercion (which keeps its text cells), then coerces column by column in a `for` loop, then computes the range.
- **String order versus time order.** Sorting happens on the raw strings. The model proves that for cells that parse, the string order agrees with the time order (`Datetime.ParseMonotone`). So once coerced, the approval instants of the sorted table are ascending.
- **Daily bins without orders.** `resample` emits every day between the first and last approval day. Days with no approval appear with count 0 and revenue 0. The code does this, so the model does too.

## Model

| member | source | states |
|---|---|---|
| Aggregator.CreateDailyOrders | Dashboard/func.py:8-19 | empty exactly when no row has an approval instant; otherwise one entry per consecutive day from the first to the last approval day, both of them attained by some row and every approval day lying between; each entry's order count is the number of distinct order ids approved that day and its revenue the sum of that day's payments |
| Aggregator.QuietDay | Dashboard/func.py:9-12 | a day on which nothing is approved counts no orders and no revenue |
| Aggregator.CreateSumSpend | Dashboard/func.py:21-30 | the same days as the daily orders, each day's total spend equal to that day's revenue |
| Aggregator.DailyOrderCountsSum | Dashboard/func.py:9-12 | when no order id is approved on two different days, the daily order counts add up to the number of distinct approved order ids |
| Aggregator.DailyRevenueSum | Dashboard/func.py:9-12 | the daily revenues add up to the payments of all approved rows |
| Aggregator.GroupKeys | Dashboard/func.py:33 | `groupby` keys: each value of the column once, nothing else, in string order |
| Aggregator.CreateSumOrderItems | Dashboard/func.py:32-39 | each non-missing category exactly once, counting its rows with a non-missing product id; non-increasing counts that add up to all such rows |
| Aggregator.ReviewScores | Dashboard/func.py:41-45 | each non-missing score once with its number of rows; non-increasing counts that add up to the non-missing scores; no mode exactly when there is no score; the mode is the first entry and no score is more frequent |
| Aggregator.CustomersAtMostRows | Dashboard/func.py:48 | a state never has more distinct customers than rows |
| Aggregator.CreateByState | Dashboard/func.py:47-55 | each non-missing state once with its number of distinct customer ids, never more than its rows, in non-increasing order; no most common state exactly when no row has a state; the most common state is a state of the table, has the largest count, and is the smallest state among those tied with it |
| Aggregator.CreateOrderStatus | Dashboard/func.py:57-61 | each non-missing status once with its number of rows; non-increasing counts that add up to the non-missing statuses; no mode exactly when there is no status; the mode is the first entry and no status is more frequent |
| Counting.ValueCounts | Dashboard/func.py:42 | `value_counts().sort_values(ascending=False)`: each distinct value exactly once with its multiplicity, non-increasing, counts adding up to the input length, empty exactly when the input is |
| Counting.ModeOfValueCounts | Dashboard/func.py:42-43 | on a non-empty input, `idxmax` of the counts is the first key, a value of the input occurring at least as often as any other |
| Counting.SortByCount | Dashboard/func.py:37 | a permutation of the entries, in non-increasing count order, with the same keys and the same total |
| Counting.IdxMax | Dashboard/func.py:43 | none on an empty table; otherwise the key of the first entry with the largest count |
| Datetime.DayOfParsed | Dashboard/func.py:9 | the day a parsed timestamp is binned into is the calendar date written in it |
| Datetime.ParseMonotone | Dashboard/dashboard.py:29-37 | of two timestamp strings that both parse, the one that sorts first as a string denotes the earlier or the same instant |
| Datetime.ParseDatetime | Dashboard/dashboard.py:37 | some value exactly when the text is `YYYY-MM-DD HH:MM:SS`, names a real Gregorian date and time, and lies within the range of a nanosecond `Timestamp`; the value is the seconds since 1970-01-01 00:00:00 of those fields |
| Records.ToDatetime | Dashboard/dashboard.py:37 | coercion never fails: the result is NaT or an instant; text becomes an instant exactly when it parses, with the parsed value; NaT and instants are left alone |
| Records.ToDatetimeIdempotent | Dashboard/dashboard.py:36-37 | coercing a coerced cell changes nothing |
| Records.CoercedOnAll | Dashboard/dashboard.py:36-37 | a row coerced in the six timestamp columns one at a time is the row with all six coerced and every other column unchanged |
| Records.ApprovalLeTotal | Dashboard/dashboard.py:29 | any two approval cells are ordered one way or the other |
| Records.ApprovalLeTransitive | Dashboard/dashboard.py:29 | the order on approval cells is transitive |
| Records.ApprovalRange | Dashboard/dashboard.py:40-41 | no range exactly when no approval cell holds an instant; otherwise the minimum is at most the maximum, both are attained by some row, and every approval instant lies between them |
| Sequences.Filter | Dashboard/dashboard.py:60-61 | a boolean-mask selection: an order-preserving subsequence holding each row that passes exactly as often as the table does, and no other row |
| Sequences.FilterIdempotent | Dashboard/dashboard.py:60-61 | selecting again with the same mask returns the same rows |
| Sequences.PresentCount | Dashboard/func.py:42 | after dropping missing values, each value occurs as often as there are rows holding it |
| Sequences.KeepFirst | Dashboard/dashboard.py:33 | `drop_duplicates(keep='first')`: a subsequence with pairwise distinct keys, every key of the input present, each kept row the first row with its key, the kept rows in the order in which their keys first occur |
| Loader.SortByApproval | Dashboard/dashboard.py:29-30 | the sorted table is a permutation of the loaded rows, ordered by the approval cell |
| Loader.MissingApprovalsLast | Dashboard/dashboard.py:29 | in a table as read, rows with a NaN approval cell come after all others once sorted |
| Loader.CoercedApprovalsAscending | Dashboard/dashboard.py:29-37 | after sorting the raw text and coercing, approval instants never decrease along the table |
| Loader.CoerceDatetimeColumns | Dashboard/dashboard.py:36-37 | the loop keeps the row count and leaves every row with its six timestamp columns coerced and nothing else changed |
| Loader.GeolocationFacts | Dashboard/dashboard.py:33 | the geolocation rows are loaded rows and they cover every unique customer id of the loaded table |
| Loader.Load | Dashboard/dashboard.py:29-41 | the table is the coerced sorted table, same length; for raw approval cells its approval instants ascend; the geolocation subset is a subsequence of the sorted table with one row per unique customer id, the first in sort order, in the order in which the ids first occur, every id present; the range bounds every approval instant and is absent exactly when none parses |
| Loader.SelectDateRange | Dashboard/dashboard.py:60-61 | the selection is an order-preserving subsequence; a row is kept exactly when its approval instant lies between the midnights of the two picked days, and then as often as it occurs in the table; NaT is never kept |
| Loader.SelectDateRangeMembers | Dashboard/dashboard.py:60-61 | as written, a row is kept exactly when its approval day is at least the start day and either before the end day or exactly at midnight of the end day |
| Loader.SelectDateRangeIdempotent | Dashboard/dashboard.py:60-61 | applying the same bounds to the selection returns it unchanged |
| Loader.DefaultRangeDropsLatest | Dashboard/dashboard.py:53-61 | with the default bounds (the days of the earliest and latest approval), the latest approved row is dropped unless it was approved exactly at midnight |
| Loader.DefaultRangeDropsOnlyOrder | Dashboard/dashboard.py:53-61 | one order approved at 10:00 gives an empty default selection as written, whose daily revenues add up to 0 instead of the order's payment |
| Loader.SelectDateRangeInclusive | Dashboard/dashboard.py:60-61 | corrected filter: an order-preserving subsequence keeping exactly the rows approved on a day from the start day to the end day, each as often as it occurs in the table |
| Loader.SelectDateRangeInclusiveMembers | Dashboard/dashboard.py:60-61 | with the corrected filter, a row is kept exactly when it has an approval instant whose calendar day lies in the picked range |
| Loader.DefaultRangeKeepsAll | Dashboard/dashboard.py:53-61 | with the corrected filter, the default bounds keep every row that has an approval instant and no other |
| Loader.DefaultRangeShowsAllRevenue | Dashboard/dashboard.py:53-71 | with the corrected filter and the default bounds, the daily revenues add up to the payments of every approved row |
| Loader.EmptySelection | Dashboard/dashboard.py:60-71 | with the corrected filter (`SelectDateRangeInclusive`), a range without approvals selects nothing; in the model every summary of that empty table is then empty with no most common value, where the script would raise in `review_score_df` |
| Loader.NarrowSelection | Dashboard/dashboard.py:60-61 | selecting one range inside another is selecting the intersection of the two ranges |

## Left out

- Reading the CSV file and the stop when it is not found (`Dashboard/dashboard.py:22-26`): file I/O. `Loader.Load` takes the rows as read.
- The sidebar, the date picker, all charts, metrics and currency formatting (`Dashboard/dashboard.py:43-58`, `74-208`): presentation. The picked days are taken as parameters. Neither the picker's refusal of days outside the range nor the case where the user has picked only one date is modelled.
- `BrazilMapPlotter` (`Dashboard/func.py:64-94`) and the latitude/longitude columns: map rendering and floating-point means.
- Floating-point averages and payment sums: payments are exact integer cents.
- The dashboard's own recomputed "most common" values (`Dashboard/dashboard.py:151`, `173`, `191`): presentation, not modelled. Lines 151 and 191 apply `value_counts()` to a series that already holds counts, so they yield the most frequent count, not the most frequent key, and disagree with the modes that `DataAnalyzer` returns. Line 173 applies `value_counts()` to the state column of the by-state table, in which every state occurs once; it therefore yields some state among entries all tied at count 1, and that state need not be `most_common_state`.
- Records.ToDatetime: only the dataset's format `YYYY-MM-DD HH:MM:SS` is parsed. Any other text becomes NaT, although pandas would accept some other spellings. Seconds are whole: there are no fractional seconds and no time zones.
- Counting.SortByCount: the order among entries with equal counts is not stated, because `sort_values` does not fix it. The model sorts by an insertion sort.
- Loader.SortByApproval: the order among rows with equal approval text is not stated, for the same reason.
- Counting.IdxMax: `idxmax` on an empty series raises. The model returns `None` there instead.
- Text left in a timestamp cell counts as no approval instant in the summaries. After the load phase no text is left.
- Aggregator.CreateDailyOrders: days that have no approved order stay in the output with zero count and zero revenue. `resample` fills these days in.

## Findings

| source | as written | input that shows it | evidently intended | confidence | as-written member | corrected member |
|---|---|---|---|---|---|---|
| Dashboard/dashboard.py:61 | the end bound is the picked end date converted to a timestamp, which is midnight at the start of that day, so rows approved later on the end day are dropped | a table with one order approved at 1970-01-01 10:00:00: the default range is that day to that day and the selection is empty, so `review_score_df` calls `idxmax` on an empty series and the script raises before any metric or chart is drawn (the model's `None` there is the deviation listed for `Counting.IdxMax` under "Left out") | every row approved on any day from the start date to the end date, both dates included | high; not executed | Loader.SelectDateRange, Loader.DefaultRangeDropsLatest, Loader.DefaultRangeDropsOnlyOrder | Loader.SelectDateRangeInclusive, Loader.DefaultRangeKeepsAll, Loader.DefaultRangeShowsAllRevenue |
