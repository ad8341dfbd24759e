# Weather dashboard analysis, modelled in Dafny

The weather dashboard loads the monthly observations of one Met Office
station (Cambridge). Each row holds year, month, maximum and minimum
temperature, air-frost days, rainfall and sunshine hours, and any cell may
be missing. Three table transformations in `src/analysis.py` turn that
table into what the charts show:

- `get_top_records(df, column, n)` sorts the table by one column, largest
  first, with missing values last, and keeps the first `n` rows.
- `calculate_annual_averages(df)` works on a copy of the table. It adds a
  mean temperature `tmean = (tmax + tmin) / 2` to every row, then averages
  every numeric column per year, years ascending.
- `calculate_rolling_trends(df, window)` takes that yearly table and adds
  `tmean_trend`. This is a trailing rolling mean of the yearly `tmean`
  (`min_periods = 1`, not centred).

The model is pure. A table is a `seq` of records whose cells are
`Option<real>`, and `None` stands for a missing value (NaN). All arithmetic
is exact `real` arithmetic. Each operation is a Dafny function. The
properties are stated in its `ensures` or proved as lemmas. Each
operation's computation is modelled separately from the reference it is
proved against:

- **Sort.** The sort is an insertion sort. It is proved sorted and a
  permutation of its input.
- **Grouping.** The grouping is one pass over the rows that adds each row
  into a map from year to per-column totals (`GroupTotals`). The year list
  is kept strictly ascending as it is built (`GroupYears`). Both are proved
  equal to the reference, which filters a year's rows and takes their mean.
- **Rolling mean.** The rolling mean is a sliding pass that adds the value
  entering the window and removes the one leaving it (`SlidingTotals`). It
  is proved equal to the mean taken directly over each window.

Modules:

- `Values` holds missing-aware totals and means. A mean over no present
  value is missing.
- `Observations` holds the observation row, its columns, and the dashboard's
  year-range filter.
- `TopRecords` models `get_top_records`.
- `Annual` models `calculate_annual_averages`.
- `Rolling` models `calculate_rolling_trends`.

Where the docstrings and comments of `src/analysis.py`, or what a reader
might take for granted, differ from what the code does, the model follows
the code:

- **Negative `n`.** The docstring (`src/analysis.py:11`, `:14`) speaks of
  returning `n` rows. A reader might assume that `n <= 0` returns no rows.
  The code calls `head(n)`, which for a negative `n` keeps all but the last
  `-n` rows. `TopRecords` models `head` as written, and its length clause
  states both cases.
- **Tie order.** Nothing in the docstring says how rows with equal values
  are ordered, and a reader might assume that ties keep their input order.
  The code calls `sort_values` with its default unstable quicksort, so the
  order of tied rows is not determined. The model's sort keeps ties in
  input order, which is one of the orders the library may produce. No
  lemma depends on it.
- **Missing values in the top records.** The comment at
  `src/analysis.py:17` speaks of `dropna()`, but no rows are dropped.
  Missing values are kept and placed last. `TopRecordsPresentCount` and
  `TopRecordsMissingOnlyWhenShort` state when they can appear in the
  result.
- **Missing years.** Rows whose year is missing join no group, which is the
  grouping default. The mean of the month column is averaged like every
  other numeric column.
- **Window size.** The docstring at `src/analysis.py:61` gives the window
  in years. The rolling window counts entries of the yearly table, that is
  years present in the data, not calendar years.

## Model

| member | source | states |
|---|---|---|
| TopRecords.TopRecords | src/analysis.py:4-20 | Returns `min(n, \|df\|)` rows for `n >= 0`, and all but the last `-n` rows for a negative `n`. Every returned row is an input row with all columns unchanged, and no row is returned more often than it occurs in the input. Present values of the column are non-increasing, and every missing value comes after every present one. |
| TopRecords.SortDescending | src/analysis.py:18 | The descending sort with missing values last is sorted, keeps the table's length, and is a permutation of the input. |
| TopRecords.TopRecordsDominate | src/analysis.py:16-18 | Top-n dominance. Every row left out ranks no higher than every returned row: a present value left out is at most every present value returned. A returned missing value means every row left out is missing too. |
| TopRecords.TopRecordsPresentCount | src/analysis.py:18 | The number of present values in the result is `min(\|result\|, present values in the input)`, the largest possible. |
| TopRecords.TopRecordsMissingOnlyWhenShort | src/analysis.py:17-18 | A missing value appears in the result only if the input has fewer present values in the column than rows returned. |
| TopRecords.InsertSorted | src/analysis.py:18 | Inserting a row into a sorted table before the first row it may precede keeps the table sorted. |
| Annual.Midpoint | src/analysis.py:44 | The derived mean temperature is present exactly when both operands are, and then lies halfway between them. |
| Annual.WithTmean | src/analysis.py:40-44 | The working copy has one row per input row, and each input row is carried unchanged. |
| Annual.TmeanOfRow | src/analysis.py:44 | For every row, `tmean` is `(tmax + tmin) / 2` when both are present and missing otherwise. |
| Annual.AnnualAverages | src/analysis.py:23-50 | The yearly table lists its years in strictly ascending order, and each field of a year's entry, `tmean` included, is the mean of that field's present values over the rows of that year. `AnnualYears` adds that the years listed are exactly the distinct present years. |
| Annual.AnnualYears | src/analysis.py:48 | The yearly table has exactly one entry per distinct present year, in strictly ascending year order. Rows with a missing year form no group. An empty input gives an empty table. |
| Annual.AnnualMeans | src/analysis.py:48 | Each field of a year's entry is the mean of that field's present values over the year's rows. This covers `mm` and `tmean` too. The value is missing exactly when all of them are missing. |
| Annual.GroupTotalsAreYearTotals | src/analysis.py:48 | The one-pass grouping keeps, for each year and field, exactly the sum and count of that year's present values. |
| Annual.GroupYearsAreKeys | src/analysis.py:48 | The group years ascend strictly and are exactly the years the grouping pass keys. |
| Annual.InsertYearSorted | src/analysis.py:48 | Adding a year to the ascending year list keeps it strictly ascending. |
| Annual.InsertYearElems | src/analysis.py:48 | Adding a year to the year list adds that year and nothing else. |
| Values.MeanOf | src/analysis.py:48 | A mean that skips missing values is missing exactly when every value is missing. |
| Values.MeanBetween | src/analysis.py:48 | A missing-aware mean lies between the smallest and the largest present value. |
| Values.StatOfConcat | src/analysis.py:48 | The sum and count of present values are additive over concatenation. |
| Rolling.SlidingTotalsAreWindowTotals | src/analysis.py:72-76 | At every position, the sliding pass holds the sum and count of exactly the trailing window `max(0, k-w+1)..k`. |
| Rolling.RollingMean | src/analysis.py:72-76 | The rolling mean at position `k` is the mean of the present values at positions `max(0, k-w+1)..k`, with `min_periods = 1`. |
| Rolling.RollingMeanWithinWindow | src/analysis.py:72-76 | A rolling mean, and so each `tmean_trend`, is missing exactly when every value in its window is missing. Otherwise it lies between the window's smallest and largest present value. |
| Rolling.RollingTrends | src/analysis.py:53-78 | The trend table has one entry per yearly entry, in the same order, with year and yearly columns unchanged. `tmean_trend` at `k` is the mean of the present yearly `tmean` values in the trailing window of `w` entries. |
| Rolling.RollingMeanFirst | src/analysis.py:72-76 | The first rolling mean equals the first value itself. |
| Rolling.RollingMeanWarmUp | src/analysis.py:70-76 | Before the window is full (`k < w`), the rolling mean is the mean of every value so far. |
| Rolling.TrendWarmUp | src/analysis.py:67-76 | The `tmean_trend` of the first year equals that year's own `tmean`. For `k < w` the trend is the mean over the yearly `tmean` of every year so far. |
| Observations.FilterYears | src/app.py:57 | Every row the year-range filter keeps has a present year within `lo..hi`, both ends included. |
| Observations.FilterYearsCounts | src/app.py:57 | The filter keeps every row whose year is present and within `lo..hi`, as often as the input holds it, and no other row. |
| Observations.FilterYearsCons | src/app.py:57 | A row is kept exactly when its year is in range, ahead of whatever is kept of the rows after it. With no rows after it, this is the one-row case. |
| Observations.FilterYearsConcat | src/app.py:57 | Filtering distributes over concatenation, so the kept rows keep their input order. |

## Left out

- Loading the data (`src/data_loader.py`) is not part of this model. It
  covers the HTTP request and its status check, which are network I/O. It
  also covers the whitespace-separated parsing with seven header lines
  skipped, the mapping of `*`, `---` and `---*` to missing values, and the
  numeric coercion, all of which is library behaviour. The model starts
  from rows that are already parsed.
- Chart construction (`src/visualization.py`) and the Streamlit page
  (`src/app.py`) are presentation and are not modelled. The one exception
  is the year-range filter, included as `Observations.FilterYears`.
- Floating-point rounding and IEEE NaN semantics are not modelled. Values
  are exact reals, and a missing value is `None`.
- TopRecords.TopRecords: does not pin down the order of rows with equal
  values. The library sort is unstable, so the model's insertion sort is
  one admissible outcome and no lemma depends on it.
- The default arguments `n=10` of `get_top_records` and `window=10` of
  `calculate_rolling_trends` are not modelled. Callers of `TopRecords` and
  `RollingTrends` pass `n` and `w` explicitly.
- RollingTrends and RollingMean require `w >= 1`. For a window of zero or
  less, the library raises an error, and that error is not modelled.
- In-place column assignment on the working copy (`src/analysis.py:44`,
  `src/analysis.py:72`) is modelled as building a new value. The input
  table is a value, so leaving it unmodified holds by construction.
- An unknown column name raises a key error in the library. The model
  selects a column by a `Column` constructor, so that error cannot arise
  and is not modelled.
