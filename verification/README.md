# Customer churn features: cleaning and feature engineering in Dafny

This project models the two batch stages that turn the raw Online Retail
transaction log into a per-customer feature table with a churn label.

- **`DataCleaner`** (`src/02_data_cleaning.py`). Nine stages run in a fixed order:
  - five masking stages: missing CustomerID, cancelled "C…" invoices, Quantity ≤ 0, UnitPrice ≤ 0, missing Description;
  - the IQR outlier stage: a Quantity fence on the stage input, then a UnitPrice fence recomputed on what the Quantity fence left;
  - exact-duplicate removal;
  - the derived columns TotalPrice, Year, Month, DayOfWeek and Hour;
  - the CustomerID → int cast.

  Each stage appends one entry to `steps_applied`, and `save_cleaned_data` computes the row counts and retention rate.
- **`FeatureEngineer`** (`src/03_feature_engineering.py`):
  - the reference date (latest InvoiceDate) and the snapshot one day later;
  - per customer: Recency, Frequency, Monetary, AvgOrderValue and ActiveMonths, joined by two inner merges;
  - the Churn label `Recency > threshold`;
  - the counts of `feature_metadata.json`.

Every stage is a pure function of an immutable `Stage(rows, log)`:

- A pandas NaN cell is an `Option`.
- A raised exception is a `Result`. There are two:
  - the error pandas raises for `astype(int)` on a NaN CustomerID;
  - Python's `ZeroDivisionError` from the retention rate.

Modules:

- `Wrappers`: `Option`, `Result` and the two errors.
- `Seqs`: the pandas idioms the stages use:
  - boolean-mask filtering;
  - counting;
  - order-preserving subsequences;
  - `drop_duplicates`/`nunique` (first-occurrence dedup);
  - sums and per-key grouped sums;
  - `max`;
  - sorted distinct group keys.
- `Calendar`: InvoiceDate as whole seconds since 1970-01-01 (proleptic Gregorian). It provides the `.dt` fields year, month, dayofweek (Monday = 0) and hour, and `to_period("M")`. The lemma `DateOfDayNumber` shows the date conversion is exact.
- `Quantile`: `Series.quantile(p)` with pandas' default linear interpolation over an insertion-sorted copy, and the Tukey fence `[Q1 − 1.5·IQR, Q3 + 1.5·IQR]`.
- `Cleaning`: the `DataCleaner` stages, the driver `RunPipeline` and the statistics.
- `Features`: the `FeatureEngineer` steps, the inner joins, the churn label, the metadata and the driver `RunFeatures`.

Consequences of the code that a reader might not expect:

- **Recency.** The snapshot is the reference date plus one day (`src/03_feature_engineering.py:30`), and Recency is `(snapshot_date - x.max()).days` (line 33). So every customer has Recency ≥ 1 (`RecencyAtLeastOne`), although the metadata describes it as "Days since last purchase" (line 90). A customer whose last purchase was exactly 90 days before the reference date has Recency 91, so is churned at the default threshold of line 68 (`ChurnAtNinetyDays`).
- **Empty input.** `save_cleaned_data` divides by `original_rows` (`src/02_data_cleaning.py:200-206`). An empty raw log therefore aborts the run with a division by zero instead of producing an empty table. `RunPipeline` fails with `DivisionByZero` exactly when the raw log is empty. A non-empty log whose rows are all filtered out completes normally.
- **Duplicates after the cast.** `remove_duplicates` (`src/02_data_cleaning.py:153-164`) runs before the CustomerID cast (line 186), and the cast truncates. So two rows differing only in the fraction of their CustomerID can be equal in the cleaned table (`TruncationMergesRows`).
- **Idempotence.** Re-applying a masking stage (`MaskStageIdempotent`) or duplicate removal (`RemoveDuplicatesIdempotent`) removes nothing more. The outlier stage is different: its fences are recomputed on what is left, so a second pass can remove more (`RemoveOutliersNotIdempotent`).
- **`churn_definition`.** The metadata text is the literal "Customer inactive for more than 90 days" (`src/03_feature_engineering.py:98`), whatever threshold `define_churn` was given (`Metadata` records the constant `ChurnDefinition`).

## Model

| member | source | states |
|---|---|---|
| Cleaning.MaskStageSpec | src/02_data_cleaning.py:48-111 | A masking stage keeps an order-preserving subsequence of its input and every input row passing its mask. The logged `rows_removed` is the number of rows failing the mask. |
| Cleaning.MaskStageExact | src/02_data_cleaning.py:48-111 | A masking stage's output is the only order-preserving selection of passing input rows whose length equals the number of passing rows. |
| Cleaning.MaskStageIdempotent | src/02_data_cleaning.py:48-111 | Applying a masking stage to its own output leaves the rows unchanged and logs `rows_removed` = 0. |
| Cleaning.StepNamesDistinct | src/02_data_cleaning.py:55-191 | Two stages write the same `step` string to `steps_applied` iff they are the same stage. |
| Cleaning.StageOrderNames | src/02_data_cleaning.py:55-191 | A log naming the nine stages in pipeline order carries exactly the nine `step` strings the stages write, in that order. |
| Cleaning.RemoveMissingCustomerIdsStage | src/02_data_cleaning.py:48-59 | Every surviving row has a CustomerID. One entry is appended with `rows_removed` = input length − output length. |
| Cleaning.HandleCancelledInvoicesStage | src/02_data_cleaning.py:61-72 | No surviving InvoiceNo starts with "C". One entry is appended with `rows_removed` = input length − output length. |
| Cleaning.HandleNegativeQuantitiesStage | src/02_data_cleaning.py:74-85 | Every surviving Quantity is > 0. One entry is appended with `rows_removed` = input length − output length. |
| Cleaning.HandleZeroPricesStage | src/02_data_cleaning.py:87-98 | Every surviving UnitPrice is > 0. One entry is appended with `rows_removed` = input length − output length. |
| Cleaning.HandleMissingDescriptionsStage | src/02_data_cleaning.py:100-111 | Every surviving row has a Description. One entry is appended with `rows_removed` = input length − output length. |
| Quantile.SortSpec | src/02_data_cleaning.py:119-120 | The sorted copy the quantile reads from is ascending and a permutation of the column. |
| Quantile.QuantileBounds | src/02_data_cleaning.py:119-120 | A quantile lies between a smallest and a largest value of the column. |
| Quantile.QuantileMonotone | src/02_data_cleaning.py:119-120 | A larger p never gives a smaller quantile, so Q1 ≤ Q3. |
| Quantile.IqrFence | src/02_data_cleaning.py:119-124 | The fence is missing exactly for an empty column (NaN quartiles). Otherwise lower ≤ Q1 ≤ Q3 ≤ upper, with each end 1.5·IQR beyond its quartile. |
| Quantile.InterquartileSurvives | src/02_data_cleaning.py:123-129 | Every value between the quartiles passes the fence. |
| Quantile.FenceMovesAfterFiltering | src/02_data_cleaning.py:119-129 | On quantities 1, 1, 1, 2, 10 the fence is [−0.5, 3.5]. On 1, 1, 1, 2 it is [0.625, 1.625]. |
| Cleaning.RemoveOutliersStage | src/02_data_cleaning.py:113-151 | One entry covers both columns, with `rows_removed` = input length − output length, method "IQR" and threshold 1.5. |
| Cleaning.RemoveOutliersSpec | src/02_data_cleaning.py:118-142 | A row survives iff it is an input row whose Quantity lies in the fence of the stage input and whose UnitPrice lies in the fence of the Quantity-filtered rows. Survivors keep their order. |
| Cleaning.RemoveOutliersExact | src/02_data_cleaning.py:118-150 | The surviving rows are exactly the input filtered by the conjunction of the two fence masks, so every passing copy of a repeated row survives. The logged `rows_removed` is the number of input rows failing a fence. |
| Cleaning.RemoveOutliersNotIdempotent | src/02_data_cleaning.py:113-142 | A second outlier pass can remove more rows: quantities 1, 1, 1, 2, 10 lose the 10, then the 2. |
| Cleaning.RemoveDuplicatesStage | src/02_data_cleaning.py:153-164 | One entry is appended with `rows_removed` = input length − output length. |
| Cleaning.RemoveDuplicatesSpec | src/02_data_cleaning.py:157-159 | The output has no two equal rows and holds the same set of rows as the input. Rows appear in first-occurrence order, as a subsequence. The number removed is input length − number of distinct rows. |
| Cleaning.RemoveDuplicatesIdempotent | src/02_data_cleaning.py:157-163 | A second duplicate removal leaves the rows unchanged and logs 0. |
| Seqs.DedupSpec | src/02_data_cleaning.py:157 | First-occurrence dedup is duplicate-free, keeps exactly the input's values, and lists them in order of first occurrence. |
| Cleaning.AddDerivedColumnsStage | src/02_data_cleaning.py:166-181 | Row count and original fields are unchanged. TotalPrice = Quantity × UnitPrice; Year, Month, DayOfWeek and Hour come from InvoiceDate. Month ∈ 1..12, DayOfWeek ∈ 0..6, Hour ∈ 0..23. The entry lists the five added columns. |
| Calendar.DateOf | src/02_data_cleaning.py:170-171 | The date of a day number is a valid calendar date whose day number is that number. |
| Calendar.DateOfDayNumber | src/02_data_cleaning.py:170-171 | Every valid date is recovered from its day number, so year and month are read back exactly. |
| Calendar.Month | src/02_data_cleaning.py:171 | `.dt.month` lies in 1..12. |
| Calendar.DayOfWeek | src/02_data_cleaning.py:172 | `.dt.dayofweek` lies in 0..6. |
| Calendar.DayOfWeekNextDay | src/02_data_cleaning.py:172 | One day later is the next weekday, Sunday wrapping to Monday. |
| Calendar.MondayIsZero | src/02_data_cleaning.py:172 | `.dt.dayofweek` counts Monday as 0: 1970-01-05, a Monday, has weekday 0. |
| Calendar.Hour | src/02_data_cleaning.py:173 | `.dt.hour` lies in 0..23 and names the hour of the day the timestamp falls in. |
| Calendar.HourOfDayShift | src/02_data_cleaning.py:173 | The hour does not depend on the day. |
| Calendar.TimestampInItsDay | src/02_data_cleaning.py:170-173 | A timestamp lies within the day its date names. |
| Cleaning.TruncateToInt | src/02_data_cleaning.py:186 | `astype(int)` rounds toward zero: the result is within one of the input, on the input's side of zero. |
| Cleaning.CoerceRows | src/02_data_cleaning.py:186 | The cast succeeds iff no CustomerID is missing, failing otherwise with the cast error. On success each row keeps its fields, with the truncated CustomerID. |
| Cleaning.ConvertDataTypesStage | src/02_data_cleaning.py:183-193 | As `CoerceRows`, plus one entry without `rows_removed` appended on success. |
| Cleaning.TruncationMergesRows | src/02_data_cleaning.py:186 | Two rows whose CustomerIDs differ only in their fraction are different before the cast and equal after it. |
| Cleaning.SaveStatistics | src/02_data_cleaning.py:195-206 | The statistics fail, with a division by zero, exactly when `original_rows` is 0. Otherwise `rows_removed` + `rows_after_cleaning` = `original_rows`, and `retention_rate` · `original_rows` = `rows_after_cleaning` · 100. |
| Cleaning.FinishRetention | src/02_data_cleaning.py:200-206 | Whatever rows reach the statistics, a successful run's retention rate times `original_rows` equals its row count × 100. |
| Cleaning.RunPipeline | src/02_data_cleaning.py:222-237 | The run succeeds iff the raw log is non-empty; otherwise it fails with the division by zero. On success the row counts add up, the per-stage `rows_removed` entries add up to `rows_removed`, and the log names the nine stages in order, with exactly the nine `step` strings of the source. The cleaned rows are the rows surviving the seven row-dropping stages, one for one and in order, each with its derived columns added and its CustomerID truncated. The retention rate times `original_rows` equals `rows_after_cleaning` × 100. Every cleaned row is valid: not cancelled, Quantity and UnitPrice > 0, Description present, TotalPrice = Quantity × UnitPrice > 0, and calendar fields in range. |
| Cleaning.FinishFacts | src/02_data_cleaning.py:234-236 | Given rows passing all masks and a log accounting for the dropped rows, the last two stages and the statistics agree with `RunPipeline`'s promises, and the cleaned rows are the given rows, one for one, cleaned. |
| Cleaning.FinishRows | src/02_data_cleaning.py:166-193 | Rows passing all masks get through the derived-column and cast stages and come out valid. |
| Cleaning.FinishRowsExact | src/02_data_cleaning.py:166-193 | Rows passing all masks come out of the derived-column and cast stages one for one, in order: the same fields, TotalPrice and the calendar fields of their InvoiceDate added, and the CustomerID truncated. |
| Cleaning.FinishLog | src/02_data_cleaning.py:175-192 | The two stages without `rows_removed` complete the stage order and add nothing to the removed total. |
| Cleaning.MaskStagesCombined | src/02_data_cleaning.py:227-231 | The five masking stages in sequence select exactly the raw rows passing all five masks, in order. |
| Cleaning.MaskStagesLog | src/02_data_cleaning.py:227-231 | The first five entries name the masking stages in order, and their counts add up to the rows removed. |
| Cleaning.MaskStagesFacts | src/02_data_cleaning.py:227-231 | After the masking stages, survivors are an ordered subsequence of the raw log and pass all five masks. Every raw row passing them survives, and the log accounts for every dropped row. |
| Cleaning.FilterStagesFacts | src/02_data_cleaning.py:227-233 | After all seven row-dropping stages, the rows are an ordered subsequence of the raw log, pass all five masks, lie within the Quantity fence of the outlier stage's input and the UnitPrice fence of the rows that fence kept, and hold no duplicates. The seven entries account for every dropped row. |
| Cleaning.LaterStagesFenced | src/02_data_cleaning.py:118-164 | Every row left after duplicate removal lies within both outlier fences of the outlier stage's input. |
| Cleaning.LaterStagesRows | src/02_data_cleaning.py:232-233 | Outlier and duplicate removal keep the masking invariants and leave no duplicates. |
| Cleaning.LaterStagesLog | src/02_data_cleaning.py:232-233 | After the outlier and duplicate stages, the log total still equals the number of raw rows dropped, and the log names the first seven stages in order. |
| Cleaning.SubsequencePreserves | src/02_data_cleaning.py:232-233 | A row property of every input row holds of every row of an order-preserving selection. |
| Features.ReferenceDate | src/03_feature_engineering.py:25-27 | The reference date is missing iff the table is empty. Otherwise it is the InvoiceDate of some row and no row is later. |
| Features.CustomerRowsSpec | src/03_feature_engineering.py:32 | A customer's group holds every row of that customer and no other row, as many rows as the customer has in the table, and is non-empty for every CustomerID of the table. |
| Features.Recency | src/03_feature_engineering.py:33 | Recency is the whole number of days, rounded down, from the last purchase to the snapshot. |
| Features.LastPurchase | src/03_feature_engineering.py:33 | The last purchase is the InvoiceDate of one of the customer's rows, and none is later. |
| Features.RecencyAtLeastOne | src/03_feature_engineering.py:29-33 | With the snapshot one day after the reference date, every customer of the table has Recency ≥ 1. |
| Features.RecencyOfDaysBefore | src/03_feature_engineering.py:30-33 | A last purchase d whole days before the reference date gives Recency d + 1. |
| Features.FrequencySpec | src/03_feature_engineering.py:34 | Frequency is the number of distinct InvoiceNo values of the customer's rows, and is ≥ 1. |
| Features.InvoicesCoverRows | src/03_feature_engineering.py:44-48 | The customer's invoice list is duplicate-free and holds the invoice of every one of its rows. |
| Seqs.GroupSumTotal | src/03_feature_engineering.py:44-48 | Adding up per-key sums over distinct keys covering every row gives the total sum. |
| Features.AvgOrderValueSpec | src/03_feature_engineering.py:44-51 | The mean of the per-invoice TotalPrice sums is Monetary / Frequency, with Frequency > 0. |
| Features.AvgOrderValueTimesFrequency | src/03_feature_engineering.py:44-51 | AvgOrderValue × Frequency = Monetary. |
| Features.ActiveMonthsSpec | src/03_feature_engineering.py:54-59 | ActiveMonths is the number of distinct (year, month) pairs of the customer's InvoiceDates, and is ≥ 1. |
| Features.PurchasesInTwoMonths | src/03_feature_engineering.py:54-59 | A customer with two purchases has two active months if they fall in different calendar months and one if they share a month, at any time of day. |
| Features.TwoPurchasesExample | src/03_feature_engineering.py:29-71 | Purchases at midnight on 2011-01-15 and 2011-03-02, with the snapshot at midnight on 2011-06-01, give Recency 91, ActiveMonths 2 and a churn label at threshold 90. |
| Features.CustomerKeysSpec | src/03_feature_engineering.py:32-39 | The groupby keys are the distinct CustomerIDs of the table, strictly ascending, with exactly one key per distinct CustomerID. |
| Features.RfmTable | src/03_feature_engineering.py:29-40 | The RFM table has exactly the group keys, in order. |
| Features.AovTable | src/03_feature_engineering.py:50-51 | The AvgOrderValue table has exactly the group keys, in order. |
| Features.ActiveMonthsTable | src/03_feature_engineering.py:54-59 | The ActiveMonths table has exactly the group keys, in order. |
| Features.MatchesUnique | src/03_feature_engineering.py:61-65 | In a table with distinct keys, a row's key matches that row alone. |
| Features.MatchesAbsent | src/03_feature_engineering.py:61-65 | A key the table does not hold matches nothing. |
| Features.MergeAligned | src/03_feature_engineering.py:61-65 | An inner merge of two tables with the same distinct keys in the same order has one row per key. Row i pairs row i of each side. |
| Features.CustomerTableSpec | src/03_feature_engineering.py:29-66 | After both merges there is one record per group key, in key order. Each record describes its customer's rows: Recency, Frequency, Monetary, AvgOrderValue and ActiveMonths of exactly that group. |
| Features.DefineChurn | src/03_feature_engineering.py:68-72 | The labelled table has one row per customer record. |
| Features.DefineChurnSpec | src/03_feature_engineering.py:68-71 | Every label is 0 or 1, each record is unchanged, and the label is 1 iff Recency > threshold. |
| Features.ChurnThresholdMonotone | src/03_feature_engineering.py:68-71 | A higher threshold never labels more customers as churned. |
| Features.ChurnAtNinetyDays | src/03_feature_engineering.py:68-71 | At the default threshold, a last purchase 90 days before the reference date is churned and one 89 days before is not. |
| Features.ChurnRate | src/03_feature_engineering.py:84 | The churn rate is missing (NaN) iff there are no customer records. |
| Features.ChurnSumCounts | src/03_feature_engineering.py:84 | The sum of the 0/1 labels is the number of churned customers. |
| Features.ChurnRateSpec | src/03_feature_engineering.py:84 | The churn rate is churned / total × 100: between 0 and 100, 0 iff nobody churned, and 100 iff everybody did. |
| Features.Metadata | src/03_feature_engineering.py:84-100 | `total_customers` is the record count and the churn rate is missing iff there are no records. `churn_definition` is the fixed text. `reference_date` is missing iff the reference timestamp is, and otherwise is the valid date whose day holds it. |
| Features.RunFeatures | src/03_feature_engineering.py:113-124 | `total_customers` equals the number of records, and the reference date is missing iff the cleaned table is empty. Otherwise it is the calendar date of the latest InvoiceDate. |
| Features.RunFeaturesCustomers | src/03_feature_engineering.py:113-124 | Every Churn label is 0 or 1, and there is exactly one record per distinct CustomerID, ascending, with the membership iff. Each record describes its customer's rows, measured from the snapshot one day after the latest InvoiceDate. Recency is ≥ 1, and Churn is 1 iff Recency > 90. |
| Features.RunFeaturesMetadata | src/03_feature_engineering.py:84-88 | `total_customers` counts the records. The churn rate is missing iff the table is empty, and is otherwise the percentage of churned records, between 0 and 100. |

## Left out

- I/O plumbing is not modelled: CSV reading and writing, the latin1 encoding, date-string parsing, the JSON dumps, `os.makedirs`, the logging setup and the `print` summaries. The rows are already-typed values. Because `save_cleaned_data` writes the CSV before it divides, an empty input leaves a file behind; that ordering is not modelled.
- The CSV round trip between the two stages is not modelled: `RunFeatures` takes the cleaned rows as `CleanRow` values.
- Floating point is not modelled:
  - UnitPrice, TotalPrice, the quantiles and the ratios are exact reals;
  - pandas' float rounding of quantile interpolation is absent;
  - CustomerID is an exact real before the cast.
- Timestamp resolution: pandas timestamps have nanosecond resolution; the model uses whole seconds. No property here depends on sub-second parts.
- Integer widths are not modelled: `astype(int)` gives int64 and pandas timestamps span the years 1677 to 2262, while the model's integers and timestamps are unbounded. No property of the core depends on either bound.
- Cleaning.SaveStatistics: `retention_rate` is the exact percentage, without `round(…, 2)`.
- Features.ChurnRate: the rate is the exact percentage, without `round(…, 2)`.
- `missing_values_before` and `missing_values_after` are left out. They are per-column null-count dictionaries that feed nothing else.
- The categorical conversion of StockCode and Country is the identity. It changes storage, not values.
- `finalize_features` (LogMonetary = `np.log1p(Monetary)`) is left out. It is a transcendental function over floats, and no other column depends on it.
- The `features` description dictionary of the metadata is left out. It is constant text.
- Features.Metadata: `reference_date` is the calendar date of the reference timestamp, or missing. The string `str(date)` (or "NaT") is not modelled.
- Features.RunFeatures: for an empty cleaned table there is no reference date and every group table is empty; the model then picks an arbitrary snapshot that no record uses. Whether pandas' empty groupby/merge reproduces exactly this empty frame is not modelled.
- The per-invoice `order_values` table is not built as a table: each customer's invoice sums are formed directly by `GroupSum` over its distinct invoices, which gives the same mean.
- The UI (`app/streamlit_app.py`), prediction wrappers (`app/predict.py`) and data acquisition (`src/01_data_acquisition.py`) are not part of this model.
