# Financial-health ETL: a Dafny model of its cleaning and star-schema core

The repository is a set of pandas scripts that clean a table of financial
transactions and shape it for a dashboard. This project models their logic
as pure Dafny functions over immutable records, and proves what each step
promises:

- **Numeric-text normalisers.** There are three variants, each a textual
  rewrite followed by Python's `float()`:
  - `clean_numeric` of `data_preparation.py` never fails. It maps the
    sentinels `-`, `$-` and the empty text to missing, drops `$` and spaces,
    reads the comma as the decimal point and `(x)` as `-x`.
  - `clean_numeric` of `cleandata.py` removes `NA `, strips the text, drops
    spaces and reads the comma as the decimal point. It raises on text it
    cannot read.
  - `convert_to_float` of `dashboardprep.py` drops spaces, reads the comma
    as the decimal point and never raises.
- **Record cleaner.** This is the module body of `cleandata.py`, lines 29-69:
  - the region typo fix;
  - the `ANONYMOUS` customer id;
  - per-column normalisation and the median fill;
  - the latest-date fill;
  - strip, title-case and mode fill of the categorical columns;
  - the `location` column;
  - deduplication on `transaction_id`;
  - `abs()` of four monetary columns.
- **Star schema and metrics.** These are `create_star_schema` and
  `calculate_dax_metrics` of `dashboardprep.py`:
  - the fact table with profit, variance and the zero-guarded variance
    percentage;
  - the customer, date and product dimensions;
  - the numeric entries of the metrics record.
- **Header trim.** The header clean-up of `data_preparation.py`.

Modules, in dependency order:

| file | module | contents |
|---|---|---|
| wrappers.dfy | `Wrappers` | `Option` for a cell that may be NaN, `Result` for a step that may raise, `TryMap` |
| text.dfy | `Text` | `str.strip`, `str.replace`, `str.title` and the ordering of text |
| decimal.dfy | `Decimal` | the decimal literals `float()` is asked to read, and their exact value |
| numeric.dfy | `Numeric` | the three normalisers and the header trim |
| records.dfy | `Records` | the transaction row, its cells and its columns |
| sequences.dfy | `Sequences` | `drop_duplicates(subset=…, keep='first')` and `unique()` |
| stats.dfy | `Stats` | `median()`, `mode()[0]`, `max()` of dates, `sum()` and `mean()` |
| cleaning.dfy | `Cleaning` | the record cleaner, step by step and as a whole (`Clean`) |
| star.dfy | `Star` | the fact table and the three dimension tables |
| metrics.dfy | `Metrics` | the metrics record (`CalculateMetrics`) |

Conventions of the model:

- **Cells.** An amount cell is `Missing` (NaN), `Num(x)` with an exact
  `real`, or `Str(text)`. A text column is `Option<string>`. A date is an
  already-parsed calendar date or missing.
- **`float()`.** Python's `float()` is `Decimal.Parse` after `Strip`. It
  accepts `[-+]? digits ('.' digits?)? | [-+]? '.' digits`, with surrounding
  whitespace, and gives the literal's exact value.
- **Raising.** A script that raises is a `Failure` carrying a `CleanError`:
  - `NotNumeric(column, text)` when `float()` rejects a cell (a
    `ValueError`);
  - `NoTextValues(column)` when pandas' `.str` accessor meets a non-empty
    column with no text, or `mode()[0]` meets an empty one (an
    `AttributeError` or a `KeyError`).

  The error is the first one the script meets (`Cleaning.RaisesAt`). The
  region step comes first. Then come the amount columns in their listed
  order, where the error carries the first rejected cell of the first
  failing column. Last come the categorical columns in their listed order.
- **`create_star_schema`.** It returns the tuple of `Star.Facts`,
  `Star.CustomerDim`, `Star.DateDim` and `Star.ProductDim` applied to the
  same rows.

Points of the code's behaviour that are easy to misread:

- **Both separators.** Every comma is replaced by a point, so text with
  both a thousands separator and a decimal separator is not a number. The
  two lenient normalisers give missing for it
  (`Numeric.PrepRejectsTwoSeparators`, `Numeric.ConvertRejectsTwoSeparators`).
  In `cleandata.py` the run fails on it.
- **Raising on bad text.** The normaliser of `cleandata.py` raises on text
  `float()` cannot read, so `Cleaning.Clean` fails with `NotNumeric`.
- **`NA`.** `pd.read_csv` already reads a bare `NA` cell as NaN, and that
  cell is then filled with the median like any other gap. The CSV read is
  outside the model, so such a cell arrives here as `Missing`. Text that
  survives the read and holds `NA` reaches `clean_numeric`, which deletes
  only the substring `NA ` (with its space). So `NA 12` reads as 12. But
  ` NA` strips to `NA`, and `NA  ` becomes empty text. `float()` raises on
  both, and the model gives `Failure` (`Numeric.CleanRejectsBareNA`).
- **Ties in the mode.** pandas' `mode()` returns the most frequent values
  sorted, so `mode()[0]` is the smallest of them (`Stats.ModeTieExample`).
- **Fill values.** Each median is taken on the whole normalised column, and
  the latest date and each mode on the whole column, all before
  `drop_duplicates`. A row dropped as a duplicate can still move the value
  that fills a kept row's gap.
- **Order counts.** `orders_count` is never cleaned, so a cell may be NaN.
  `sum()` skips it (`Metrics.AvgOrdersIgnoresMissing`).
- **Column lists.** The script's lists of amount and categorical columns
  hold no column twice (`Cleaning.DistinctColumns`). The column-by-column
  steps are stated for such lists.

## Model

| member | source | states |
|---|---|---|
| Numeric.TrimHeaders | data_preparation.py:6 | one name per column, in order, each the strip of the original |
| Numeric.TrimHeadersUnpadded | data_preparation.py:6 | no trimmed name begins or ends with whitespace |
| Numeric.TrimHeadersIdempotent | data_preparation.py:6 | trimming the trimmed names changes nothing |
| Text.StripParts | cleandata.py:18 | the text is whitespace, then its strip, then whitespace |
| Text.Strip | cleandata.py:18 | the strip is no longer than the text and has no surrounding whitespace |
| Text.StripUnpadded | cleandata.py:18 | text without surrounding whitespace is its own strip |
| Text.StripIdempotent | data_preparation.py:13 | stripping twice is stripping once |
| Text.StripKeeps | data_preparation.py:13 | stripping keeps every copy of every non-whitespace character |
| Text.ReplaceAll | cleandata.py:18-22 | `str.replace` with a non-empty pattern; text shorter than the pattern is unchanged. The lemmas below say what it computes: `Text.ReplaceNoMatch` leaves text without the pattern unchanged, and `Text.ReplaceSplit` says it distributes over a split that no occurrence straddles. The same function serves data_preparation.py:18-19 and dashboardprep.py:12 |
| Text.ReplaceNoMatch | cleandata.py:29 | text where the pattern occurs nowhere is unchanged by `replace` |
| Text.ReplacePattern | cleandata.py:29 | the pattern itself is replaced by the replacement |
| Text.ReplaceSplit | cleandata.py:29 | `replace` distributes over a split that no occurrence straddles |
| Text.ReplaceCharPointwise | dashboardprep.py:12 | replacing one character by another changes exactly the positions holding it |
| Text.DeleteCharContents | cleandata.py:20 | deleting a character removes every copy of it and keeps every other character with its multiplicity |
| Text.Title | cleandata.py:54 | cased characters keep their letter, and are upper exactly when they start a cased run; other characters are kept |
| Text.TitleIdempotent | cleandata.py:54 | title-casing twice is title-casing once |
| Text.LexLeTotal | cleandata.py:55 | the text order `mode()` sorts by is total |
| Text.LexLeAntisymmetric | cleandata.py:55 | the text order is antisymmetric |
| Text.LexLeTransitive | cleandata.py:55 | the text order is transitive |
| Decimal.LexSound | cleandata.py:22 | what the lexer accepts is a well-formed literal whose text is the input |
| Decimal.ParseExactly | cleandata.py:22 | the parser accepts exactly the texts of well-formed literals, and reads each as the literal's value |
| Decimal.LexRender | cleandata.py:22 | lexing a literal's text gives the literal back |
| Decimal.ParseRender | cleandata.py:22 | every well-formed literal's text parses to its value |
| Decimal.ParseNegated | data_preparation.py:21 | `-` in front of an unsigned literal negates its value |
| Decimal.TwoPointsRejected | data_preparation.py:22-25 | text with two points is not a number |
| Decimal.ForeignRejected | cleandata.py:22 | text with a character other than a digit, sign or point is not a number |
| Decimal.NotLiterals | data_preparation.py:15-16 | the texts `""` and `"-"` are not numbers |
| Numeric.PyFloat | cleandata.py:22 | `float()`: a number exactly when the stripped text is the rendering of a well-formed decimal literal, and then that literal's value (through `Decimal.ParseExactly`); the same reading serves data_preparation.py:23 and dashboardprep.py:13 |
| Numeric.PrepareNumber | data_preparation.py:10-25 | missing stays missing, a number is kept, a sentinel after stripping is missing |
| Numeric.SentinelsAreNotNumbers | data_preparation.py:15-16 | what is left of `-` and of the empty text after the rewrite is not a number either |
| Numeric.DropDollarsAndSpaces | data_preparation.py:18 | no `$` and no space is left |
| Numeric.DropKeeps | data_preparation.py:18 | every other character is kept as often as it occurs |
| Numeric.PrepIgnoresDollarsAndSpaces | data_preparation.py:18 | removing `$` and spaces from the input never changes the result |
| Numeric.PrepCommaIsPoint | data_preparation.py:19 | turning commas into points in the input never changes the result |
| Numeric.PrepCommaExample | data_preparation.py:19 | `"1,50"` and `"1.50"` both read as 1.5 |
| Numeric.Parenthesised | data_preparation.py:20-21 | the rewrite of `(x)` adds no character other than `-` |
| Numeric.PrepParentheses | data_preparation.py:20-21 | `(x)` reads as minus what `x` reads as, when `x` rewrites to an unsigned literal |
| Numeric.PrepParenthesesExample | data_preparation.py:20-21 | `"($1,50)"` reads as -1.5 |
| Numeric.PrepRewrite | data_preparation.py:18-21 | the rewritten text has no `$`, space or comma |
| Numeric.PrepRewriteIdempotent | data_preparation.py:18-21 | the rewrite applied twice equals the rewrite applied once, on every text |
| Numeric.PrepRewriteFixed | data_preparation.py:18-21 | text the rewrite has nothing to do on is left as it is |
| Numeric.PrepRejectsTwoSeparators | data_preparation.py:19-25 | text with two separators (points or commas in any mix) reads as missing |
| Numeric.PrepRejectsExample | data_preparation.py:19-25 | `"1.234,56"` reads as missing |
| Numeric.CleanNumber | cleandata.py:12-23 | missing exactly gives missing, a number is kept, and a failure carries the cell's own text |
| Numeric.CleanExample | cleandata.py:16-22 | `"NA 1 500,25"` is cleaned to 1500.25 |
| Numeric.CleanRejectsExample | cleandata.py:22 | `"abc"` is not recovered: it fails with its text |
| Numeric.CleanRejectsBareNA | cleandata.py:18-22 | ` NA` and `NA  ` are not recovered: only `NA ` with its space is removed, and each fails with its own text |
| Numeric.CleanRejectsForeign | cleandata.py:18-22 | unpadded text that cannot begin a number, with no `N`, space or comma, fails with its own text |
| Numeric.CleanAgreesWithConvert | cleandata.py:16-22 | on text without `NA `, the cleaner succeeds exactly when `convert_to_float` gives a number, and with that number |
| Numeric.ConvertToFloat | dashboardprep.py:5-15 | missing stays missing and a number is kept; it never fails |
| Numeric.ConvertIgnoresSpaces | dashboardprep.py:12 | spaces never affect the result |
| Numeric.ConvertCommaIsPoint | dashboardprep.py:12 | turning commas into points never changes the result |
| Numeric.ConvertRejectsTwoSeparators | dashboardprep.py:12-15 | text with two separators reads as missing |
| Numeric.ConvertRejectsExample | dashboardprep.py:12-15 | `"1,234.56"` reads as missing |
| Numeric.ConvertTwice | dashboardprep.py:20-22 | converting an already converted cell again changes nothing |
| Cleaning.FixRegionTypo | cleandata.py:29 | `Westrn Cape` becomes `Western Cape` |
| Cleaning.FixRegionClean | cleandata.py:29 | a region without the misspelling, or a missing one, is unchanged |
| Cleaning.FixRegionAround | cleandata.py:29 | an occurrence is replaced where it stands and the text on each side is fixed on its own |
| Cleaning.MapRegions | cleandata.py:29 | one row per row, only the region changed |
| Cleaning.FixRegions | cleandata.py:29 | fails exactly on a non-empty column without any region text |
| Cleaning.FillCustomerIds | cleandata.py:32 | no row dropped, present ids unchanged, missing ids become `ANONYMOUS`, rows otherwise unchanged |
| Cleaning.ConvertColumn | cleandata.py:41 | succeeds exactly when every cell normalises, then each row holds its normalised cell; a failure names the column |
| Cleaning.ConvertColumnFirstFailure | cleandata.py:41 | a failure carries the text of the first cell that cannot be normalised |
| Cleaning.FillMissing | cleandata.py:43 | missing cells take the fill value when it is a number, and every other row is unchanged |
| Cleaning.FillMedian | cleandata.py:43 | one row per row; a missing cell becomes the median of the column when the column has one, every other row is unchanged, and a column with no number is left as it is |
| Cleaning.FillMedianComplete | cleandata.py:43 | after the median fill a column with at least one number has no gap |
| Cleaning.FillMedianExample | cleandata.py:43 | `[10, 20, missing]` is filled with 15 and the other cells are unchanged |
| Cleaning.ConvertedReadings | cleandata.py:41-43 | the median is taken on the normalised column, and the fill after normalising uses the median of the input column's readings |
| Cleaning.SameAmountsFill | cleandata.py:43 | two tables with the same cells in a column have the same median fill for it |
| Cleaning.UntouchedFill | cleandata.py:37-43 | cleaning one column leaves the median fill of every other column as it was |
| Cleaning.CleanMeasures | cleandata.py:35-43 | fails exactly when some column has a cell `float()` rejects, naming the first such column in list order and its first rejected cell's text; otherwise in each row a column holds its cell's number, or, where the cell is missing, the median of the input table's normalised column; nothing else changes |
| Stats.Median | cleandata.py:43 | missing exactly when no value is present |
| Stats.MedianBetween | cleandata.py:43 | the median lies between two present values |
| Stats.MedianPermutation | cleandata.py:43 | the median depends only on the multiset of present values |
| Stats.MedianExample | cleandata.py:43 | the median of `[10, 20, missing]` is 15 |
| Stats.Sort | cleandata.py:43 | the sorted values are in order and a permutation of the input |
| Stats.SortedUnique | cleandata.py:43 | two sorted arrangements of the same values are equal |
| Stats.MaxDate | cleandata.py:48 | missing exactly when no date is present, otherwise a present date no earlier than any other |
| Cleaning.FillDates | cleandata.py:48-49 | present dates unchanged, missing dates become the latest present date, nothing else changed |
| Cleaning.FillDatesLatest | cleandata.py:48-49 | after the fill a date is present exactly when one was present in the column, and filled dates are the latest |
| Cleaning.Tidy | cleandata.py:54 | a missing label stays missing; a present one becomes no longer, has no surrounding whitespace and is its own title case |
| Cleaning.TidyIdempotent | cleandata.py:54 | strip then title-case applied twice is applied once |
| Stats.Mode | cleandata.py:55 | missing exactly when no value is present, otherwise a most frequent value, the smallest among ties |
| Stats.ModeUnique | cleandata.py:55 | there is only one such value |
| Stats.ModeTieExample | cleandata.py:55 | between `Retail` and `Corporate`, seen once each, the mode is `Corporate` |
| Cleaning.TidyCategory | cleandata.py:54-55 | fails exactly on a column with no text; otherwise each row has its label tidied, or gets the mode of the tidied column |
| Cleaning.SameLabelsFill | cleandata.py:55 | two tables with the same labels in a column have the same mode fill for it |
| Cleaning.UntouchedMode | cleandata.py:52-55 | tidying one column leaves the mode fill of every other column as it was |
| Cleaning.TidyCategories | cleandata.py:52-55 | fails exactly when one of the columns has no text, naming the first such column in list order; otherwise each label is tidied, a missing one becomes the mode of its tidied input column, and nothing else changes |
| Cleaning.Location | cleandata.py:58 | present exactly when region and country are, then the region, `", "` and the country |
| Cleaning.AddLocations | cleandata.py:58 | one row per row, each with its location and otherwise unchanged |
| Sequences.DedupBy | cleandata.py:65 | keys distinct, all input keys kept, each row the first input row with its key, in order of first appearance |
| Sequences.DedupIdempotent | cleandata.py:65 | deduplicating twice is deduplicating once |
| Cleaning.DropDuplicateTransactions | cleandata.py:65 | transaction ids distinct, all kept, first occurrence kept, input order kept |
| Cleaning.DuplicateExample | cleandata.py:65 | of two rows with one id only the first stays |
| Cleaning.AbsCell | cleandata.py:68-69 | a number becomes non-negative and equals itself or its negation; missing stays missing |
| Cleaning.AbsRow | cleandata.py:68-69 | budget, actual, cost and revenue take their magnitude, the claim keeps its sign, nothing else changes |
| Cleaning.AbsAmounts | cleandata.py:68-69 | one row per row, each with its magnitudes |
| Cleaning.AbsCellCleaned | cleandata.py:68-69 | after `abs()` a cleaned cell holds the magnitude of its number or of its median fill, and is never negative |
| Cleaning.MeasuredFails | cleandata.py:29-43 | the steps up to the amounts fail exactly at an empty region column or a column with text `float()` rejects |
| Cleaning.PrepareFails | cleandata.py:29-55 | the steps before deduplication fail exactly when the script raises |
| Cleaning.PrepareRaises | cleandata.py:29-55 | the error is the first the script meets: the region step, then the first failing amount column with its first rejected cell, then the first categorical column without text; past the region step it is `NotNumeric` exactly when an amount column fails |
| Cleaning.DistinctColumns | cleandata.py:35-52 | the lists of amount and of categorical columns have no repeats |
| Cleaning.PrepareRows | cleandata.py:29-58 | before deduplication each row is its input row with every step applied: a missing amount becomes the median of the input column, a missing date the latest input date, a missing label the mode of the tidied input column |
| Cleaning.FinishKeys | cleandata.py:65-69 | the cleaned ids are distinct, are all the input ids, and follow their first appearance |
| Cleaning.FinishMatches | cleandata.py:65-69 | each cleaned row is the first input row with its id, with every step applied and each gap filled with the value taken on the whole table before deduplication |
| Cleaning.Clean | cleandata.py:29-69 | fails exactly when the script raises, with the error of the first failing step, column and cell; otherwise ids are unique and complete, in order, each row the first one with its id, cleaned, with medians, latest date and modes taken on the input table |
| Cleaning.CleanEmptyFails | cleandata.py:52-55 | an empty table fails at the `segment` column |
| Star.Minus | dashboardprep.py:33-34 | present exactly when both sides are, then the difference |
| Star.VariancePct | dashboardprep.py:35-39 | present exactly when variance and budget are and the budget is not 0, then the ratio |
| Star.FactFrom | dashboardprep.py:25-39 | the row's columns are copied, and profit = revenue − cost, variance = actual − budget, with NaN propagated |
| Star.FactOf | dashboardprep.py:20-39 | the row's identifiers, category, flags and order count are copied, each amount goes through `convert_to_float`, profit and variance are the column differences and the percentage is the variance over a non-zero budget |
| Star.FactOfMeasures | dashboardprep.py:33-34 | profit is revenue − cost and variance is actual − budget when both cells are numbers, and missing when either cell is missing |
| Star.Facts | dashboardprep.py:20-29 | one fact per input row, in input order |
| Star.ZeroBudgetNoPct | dashboardprep.py:35-39 | a zero budget gives a missing percentage |
| Sequences.Distinct | dashboardprep.py:49-61 | `drop_duplicates()` and `unique()`: no repeats, nothing that was not in the input, every input value kept |
| Sequences.DistinctOrder | dashboardprep.py:49-61 | the distinct values keep the order of their first appearance |
| Star.CustomerDim | dashboardprep.py:47-49 | every input (id, segment, region, country) tuple exactly once and nothing else |
| Star.CustomerIdRepeats | dashboardprep.py:47-49 | one id with two segments gives two rows with that id |
| Star.Quarter | dashboardprep.py:57 | the quarter is in 1..4 and contains the month |
| Star.DateRowOf | dashboardprep.py:51-58 | day, month, year from the date, quarter containing the month, month_year = (year, month); NaT has no attributes |
| Star.DateDim | dashboardprep.py:51-53 | one row per distinct date, every row's date present, nothing else |
| Star.ProductTypeOf | dashboardprep.py:63-67 | Risk Products exactly for `Insurance` and `Loans` |
| Star.ProductDim | dashboardprep.py:60-67 | categories distinct, each with its product type |
| Star.ProductDimCovers | dashboardprep.py:60-62 | every row's category has a product row |
| Star.ProductDimSources | dashboardprep.py:60-62 | every product row's category occurs in the table |
| Star.ProductDimOrder | dashboardprep.py:60-62 | product rows follow the order of first appearance |
| Star.LowerCaseIsTransactional | dashboardprep.py:64 | the test is case-sensitive: `insurance` is transactional |
| Stats.Sum | dashboardprep.py:86-92 | `sum()` has no contract of its own; `Stats.SumAppend` and `Metrics.TotalLast` state what it adds up, and `Stats.Mean` relates it to the mean |
| Stats.SumAppend | dashboardprep.py:77-78 | the sum of two columns joined is the sum of the first plus the sum of the second |
| Stats.Mean | dashboardprep.py:93-94 | `mean()` is missing exactly when no value is present, and otherwise times the number of present values it gives the sum |
| Metrics.Total | dashboardprep.py:86-92 | a column total has no contract of its own; `Metrics.TotalLast` states it and `Metrics.TotalProfit` relates two of them |
| Metrics.TotalLast | dashboardprep.py:86-92 | appending a row adds that row's value to the total, a missing value adding nothing |
| Metrics.InsuranceFacts | dashboardprep.py:76-78 | the `== 'Insurance'` mask: only Insurance rows, every Insurance row, nothing added |
| Metrics.TotalProfit | dashboardprep.py:86-88 | Total Profit = Total Revenue − Total Cost when none is missing |
| Metrics.TotalVariance | dashboardprep.py:91-93 | the variance total = actual total − budget total when none is missing |
| Metrics.Average | dashboardprep.py:93-94 | the mean is missing exactly when every value is |
| Metrics.AverageAllPresent | dashboardprep.py:93-94 | with no value missing, the mean is the total over the number of rows |
| Metrics.AverageVariance | dashboardprep.py:93 | Avg Budget Variance = (actual total − budget total) / rows when none is missing |
| Metrics.LossRatio | dashboardprep.py:76-79 | Insurance claims over Insurance revenue when that revenue is positive, else 0 |
| Metrics.LossRatioIgnoresOthers | dashboardprep.py:76-79 | rows of other categories leave the ratio unchanged |
| Metrics.LowerCaseInsuranceIgnored | dashboardprep.py:76 | an `insurance` row does not count |
| Metrics.LossRatioDilutes | dashboardprep.py:77-79 | an Insurance row with revenue but no claim lowers a positive ratio |
| Metrics.NUnique | dashboardprep.py:82 | the number of distinct present ids |
| Metrics.NUniqueZero | dashboardprep.py:82 | zero exactly when no id is present |
| Metrics.TotalCustomers | dashboardprep.py:82 | max(1, number of distinct ids) |
| Metrics.CustomerDimIds | dashboardprep.py:82 | the dimension has exactly the rows' ids, so counting there counts the rows' customers |
| Metrics.IntTotal | dashboardprep.py:101 | `sum()` of an integer column: 0 on all zeros, non-negative on non-negative values; `Metrics.IntTotalBounds` bounds it by the row count for 0/1 flags |
| Metrics.IntTotalBounds | dashboardprep.py:101 | with every value 0 or 1, the sum lies between 0 and the number of values |
| Metrics.Retention | dashboardprep.py:101 | 1 − churn sum / Total Customers |
| Metrics.RetentionInUnitRange | dashboardprep.py:101 | with 0/1 flags and no more rows than customers, the rate is in [0, 1] |
| Metrics.RetentionCanBeNegative | dashboardprep.py:101 | flags are summed per row: one customer churned on two rows gives -1 |
| Metrics.PresentTotal | dashboardprep.py:102 | `sum()` of the order counts: the integer sum with a missing count read as 0; 0 when every count is missing, non-negative when every count is |
| Metrics.AvgOrders | dashboardprep.py:102 | the sum of the present order counts / Total Customers |
| Metrics.AvgOrdersIgnoresMissing | dashboardprep.py:102 | a fact whose order count is NaN leaves the average unchanged |
| Metrics.CalculateMetrics | dashboardprep.py:84-102 | each entry is its column total or mean, the loss ratio, max(1, distinct ids of the customer dimension), the retention or the orders per customer |

## Left out

- File I/O, printing and `main()` are not modelled: CSV reads and writes, `json.dump` and the progress messages are I/O, not logic.
- Locale set-up and `format_sa_number` are not modelled. They depend on the platform's locale library and only format a presentation copy of the data.
- `pd.to_datetime` parsing is not modelled. Dates arrive already parsed or missing. In `cleandata.py` (`errors='coerce'`, line 46) a date that fails to parse becomes missing, which is what the model has.
- The unparseable date of `dashboardprep.py` is not modelled. At line 52 `pd.to_datetime` is called without `errors=`, so such a date raises there, and `main()` stops at lines 161-164. `Star.DateDim` instead gives every date it receives a row. The model assumes `dashboardprep.py` reads the output of `cleandata.py`, where every date is parsed or missing.
- Regional Risk Exposure is not modelled: it needs a standard deviation over floats and pandas merge/groupby semantics.
- The `_dax_formulas` entry of the metrics dictionary is not modelled: it is constant text.
- The blanket `except` fallbacks are not modelled: the profit/variance fallback and `calculate_dax_metrics` returning `{}`. They fire only on missing columns or pandas errors, which fixed record datatypes exclude.
- The integer casts of the flags and `pd.to_numeric` are not modelled. Flags are integers already, and amounts are exact numbers or missing after `convert_to_float`.
- Python `float()` is restricted to the decimal grammar above over exact reals. Exponents, `inf`/`nan`, underscores and IEEE rounding are not modelled.
- The `astype(str)` text `nan` is not modelled as text: a missing cell goes straight to missing, which is where `float('nan')` leads.
- Text.Title: only ASCII letters count as cased; the full Unicode case tables are not modelled.
- Text.ReplaceAll: requires a non-empty pattern. The scripts never replace an empty one.
- Numeric.PrepIgnoresDollarsAndSpaces: requires that the text's only whitespace be the space character. `strip()` also removes tabs and other whitespace, and `"$\t(5)"` shows the claim failing without the requirement.
- Cleaning.AbsCell: leaves a text cell unchanged. After cleaning no amount is text, and pandas would raise on `abs()` of text.
- Metrics.TotalProfit: requires every revenue and cost to be present. `sum()` skips NaN, so with gaps the totals differ by the skipped rows.
- Metrics.TotalVariance: requires every budget and actual amount to be present, for the same reason.
- Metrics.AverageVariance: requires every budget and actual amount to be present, for the same reason.
- Metrics.RetentionInUnitRange: requires no more fact rows than customers and 0/1 flags, because the script sums flags per row.
