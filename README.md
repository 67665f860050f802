# Excel comparison-column analyzer, modelled in Dafny

`excel_analyzer.py` is a console tool. It lists the Excel workbooks in the working
directory and asks for one by number. It loads that workbook's first sheet and picks the
columns whose label contains 对比 ("comparison"). For each of these columns it counts
the failing cells and the present (non-null) cells. It then prints a fail rate and a pass
rate per column, followed by totals and an overall fail rate.

The model keeps the program's decisions and leaves out its I/O. The directory listing,
the number typed at the prompt and the loaded tables are parameters.

- `Strings` holds the string tests:
  - ASCII lower-casing for `str.lower()`;
  - the character folding that `re.IGNORECASE` applies to the failure keywords;
  - `str.endswith`;
  - substring containment (`in`).
- `Filters` holds the order-preserving filter that the source writes out twice as an
  append loop, with its lemmas.
- `Verdicts` holds the per-column rules:
  - a `Cells` datatype, tagged `Text` (pandas dtype `object`) or `Numeric`, with `None`
    for a missing cell;
  - the fail mask (`Mask`), its sum (`CountTrue`), `dropna()` (`DropNa`);
  - the fail and pass percentages as exact rationals;
  - the per-column record `ColumnSummary`.
- `Analyzer` holds the control flow of `main()`:
  - the loops that build `excel_files` and `comparison_columns` (methods proved equal
    to `Filters.Filter`);
  - the validation of the typed number;
  - the per-column loop with its running totals (`AnalyzeColumns`);
  - the overall rate;
  - the whole run (`Run`), proved equal to the function `Analysis`.

Where the code and the written design disagree, the model follows the code:

- A column without present cells gets fail rate 0 and pass rate `100 - 0 = 100`
  (lines 81 and 89), not a pass rate of 0.
- There is no pass count in the code: the pass rate is `100 - fail rate`. The model
  proves that this equals the share of present cells that do not fail
  (`PassRateIsPassShare`).
- The "average fail rate" (line 101) is the pooled rate: total failures over total
  records. The model proves that it equals the mean of the columns' fail rates, each
  weighted by the column's number of present cells (`OverallIsWeightedMean`).

## Model

| member | source | states |
|---|---|---|
| Filters.Filter | excel_analyzer.py:11-14 | every kept element comes from the input and passes the test; the result is never longer than the input |
| Filters.FilterAppend | excel_analyzer.py:11-14 | filtering a concatenation filters each part and keeps the parts in order, so kept elements keep their relative order |
| Filters.FilterPrefixStep | excel_analyzer.py:12-14 | examining one more element appends it exactly when it passes the test |
| Filters.FilterKeeps | excel_analyzer.py:47-50 | every element that passes the test is kept |
| Filters.FilterMultiplicity | excel_analyzer.py:47-50 | each element is kept exactly as many times as it occurs when it passes the test, and never otherwise |
| Filters.FilterEmptyIff | excel_analyzer.py:52-55 | the filter is empty exactly when no element passes the test |
| Strings.EndsWithLowerOfTail | excel_analyzer.py:13 | whether a lower-cased name ends with a suffix depends only on the name's tail |
| Strings.ContainsInside | excel_analyzer.py:49 | a substring placed anywhere in a string is found by `in` |
| Analyzer.ListExcelFiles | excel_analyzer.py:11-14 | the loop returns exactly the entries whose lower-cased name ends with ".xlsx" or ".xls", in listing order |
| Analyzer.ExcelFilesExactly | excel_analyzer.py:12-14 | a name is listed if and only if it is a directory entry and has an Excel extension |
| Analyzer.ExcelExtensionAnyCase | excel_analyzer.py:13 | any name ending in ".xlsx" or ".xls", in any mix of upper and lower case, is listed |
| Analyzer.NotExcelNames | excel_analyzer.py:13 | "book.xlsm", "data.csv" and "xlsx" (no dot) are not listed |
| Analyzer.Select | excel_analyzer.py:28-39 | a typed number n selects a file if and only if 1 <= n <= the number of files, and then selects the file listed at position n; text that is not a number is rejected separately |
| Analyzer.FindComparisonColumns | excel_analyzer.py:47-50 | the loop returns exactly the columns whose label contains 对比, in table order |
| Analyzer.ComparisonColumnsExactly | excel_analyzer.py:48-50 | a column is analyzed if and only if it is in the table and its label contains 对比 (case-sensitive) |
| Analyzer.MarkerAnywhere | excel_analyzer.py:49 | 对比 at any position of a label marks a comparison column |
| Analyzer.NoComparisonColumnsIff | excel_analyzer.py:52-55 | the run ends on the "no comparison columns" path if and only if no label contains 对比 |
| Analyzer.SumsSnoc | excel_analyzer.py:83-84 | adding one column's record adds its fail count and its total to the running totals |
| Analyzer.AnalyzeColumns | excel_analyzer.py:66-97 | the loop yields one record per comparison column in order, and its accumulators equal the sums of the records' fail counts and totals |
| Analyzer.FailsWithinTotals | excel_analyzer.py:83-84 | summed over valid records, total failures never exceed total records |
| Analyzer.WeightedRatesAreFails | excel_analyzer.py:81-84 | the sum of each column's fail rate times its total equals 100 times the total failures |
| Analyzer.OverallIsPercentage | excel_analyzer.py:100-101 | the overall rate is computed if and only if the total records are positive, and is then between 0 and 100 |
| Analyzer.OverallIsWeightedMean | excel_analyzer.py:100-105 | the overall rate is the mean of the column fail rates weighted by each column's present cells |
| Analyzer.Run | excel_analyzer.py:11-101 | the step-by-step program ends exactly as the functional description `Analysis` says |
| Analyzer.NoExcelFilesIff | excel_analyzer.py:16-20 | the run stops before the prompt if and only if no entry has an Excel extension |
| Analyzer.ChosenFileIsListed | excel_analyzer.py:29-34 | a table is read only after a number between 1 and the file count is typed, and the table read is the one of the file listed at that number, an Excel entry of the directory |
| Analyzer.SummariesOfColumns | excel_analyzer.py:70-97 | there is one valid record per column, and each record summarizes one of the columns |
| Analyzer.ReportRecordsAreColumns | excel_analyzer.py:70-97 | a report has at least one record, and each record summarizes a column of the table whose label contains 对比 |
| Analyzer.ReportTotalsAreConsistent | excel_analyzer.py:80-101 | in a report, total failures never exceed total records, and the overall rate is present if and only if there are records, as a percentage |
| Verdicts.Mask | excel_analyzer.py:74-78 | the mask has one entry per row, true exactly for a present cell that satisfies the rule; missing cells are always false |
| Verdicts.DropNa | excel_analyzer.py:80 | `dropna()` keeps exactly the present values and is never longer than the column |
| Verdicts.FailTextWhenKeyword | excel_analyzer.py:73-76 | a text cell holding one of the six keywords, in any mix of cases and anywhere in the text, fails |
| Verdicts.MaskWithinPresent | excel_analyzer.py:74-80 | for any rule, the number of masked cells is at most the number of present cells |
| Verdicts.MaskSplitsPresent | excel_analyzer.py:74-80 | for complementary rules, the two mask counts add up to the number of present cells |
| Verdicts.FailWithinTotal | excel_analyzer.py:72-80 | each column's fail count is at most its non-null count |
| Verdicts.FailPlusPassIsTotal | excel_analyzer.py:72-80 | fail count plus pass count (present cells that do not fail) equals the non-null count |
| Verdicts.RatesArePercentages | excel_analyzer.py:81-96 | with fail <= total, both rates lie in [0, 100] and add up to 100; with total 0 the fail rate is 0 and the pass rate 100 |
| Verdicts.FailRateExtremes | excel_analyzer.py:81 | the fail rate is 0 exactly when nothing failed or nothing is present, and 100 exactly when every present cell failed |
| Verdicts.ComplementShare | excel_analyzer.py:89 | when fail + pass = total > 0, `100 - fail rate` equals pass / total * 100 |
| Verdicts.PassRateIsPassShare | excel_analyzer.py:89 | a column's printed pass rate is the percentage of its present cells that pass |
| Verdicts.Summarize | excel_analyzer.py:72-84 | a column's record keeps its label, and its fail count never exceeds its total |
| Verdicts.SummaryRates | excel_analyzer.py:88-96 | a valid record's fail and pass rates are percentages that add up to 100 |
| Verdicts.NumericExampleCounts | excel_analyzer.py:77-80 | the numeric column [0, 0, 1, 2] has 2 failures among 4 present cells |
| Verdicts.NumericExample | excel_analyzer.py:77-89 | the numeric column [0, 0, 1, 2] has fail rate 50 and pass rate 50 |
| Verdicts.NumericNullsAndNegatives | excel_analyzer.py:77-80 | in a numeric column, missing cells and -1 do not fail, 0 does, and missing cells are not counted |
| Verdicts.FailingTexts | excel_analyzer.py:73-76 | "Failed", "fAiL" and "结果不通过" fail |
| Verdicts.PassingTexts | excel_analyzer.py:73-76 | "通过" and "Pass" pass, while "不通过" fails |
| Verdicts.TextExample | excel_analyzer.py:72-80 | a text column with three failing texts and one missing cell has 3 failures among 3 present cells |

## Left out

- Console output, the banner and the `input()` prompts (lines 6-8, 17-19, 23-25, 31,
  35, 38, 44, 53-54, 57-64, 86-89, 102-106, 120, 123, 125-126) are I/O. The model
  returns an `Outcome` instead of printing.
- `int(input(...))` (line 29) is taken as an already parsed `Option<int>`, with `None`
  for text that `int()` rejects. Python's rules for parsing the number are not modelled.
- `os.listdir` (line 12) and `pd.read_excel` (line 43) are filesystem and library calls.
  The listing is a parameter and the tables are a function from file name to table. A
  file that fails to load, and the catch-all handler at lines 122-123, are not modelled.
- Writing the text report (lines 109-118), including its file name from
  `os.path.splitext`, is file I/O.
- Rates are exact rationals. Formatting them with `:.2f` (lines 88-89, 95-96, 105) and
  floating-point rounding are not modelled. A record keeps its counts, and its two rates
  are functions of those counts.
- pandas' dtype test (line 72) is replaced by the `Text`/`Numeric` tag on `Cells`. A text
  cell is given by its `str()` form. Numeric cells are reals, so a boolean column is
  modelled as 0 and 1. Datetime columns and other non-numeric dtypes are not modelled.
- Case folding: `str.lower()` is modelled by ASCII lower-casing. This is exact for the
  ".xlsx"/".xls" test, because no other character lowers to '.', 'x', 'l' or 's'.
  `re.IGNORECASE` is modelled by ASCII lower-casing plus mapping U+0130 and U+0131 to
  'i'. Those are the only case equivalences that touch the letters of the keywords.
- The regex alternation is modelled as "contains one of the keywords". This is exact
  because no keyword holds a regular-expression metacharacter.
- Duplicate column labels are not modelled: with them, `df[column]` returns a frame, not
  a column.
- Per-row reason inference, the pass-rate ranking and the multi-sheet workbook output do
  not appear in this program, so they are not modelled.
