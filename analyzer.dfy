/** The control flow of `main()` in excel_analyzer.py, with its console and file I/O
    replaced by parameters: the directory listing, the number typed at the prompt (None
    when `int()` rejects the text) and the table that `pd.read_excel` loads. */
module Analyzer {
  import opened Wrappers
  import opened Strings
  import opened Filters
  import opened Verdicts

  // ---------------------------------------------------------------- input files

  /** A directory entry is offered for analysis when its lower-cased name ends with
      ".xlsx" or ".xls". */
  predicate IsExcelName(name: string)
  {
    EndsWith(Lower(name), ".xlsx") || EndsWith(Lower(name), ".xls")
  }

  /** The loop that builds `excel_files`. */
  method ListExcelFiles(entries: seq<string>) returns (files: seq<string>)
    ensures files == Filter(IsExcelName, entries)
  {
    files := [];
    var i := 0;
    while i < |entries|
      invariant 0 <= i <= |entries|
      invariant files == Filter(IsExcelName, entries[..i])
    {
      FilterPrefixStep(IsExcelName, entries, i);
      if IsExcelName(entries[i]) {
        files := files + [entries[i]];
      }
      i := i + 1;
    }
    assert entries[..i] == entries;
  }

  /** A name is listed exactly when it is an entry with an Excel extension. */
  lemma ExcelFilesExactly(entries: seq<string>, name: string)
    ensures name in Filter(IsExcelName, entries) <==> name in entries && IsExcelName(name)
  {
    if name in entries && IsExcelName(name) {
      FilterKeeps(IsExcelName, entries, name);
    }
  }

  /** Any stem followed by ".xlsx" or ".xls" in any mix of cases is an Excel name. */
  lemma ExcelExtensionAnyCase(stem: string, ext: string)
    requires Lower(ext) == ".xlsx" || Lower(ext) == ".xls"
    ensures IsExcelName(stem + ext)
  {
    EndsWithLowerOfTail(stem, ext, Lower(ext));
  }

  /** Neighbouring extensions and a bare extension without its dot are not listed. */
  lemma NotExcelNames()
    ensures !IsExcelName("book.xlsm") && !IsExcelName("data.csv") && !IsExcelName("xlsx")
  {
    assert Lower("book.xlsm")[8] == 'm';
    assert Lower("data.csv")[7] == 'v';
    assert Lower("xlsx")[0] == 'x';
  }

  // ---------------------------------------------------------------- file selection

  datatype Selection = Chosen(file: string) | NotANumber | OutOfRange

  /** The file picked by the number typed at the prompt. The listing numbers the files
      from 1, and the program subtracts 1 before checking the index. */
  function Select(files: seq<string>, typed: Option<int>): (sel: Selection)
    ensures sel == NotANumber <==> typed == None
    ensures sel.Chosen? <==> typed.Some? && 1 <= typed.value <= |files|
    ensures sel.Chosen? ==> sel.file == files[typed.value - 1]
  {
    match typed
    case None => NotANumber
    case Some(n) =>
      var choice := n - 1;
      if choice < 0 || choice >= |files| then OutOfRange else Chosen(files[choice])
  }

  // ---------------------------------------------------------------- comparison columns

  /** The marker a comparison column's label contains ("comparison"). */
  const ComparisonMarker: string := "对比"

  predicate IsComparisonColumn(col: Column)
  {
    Contains(col.name, ComparisonMarker)
  }

  /** The loop that builds `comparison_columns`. */
  method FindComparisonColumns(table: seq<Column>) returns (columns: seq<Column>)
    ensures columns == Filter(IsComparisonColumn, table)
  {
    columns := [];
    for i := 0 to |table|
      invariant columns == Filter(IsComparisonColumn, table[..i])
    {
      FilterPrefixStep(IsComparisonColumn, table, i);
      if IsComparisonColumn(table[i]) {
        columns := columns + [table[i]];
      }
    }
    assert table[..|table|] == table;
  }

  /** A column is analyzed exactly when it is in the table and its label contains the
      marker. */
  lemma ComparisonColumnsExactly(table: seq<Column>, col: Column)
    ensures col in Filter(IsComparisonColumn, table)
        <==> col in table && Contains(col.name, ComparisonMarker)
  {
    if col in table && IsComparisonColumn(col) {
      FilterKeeps(IsComparisonColumn, table, col);
    }
  }

  /** A label holding the marker anywhere, for example "结果对比" or "对比_金额", marks a
      comparison column. */
  lemma MarkerAnywhere(before: string, after: string, cells: Cells)
    ensures IsComparisonColumn(Column(before + ComparisonMarker + after, cells))
  {
    ContainsInside(before, ComparisonMarker, after);
  }

  // ---------------------------------------------------------------- per-column loop

  /** `results` as the loop builds it: one record per comparison column, in order. */
  function Summaries(columns: seq<Column>): (rs: seq<ColumnSummary>)
  {
    seq(|columns|, i requires 0 <= i < |columns| => Summarize(columns[i]))
  }

  function SumFails(rs: seq<ColumnSummary>): nat
  {
    if rs == [] then 0 else rs[0].failCount + SumFails(rs[1..])
  }

  function SumTotals(rs: seq<ColumnSummary>): nat
  {
    if rs == [] then 0 else rs[0].totalCount + SumTotals(rs[1..])
  }

  /** Sum of `failRate * totalCount`: each column's rate weighted by its present cells. */
  function SumWeightedRates(rs: seq<ColumnSummary>): real
  {
    if rs == [] then 0.0 else rs[0].FailRate() * (rs[0].totalCount as real) + SumWeightedRates(rs[1..])
  }

  /** Adding one record at the end adds its counts to the running totals. */
  lemma {:induction false} SumsSnoc(rs: seq<ColumnSummary>, r: ColumnSummary)
    ensures SumFails(rs + [r]) == SumFails(rs) + r.failCount
    ensures SumTotals(rs + [r]) == SumTotals(rs) + r.totalCount
  {
    if rs != [] {
      assert (rs + [r])[1..] == rs[1..] + [r];
      SumsSnoc(rs[1..], r);
    }
  }

  /** The loop over the comparison columns, with `total_fail_count` and
      `total_record_count` accumulated in place. */
  method AnalyzeColumns(columns: seq<Column>)
    returns (results: seq<ColumnSummary>, totalFail: nat, totalRecords: nat)
    ensures results == Summaries(columns)
    ensures totalFail == SumFails(results) && totalRecords == SumTotals(results)
  {
    results := [];
    totalFail, totalRecords := 0, 0;
    for i := 0 to |columns|
      invariant results == Summaries(columns[..i])
      invariant totalFail == SumFails(results) && totalRecords == SumTotals(results)
    {
      var summary := Summarize(columns[i]);
      SumsSnoc(results, summary);
      totalFail := totalFail + summary.failCount;
      totalRecords := totalRecords + summary.totalCount;
      results := results + [summary];
    }
    assert columns[..|columns|] == columns;
  }

  /** Summed over well-formed records, failures never exceed records. */
  lemma {:induction false} FailsWithinTotals(rs: seq<ColumnSummary>)
    requires forall r :: r in rs ==> r.Valid()
    ensures SumFails(rs) <= SumTotals(rs)
  {
    if rs != [] {
      assert rs[0] in rs;
      FailsWithinTotals(rs[1..]);
    }
  }

  /** Weighting each column's fail rate by its present cells gives 100 times its fail
      count, so the weighted sum is 100 times the total failures. */
  lemma {:induction false} WeightedRatesAreFails(rs: seq<ColumnSummary>)
    requires forall r :: r in rs ==> r.Valid()
    ensures SumWeightedRates(rs) == 100.0 * (SumFails(rs) as real)
  {
    if rs != [] {
      var r := rs[0];
      assert r.Valid();
      if r.totalCount > 0 {
        var f, t := r.failCount as real, r.totalCount as real;
        assert (f / t) * t == f;
      }
      WeightedRatesAreFails(rs[1..]);
    }
  }

  /** The overall fail rate, computed only when some comparison column has a present
      cell. */
  function OverallRate(totalFail: nat, totalRecords: nat): Option<real>
  {
    if totalRecords > 0 then Some((totalFail as real) / (totalRecords as real) * 100.0)
    else None
  }

  /** Failures never exceed records, and the overall rate exists exactly when there are
      records, and is then a percentage. */
  lemma OverallIsPercentage(rs: seq<ColumnSummary>)
    requires forall r :: r in rs ==> r.Valid()
    ensures SumFails(rs) <= SumTotals(rs)
    ensures OverallRate(SumFails(rs), SumTotals(rs)).Some? <==> SumTotals(rs) > 0
    ensures SumTotals(rs) > 0 ==> 0.0 <= OverallRate(SumFails(rs), SumTotals(rs)).value <= 100.0
  {
    FailsWithinTotals(rs);
    if SumTotals(rs) > 0 {
      PercentOfTotal(SumFails(rs) as real, SumTotals(rs) as real);
    }
  }

  /** The overall rate is the mean of the columns' fail rates weighted by their present
      cells. */
  lemma OverallIsWeightedMean(rs: seq<ColumnSummary>)
    requires forall r :: r in rs ==> r.Valid()
    requires SumTotals(rs) > 0
    ensures OverallRate(SumFails(rs), SumTotals(rs)).value
         == SumWeightedRates(rs) / (SumTotals(rs) as real)
  {
    WeightedRatesAreFails(rs);
    PercentOfTotal(SumFails(rs) as real, SumTotals(rs) as real);
  }

  /** The arithmetic step of the two lemmas above. */
  lemma PercentOfTotal(f: real, t: real)
    requires t > 0.0
    ensures f / t * 100.0 == (100.0 * f) / t
    ensures 0.0 <= f <= t ==> 0.0 <= f / t * 100.0 <= 100.0
  {
    var q := f / t;
    assert q * t == f;
    var u := (100.0 * f) / t;
    assert u * t == 100.0 * f;
    assert (q * 100.0) * t == 100.0 * f;
    if 0.0 <= f <= t {
      assert 0.0 <= q <= 1.0;
    }
  }

  // ---------------------------------------------------------------- main()

  /** How a run of `main()` ends. The analyzed file's name is kept on the last two. */
  datatype Outcome =
    | NoExcelFiles
    | InvalidNumber
    | InvalidChoice
    | NoComparisonColumns(file: string)
    | Report(file: string, results: seq<ColumnSummary>, totalFail: nat, totalRecords: nat,
             overall: Option<real>)

  /** What `main()` does once a file is chosen and `read_excel` has loaded its table. */
  function AnalyzeTable(file: string, table: seq<Column>): Outcome
  {
    var columns := Filter(IsComparisonColumn, table);
    if columns == [] then NoComparisonColumns(file)
    else
      var results := Summaries(columns);
      var fails, records := SumFails(results), SumTotals(results);
      Report(file, results, fails, records, OverallRate(fails, records))
  }

  /** What `main()` does for a directory listing, a typed number and the tables
      `read_excel` would load. */
  function Analysis(entries: seq<string>, typed: Option<int>, read: string -> seq<Column>): Outcome
  {
    var files := Filter(IsExcelName, entries);
    if files == [] then NoExcelFiles
    else
      match Select(files, typed)
      case NotANumber => InvalidNumber
      case OutOfRange => InvalidChoice
      case Chosen(file) => AnalyzeTable(file, read(file))
  }

  /** `main()` itself, step by step. */
  method Run(entries: seq<string>, typed: Option<int>, read: string -> seq<Column>)
    returns (outcome: Outcome)
    ensures outcome == Analysis(entries, typed, read)
  {
    var files := ListExcelFiles(entries);
    if files == [] {
      return NoExcelFiles;
    }
    var selection := Select(files, typed);
    if selection == NotANumber {
      return InvalidNumber;
    }
    if selection == OutOfRange {
      return InvalidChoice;
    }
    var file := selection.file;
    var columns := FindComparisonColumns(read(file));
    if columns == [] {
      return NoComparisonColumns(file);
    }
    var results, totalFail, totalRecords := AnalyzeColumns(columns);
    outcome := Report(file, results, totalFail, totalRecords, OverallRate(totalFail, totalRecords));
  }

  /** The program stops before prompting exactly when no entry has an Excel extension. */
  lemma NoExcelFilesIff(entries: seq<string>, typed: Option<int>, read: string -> seq<Column>)
    ensures Analysis(entries, typed, read) == NoExcelFiles
        <==> forall e :: e in entries ==> !IsExcelName(e)
  {
    FilterEmptyIff(IsExcelName, entries);
  }

  /** Only a typed number between 1 and the number of listed files goes on to read a
      table; the file read is the one listed at that number, an entry with an Excel
      extension. */
  lemma ChosenFileIsListed(entries: seq<string>, typed: Option<int>, read: string -> seq<Column>)
    requires Analysis(entries, typed, read) !in {NoExcelFiles, InvalidNumber, InvalidChoice}
    ensures var files := Filter(IsExcelName, entries);
      && typed.Some? && 1 <= typed.value <= |files|
      && Analysis(entries, typed, read) == AnalyzeTable(files[typed.value - 1], read(files[typed.value - 1]))
      && files[typed.value - 1] in entries && IsExcelName(files[typed.value - 1])
  {
    var files := Filter(IsExcelName, entries);
    assert files[typed.value - 1] in files;
    ExcelFilesExactly(entries, files[typed.value - 1]);
  }

  /** The analysis stops on the "no comparison columns" path exactly when no label of the
      table contains the marker. */
  lemma NoComparisonColumnsIff(file: string, table: seq<Column>)
    ensures AnalyzeTable(file, table) == NoComparisonColumns(file)
        <==> forall c :: c in table ==> !Contains(c.name, ComparisonMarker)
  {
    FilterEmptyIff(IsComparisonColumn, table);
  }

  /** Every record of `Summaries(columns)` summarizes one of the columns. */
  lemma SummariesOfColumns(columns: seq<Column>)
    ensures |Summaries(columns)| == |columns|
    ensures forall r :: r in Summaries(columns) ==>
      r.Valid() && exists c :: c in columns && r == Summarize(c)
  {
    var rs := Summaries(columns);
    forall r | r in rs
      ensures r.Valid() && exists c :: c in columns && r == Summarize(c)
    {
      var i :| 0 <= i < |rs| && rs[i] == r;
      assert columns[i] in columns;
    }
  }

  /** A report has at least one record, and each record summarizes a comparison column
      of the table. */
  lemma ReportRecordsAreColumns(file: string, table: seq<Column>)
    requires AnalyzeTable(file, table).Report?
    ensures var o := AnalyzeTable(file, table);
      && 1 <= |o.results|
      && forall r :: r in o.results ==>
           exists c :: c in table && IsComparisonColumn(c) && r == Summarize(c)
  {
    SummariesOfColumns(Filter(IsComparisonColumn, table));
  }

  /** A report's totals never have more failures than records, and its overall rate is
      given exactly when there are records, as a percentage. */
  lemma ReportTotalsAreConsistent(file: string, table: seq<Column>)
    requires AnalyzeTable(file, table).Report?
    ensures var o := AnalyzeTable(file, table);
      && o.totalFail <= o.totalRecords
      && (o.overall.Some? <==> o.totalRecords > 0)
      && (o.overall.Some? ==> 0.0 <= o.overall.value <= 100.0)
  {
    var rs := Summaries(Filter(IsComparisonColumn, table));
    SummariesOfColumns(Filter(IsComparisonColumn, table));
    OverallIsPercentage(rs);
  }
}
