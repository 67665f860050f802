/** Per-column verdicts of excel_analyzer.py: which cells of a comparison column count as
    failures, how many cells the column has, and its fail and pass rates. */
module Verdicts {
  import opened Wrappers
  import opened Strings

  /** The column's cells as pandas holds them. A column of dtype `object` is `Text`, each
      present cell given by its `str()` form; any other column is `Numeric`. `None`
      is a missing cell (NaN or None), which `dropna()` removes. */
  datatype Cells = Text(texts: seq<Option<string>>) | Numeric(values: seq<Option<real>>)

  /** A column of the table: its label in `str()` form, and its cells. */
  datatype Column = Column(name: string, cells: Cells)

  /** The per-column record that is printed and appended to `results`. Its two rates are
      computed from the counts, as exact rationals instead of two-decimal strings. */
  datatype ColumnSummary = ColumnSummary(name: string, failCount: nat, totalCount: nat)
  {
    /** Failures never outnumber the present cells. */
    predicate Valid()
    {
      failCount <= totalCount
    }

    /** The "不通过率" entry. */
    function FailRate(): real
    {
      FailPercentage(failCount, totalCount)
    }

    /** The "通过率" entry. */
    function PassRate(): real
    {
      PassPercentage(failCount, totalCount)
    }
  }

  /** The failure keywords, in their order in the source. */
  const FailKeywords: seq<string> := ["不通过", "失败", "不合格", "未通过", "Fail", "FAIL"]

  /** A text cell fails when a case-insensitive search for the alternation of the keywords
      finds a match. None of the keywords holds a regular-expression metacharacter, so the
      alternation matches exactly where one of the keywords occurs. */
  predicate IsFailText(s: string)
  {
    exists k :: k in FailKeywords && Contains(Fold(s), Fold(k))
  }

  /** A numeric cell fails when it equals 0. */
  predicate IsZero(v: real)
  {
    v == 0.0
  }

  /** The boolean Series `p(cell)` with missing cells mapped to False. */
  function Mask<T>(p: T -> bool, cells: seq<Option<T>>): (m: seq<bool>)
    ensures |m| == |cells|
    ensures forall i :: 0 <= i < |cells| ==> (m[i] <==> cells[i].Some? && p(cells[i].value))
  {
    if cells == [] then [] else [cells[0].Some? && p(cells[0].value)] + Mask(p, cells[1..])
  }

  /** `Series.sum()` of a boolean Series: the number of True entries. */
  function CountTrue(m: seq<bool>): nat
  {
    if m == [] then 0 else (if m[0] then 1 else 0) + CountTrue(m[1..])
  }

  /** `Series.dropna()`: the present values, in order. */
  function DropNa<T(!new)>(cells: seq<Option<T>>): (r: seq<T>)
    ensures |r| <= |cells|
    ensures forall x :: x in r <==> Some(x) in cells
  {
    if cells == [] then []
    else (if cells[0].Some? then [cells[0].value] else []) + DropNa(cells[1..])
  }

  /** The fail mask of a column: the text rule for text columns, the zero rule for numeric
      ones. */
  function FailMask(c: Cells): seq<bool>
  {
    match c
    case Text(texts) => Mask(IsFailText, texts)
    case Numeric(values) => Mask(IsZero, values)
  }

  predicate IsPassText(s: string)
  {
    !IsFailText(s)
  }

  predicate IsNonZero(v: real)
  {
    !IsZero(v)
  }

  /** The mask of the cells that pass: present and not failing. The analyzer reports only
      a pass rate, which is the share of these cells. */
  function PassMask(c: Cells): seq<bool>
  {
    match c
    case Text(texts) => Mask(IsPassText, texts)
    case Numeric(values) => Mask(IsNonZero, values)
  }

  function FailCount(c: Cells): nat
  {
    CountTrue(FailMask(c))
  }

  function PassCount(c: Cells): nat
  {
    CountTrue(PassMask(c))
  }

  /** `len(df[column].dropna())`: the number of present cells. */
  function TotalCount(c: Cells): nat
  {
    match c
    case Text(texts) => |DropNa(texts)|
    case Numeric(values) => |DropNa(values)|
  }

  /** `fail_count / total_count * 100`, or 0 for a column without present cells. */
  function FailPercentage(fail: nat, total: nat): real
  {
    if total > 0 then (fail as real) / (total as real) * 100.0 else 0.0
  }

  /** `100 - fail_percentage`. */
  function PassPercentage(fail: nat, total: nat): real
  {
    100.0 - FailPercentage(fail, total)
  }

  /** A text cell fails exactly when it holds one of the keywords, in any mix of cases. */
  lemma FailTextWhenKeyword(before: string, word: string, after: string, k: string)
    requires k in FailKeywords && Fold(word) == Fold(k)
    ensures IsFailText(before + word + after)
  {
    FoldAppend(before + word, after);
    FoldAppend(before, word);
    ContainsInside(Fold(before), Fold(k), Fold(after));
  }

  /** Counting the present cells that satisfy `p` never exceeds the present cells. */
  lemma {:induction false} MaskWithinPresent<T(!new)>(p: T -> bool, cells: seq<Option<T>>)
    ensures CountTrue(Mask(p, cells)) <= |DropNa(cells)|
  {
    if cells != [] {
      MaskWithinPresent(p, cells[1..]);
      assert Mask(p, cells)[1..] == Mask(p, cells[1..]);
    }
  }

  /** Every present cell either satisfies `p` or does not, and missing cells do neither. */
  lemma {:induction false} MaskSplitsPresent<T(!new)>(
    p: T -> bool, q: T -> bool, cells: seq<Option<T>>)
    requires forall x :: q(x) == !p(x)
    ensures CountTrue(Mask(p, cells)) + CountTrue(Mask(q, cells)) == |DropNa(cells)|
  {
    if cells != [] {
      MaskSplitsPresent(p, q, cells[1..]);
      assert Mask(p, cells)[1..] == Mask(p, cells[1..]);
      assert Mask(q, cells)[1..] == Mask(q, cells[1..]);
    }
  }

  /** Each column's fail count is at most its number of present cells. */
  lemma FailWithinTotal(c: Cells)
    ensures FailCount(c) <= TotalCount(c)
  {
    match c
    case Text(texts) => MaskWithinPresent(IsFailText, texts);
    case Numeric(values) => MaskWithinPresent(IsZero, values);
  }

  /** fail count + pass count == present cells. */
  lemma FailPlusPassIsTotal(c: Cells)
    ensures FailCount(c) + PassCount(c) == TotalCount(c)
  {
    match c
    case Text(texts) => MaskSplitsPresent(IsFailText, IsPassText, texts);
    case Numeric(values) => MaskSplitsPresent(IsZero, IsNonZero, values);
  }

  /** With at most as many failures as cells, both rates are percentages summing to 100;
      a column without present cells has fail rate 0 and pass rate 100. */
  lemma RatesArePercentages(fail: nat, total: nat)
    requires fail <= total
    ensures 0.0 <= FailPercentage(fail, total) <= 100.0
    ensures 0.0 <= PassPercentage(fail, total) <= 100.0
    ensures FailPercentage(fail, total) + PassPercentage(fail, total) == 100.0
    ensures total == 0 ==> FailPercentage(fail, total) == 0.0 && PassPercentage(fail, total) == 100.0
  {
    if total > 0 {
      var q := (fail as real) / (total as real);
      assert q * (total as real) == fail as real;
      assert 0.0 <= q <= 1.0;
    }
  }

  /** The fail rate is 0 exactly when nothing failed, and 100 exactly when every present
      cell failed. */
  lemma FailRateExtremes(fail: nat, total: nat)
    requires fail <= total
    ensures FailPercentage(fail, total) == 0.0 <==> fail == 0 || total == 0
    ensures FailPercentage(fail, total) == 100.0 <==> total > 0 && fail == total
  {
    if total > 0 {
      var q := (fail as real) / (total as real);
      assert q * (total as real) == fail as real;
    }
  }

  /** The pass rate `100 - fail rate` is the share of present cells that pass. */
  lemma PassRateIsPassShare(c: Cells)
    requires TotalCount(c) > 0
    ensures PassPercentage(FailCount(c), TotalCount(c))
         == (PassCount(c) as real) / (TotalCount(c) as real) * 100.0
  {
    FailPlusPassIsTotal(c);
    ComplementShare(FailCount(c), PassCount(c), TotalCount(c));
  }

  lemma ComplementShare(fail: nat, pass: nat, total: nat)
    requires fail + pass == total && total > 0
    ensures PassPercentage(fail, total) == (pass as real) / (total as real) * 100.0
  {
    var t, f, p := total as real, fail as real, pass as real;
    assert (f / t) * t == f;
    assert (p / t) * t == p;
    assert (f / t) + (p / t) == 1.0;
  }

  /** The record for one comparison column, as lines 72-84 compute it: its fail count
      never exceeds its present cells. */
  function Summarize(col: Column): (s: ColumnSummary)
    ensures s.Valid() && s.name == col.name
  {
    FailWithinTotal(col.cells);
    ColumnSummary(col.name, FailCount(col.cells), TotalCount(col.cells))
  }

  /** The two rates of a record are percentages that add up to 100. */
  lemma SummaryRates(s: ColumnSummary)
    requires s.Valid()
    ensures 0.0 <= s.FailRate() <= 100.0 && 0.0 <= s.PassRate() <= 100.0
    ensures s.FailRate() + s.PassRate() == 100.0
  {
    RatesArePercentages(s.failCount, s.totalCount);
  }

  /** The numeric example: [0, 0, 1, 2] has two failures out of four, a 50% fail rate. */
  lemma NumericExample()
    ensures var s := Summarize(Column("数值对比", Numeric([Some(0.0), Some(0.0), Some(1.0), Some(2.0)])));
      s.failCount == 2 && s.totalCount == 4 && s.FailRate() == 50.0 && s.PassRate() == 50.0
  {
    NumericExampleCounts();
    assert FailPercentage(2, 4) == 50.0;
  }

  lemma NumericExampleCounts()
    ensures var c := Numeric([Some(0.0), Some(0.0), Some(1.0), Some(2.0)]);
      FailCount(c) == 2 && TotalCount(c) == 4
  {
    var cells := [Some(0.0), Some(0.0), Some(1.0), Some(2.0)];
    MaskValues(IsZero, cells, [true, true, false, false]);
    assert DropNa(cells) == [0.0, 0.0, 1.0, 2.0];
  }

  /** Missing cells and negative values never fail a numeric column. */
  lemma NumericNullsAndNegatives()
    ensures var c := Numeric([None, Some(-1.0), Some(0.0), None]);
      FailCount(c) == 1 && TotalCount(c) == 2
  {
    var cells := [None, Some(-1.0), Some(0.0), None];
    MaskValues(IsZero, cells, [false, false, true, false]);
    assert DropNa(cells) == [-1.0, 0.0];
  }

  /** Keywords are found in any case and inside longer text; a missing cell never fails. */
  lemma TextExample()
    ensures var c := Text([Some("Failed"), Some("结果不通过"), None, Some("fAiL")]);
      FailCount(c) == 3 && TotalCount(c) == 3
  {
    var cells := [Some("Failed"), Some("结果不通过"), None, Some("fAiL")];
    FailingTexts();
    MaskValues(IsFailText, cells, [true, true, false, true]);
    assert DropNa(cells) == ["Failed", "结果不通过", "fAiL"];
  }

  lemma FailingTexts()
    ensures IsFailText("Failed") && IsFailText("结果不通过") && IsFailText("fAiL")
  {
    FailTextWhenKeyword("", "Fail", "ed", "Fail");
    assert "" + "Fail" + "ed" == "Failed";
    FailTextWhenKeyword("结果", "不通过", "", "不通过");
    assert "结果" + "不通过" + "" == "结果不通过";
    FailTextWhenKeyword("", "fAiL", "", "FAIL");
    assert "" + "fAiL" + "" == "fAiL";
  }

  /** "通过" (passed) and "Pass" hold no keyword, so they pass; "不通过" (not passed)
      holds one, so it fails. */
  lemma PassingTexts()
    ensures !IsFailText("通过") && !IsFailText("Pass") && IsFailText("不通过")
  {
    FailTextWhenKeyword("", "不通过", "", "不通过");
    assert "" + "不通过" + "" == "不通过";
    assert Fold("通过") == "通过";
    assert Fold("Pass") == "pass";
    forall k | k in FailKeywords
      ensures !Contains("通过", Fold(k)) && !Contains("pass", Fold(k))
    {
      assert Fold(k)[0] in {'不', '失', '未', 'f'};
      NotContainsWithoutFirst("通过", Fold(k));
      NotContainsWithoutFirst("pass", Fold(k));
    }
  }

  /** Helpers for the examples: a mask given element by element. */
  lemma MaskValues<T>(p: T -> bool, cells: seq<Option<T>>, m: seq<bool>)
    requires |m| == |cells|
    requires forall i :: 0 <= i < |m| ==> (m[i] <==> cells[i].Some? && p(cells[i].value))
    ensures Mask(p, cells) == m
  {
  }
}
