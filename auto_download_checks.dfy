/**
 * The helpers written inside test/test-auto-download.js: the stability monitor that decides a
 * lazily loading table has finished, the test's own cell escaper, and the "all" text match used
 * to find a "Show All" control.
 */
module AutoDownloadChecks {
  import opened Wrappers
  import opened Text
  import opened CsvCodec

  // ---------------------------------------------------------------------------------------
  // Stability monitor

  /** Unchanged checks needed before loading counts as complete. */
  const StableThreshold := 3

  /** The row count read when the scripted counts are exhausted, or on a count of 0. */
  const FallbackRowCount := 15

  /** `rowCounts[k] || 15`: past the end, or on a falsy 0, the fallback count is read. */
  function Observed(rowCounts: seq<nat>, k: nat): (r: nat)
    ensures r > 0
    ensures k < |rowCounts| && rowCounts[k] != 0 ==> r == rowCounts[k]
  {
    if k < |rowCounts| && rowCounts[k] != 0 then rowCounts[k] else FallbackRowCount
  }

  /** The closure variables `checkIndex`, `stableCount`, `previousRowCount`. */
  datatype MonitorState = MonitorState(checkIndex: nat, stableCount: nat, previousRowCount: nat)

  /** What `simulateTableCheck` returns. */
  datatype CheckResult = CheckResult(currentRowCount: nat, stableCount: nat, isComplete: bool)

  const Initial := MonitorState(0, 0, 0)

  /** One `simulateTableCheck()`: an unchanged count is one more stable check, a change starts over. */
  function Check(rowCounts: seq<nat>, s: MonitorState): (MonitorState, CheckResult) {
    var current := Observed(rowCounts, s.checkIndex);
    var next :=
      if current == s.previousRowCount then MonitorState(s.checkIndex + 1, s.stableCount + 1, s.previousRowCount)
      else MonitorState(s.checkIndex + 1, 0, current);
    (next, CheckResult(current, next.stableCount, next.stableCount >= StableThreshold))
  }

  /** The state after `n` checks. */
  function After(rowCounts: seq<nat>, n: nat): MonitorState {
    if n == 0 then Initial else Check(rowCounts, After(rowCounts, n - 1)).0
  }

  /** The result of the `n`-th check. */
  function ResultOf(rowCounts: seq<nat>, n: nat): CheckResult
    requires n >= 1
  {
    Check(rowCounts, After(rowCounts, n - 1)).1
  }

  /**
   * After `n` checks, `stableCount` is the length of the final run of equal readings minus one:
   * the last `stableCount + 1` readings equal the latest, and the one before them (if any)
   * differs. The first check always starts a run, since no reading is 0.
   */
  lemma {:induction false} StableCountIsRun(rowCounts: seq<nat>, n: nat)
    requires n >= 1
    ensures After(rowCounts, n).checkIndex == n
    ensures After(rowCounts, n).previousRowCount == Observed(rowCounts, n - 1)
    ensures var s := After(rowCounts, n).stableCount;
      && s <= n - 1
      && (forall j :: n - 1 - s <= j < n ==> Observed(rowCounts, j) == Observed(rowCounts, n - 1))
      && (s < n - 1 ==> Observed(rowCounts, n - 2 - s) != Observed(rowCounts, n - 1))
  {
    if n > 1 {
      StableCountIsRun(rowCounts, n - 1);
    }
  }

  /** A check reports completion exactly when its reading and the three before it are equal. */
  lemma CompleteIffFourEqual(rowCounts: seq<nat>, n: nat)
    requires n >= 1
    ensures ResultOf(rowCounts, n).isComplete <==>
      n >= 4 && forall j :: n - 4 <= j < n ==> Observed(rowCounts, j) == Observed(rowCounts, n - 1)
    ensures ResultOf(rowCounts, n).currentRowCount == Observed(rowCounts, n - 1)
  {
    StableCountIsRun(rowCounts, n);
  }

  /**
   * The do-while loop of `testTableMonitoring`: checks run until one reports completion or
   * `rowCounts.length + 3` checks have run, and at least one check always runs.
   */
  method MonitorTable(rowCounts: seq<nat>) returns (result: CheckResult, checks: nat)
    ensures 1 <= checks <= |rowCounts| + 3
    ensures result == ResultOf(rowCounts, checks)
    ensures !result.isComplete ==> checks == |rowCounts| + 3
    ensures forall k :: 1 <= k < checks ==> !ResultOf(rowCounts, k).isComplete
  {
    var checkIndex, stableCount, previousRowCount := 0, 0, 0;
    result := CheckResult(0, 0, false);
    var first := true;
    while first || (!result.isComplete && checkIndex < |rowCounts| + 3)
      invariant first ==> checkIndex == 0
      invariant MonitorState(checkIndex, stableCount, previousRowCount) == After(rowCounts, checkIndex)
      invariant !first ==> 1 <= checkIndex && result == ResultOf(rowCounts, checkIndex)
      invariant checkIndex <= |rowCounts| + 3
      invariant forall k :: 1 <= k < checkIndex ==> !ResultOf(rowCounts, k).isComplete
      decreases |rowCounts| + 3 - checkIndex
    {
      first := false;
      var currentRowCount := if checkIndex < |rowCounts| && rowCounts[checkIndex] != 0 then rowCounts[checkIndex] else 15;
      if currentRowCount == previousRowCount {
        stableCount := stableCount + 1;
      } else {
        stableCount := 0;
        previousRowCount := currentRowCount;
      }
      checkIndex := checkIndex + 1;
      result := CheckResult(currentRowCount, stableCount, stableCount >= StableThreshold);
    }
    checks := checkIndex;
  }

  /** The counts 5, 10, 15, 15, 15 (then 15 by default): the sixth check is the first complete one. */
  lemma LoadingThenStable()
    ensures forall k :: 1 <= k < 6 ==> !ResultOf([5, 10, 15, 15, 15], k).isComplete
    ensures ResultOf([5, 10, 15, 15, 15], 6) == CheckResult(15, 3, true)
  {
    var c: seq<nat> := [5, 10, 15, 15, 15];
    assert After(c, 1) == MonitorState(1, 0, 5);
    assert After(c, 2) == MonitorState(2, 0, 10);
    assert After(c, 3) == MonitorState(3, 0, 15);
    assert After(c, 4) == MonitorState(4, 1, 15);
    assert After(c, 5) == MonitorState(5, 2, 15);
    assert ResultOf(c, 1) == CheckResult(5, 0, false);
    assert ResultOf(c, 2) == CheckResult(10, 0, false);
    assert ResultOf(c, 3) == CheckResult(15, 0, false);
    assert ResultOf(c, 4) == CheckResult(15, 1, false);
    assert ResultOf(c, 5) == CheckResult(15, 2, false);
  }

  /** `testTableMonitoring`: monitoring completes, reading 15 rows. */
  method TestTableMonitoring() returns (result: CheckResult)
    ensures result.isComplete && result.currentRowCount == 15
  {
    var counts: seq<nat> := [5, 10, 15, 15, 15];
    var checks;
    result, checks := MonitorTable(counts);
    LoadingThenStable();
    StopsAtFirstComplete(counts, 6, checks);
  }

  /**
   * Whatever stopped the loop, when some check within the bound completes, the loop ran exactly
   * up to the first such check.
   */
  lemma StopsAtFirstComplete(rowCounts: seq<nat>, n: nat, checks: nat)
    requires 1 <= n <= |rowCounts| + 3
    requires ResultOf(rowCounts, n).isComplete
    requires forall k :: 1 <= k < n ==> !ResultOf(rowCounts, k).isComplete
    requires 1 <= checks <= |rowCounts| + 3
    requires !ResultOf(rowCounts, checks).isComplete ==> checks == |rowCounts| + 3
    requires forall k :: 1 <= k < checks ==> !ResultOf(rowCounts, k).isComplete
    ensures checks == n
  {
  }

  /** With no scripted counts the fallback is read three times and the monitor gives up incomplete. */
  lemma NoCountsNeverComplete()
    ensures forall k :: 1 <= k <= 3 ==> !ResultOf([], k).isComplete
  {
    assert After([], 1) == MonitorState(1, 0, 15);
    assert After([], 2) == MonitorState(2, 1, 15);
  }

  // ---------------------------------------------------------------------------------------
  // The test's own cell escaper

  /** Whether a cell value is falsy in JavaScript (`NaN` is not modelled). */
  predicate Falsy(v: CellValue) {
    v.Undefined? || v.Null? || v == Str("") || v == Num(0) || v == Bool(false)
  }

  /** `String(cell || '')`: every falsy value becomes the empty text. */
  function LocalCellText(v: CellValue): string {
    if Falsy(v) then "" else JsString(v)
  }

  /**
   * The test's `escapeCsvCell(cell)`: the cell text of `String(cell || '')`, then the escaping
   * of util.js with the delimiter fixed to a comma.
   */
  function LocalEscapeCsvCell(v: CellValue): string {
    EscapeCsvCell(LocalCellText(v), ",")
  }

  /**
   * The test's escaper agrees with util.js except on `0` and `false`, which it writes as the
   * empty text where util.js, keeping them with `??`, writes `0` and `false`.
   */
  lemma LocalEscaperDiffersOnlyOnZeroAndFalse(v: CellValue)
    ensures v != Num(0) && v != Bool(false) ==> LocalEscapeCsvCell(v) == EscapeCsvCell(CellText(v), ",")
    ensures v == Num(0) ==> LocalEscapeCsvCell(v) == "" && EscapeCsvCell(CellText(v), ",") == "0"
    ensures v == Bool(false) ==> LocalEscapeCsvCell(v) == "" && EscapeCsvCell(CellText(v), ",") == "false"
  {
    if v == Num(0) {
      assert LocalEscapeCsvCell(v) == "" by {
        EscapePlainText("", ',');
      }
      assert EscapeCsvCell(CellText(v), ",") == "0" by {
        assert CellText(v) == "0";
        EscapePlainText("0", ',');
      }
    } else if v == Bool(false) {
      assert LocalEscapeCsvCell(v) == "" by {
        EscapePlainText("", ',');
      }
      assert EscapeCsvCell(CellText(v), ",") == "false" by {
        EscapePlainText("false", ',');
      }
    } else {
      assert LocalCellText(v) == CellText(v);
    }
  }

  /** The test's `testData.map(...).join('\n')`: rows of escaped cells joined by commas. */
  function LocalEncode(data: seq<seq<CellValue>>): string {
    Join(seq(|data|, i requires 0 <= i < |data| =>
      Join(seq(|data[i]|, j requires 0 <= j < |data[i]| => LocalEscapeCsvCell(data[i][j])), ",")), "\n")
  }

  /** Without a `0` or `false` cell, the test's encoding is `encodeCsv` with its defaults. */
  lemma LocalEncodeAgrees(data: seq<seq<CellValue>>)
    requires forall i, j :: 0 <= i < |data| && 0 <= j < |data[i]| ==> data[i][j] != Num(0) && data[i][j] != Bool(false)
    ensures LocalEncode(data) == EncodeCsvDefault(data)
  {
    forall i, j | 0 <= i < |data| && 0 <= j < |data[i]|
      ensures LocalEscapeCsvCell(data[i][j]) == EscapeCsvCell(CellText(data[i][j]), ",")
    {
      LocalEscaperDiffersOnlyOnZeroAndFalse(data[i][j]);
    }
    var rows := seq(|data|, i requires 0 <= i < |data| =>
      Join(seq(|data[i]|, j requires 0 <= j < |data[i]| => LocalEscapeCsvCell(data[i][j])), ","));
    forall i | 0 <= i < |data|
      ensures rows[i] == EncodeRow(data[i], ",")
    {
      assert seq(|data[i]|, j requires 0 <= j < |data[i]| => LocalEscapeCsvCell(data[i][j])) == EscapeRow(data[i], ",");
    }
    assert rows == EncodeRows(data, ",");
  }

  /** Two embedded quotes are each doubled and the cell wrapped. */
  lemma EscapeTwoQuotes(a: string, b: string)
    requires '"' !in a && '"' !in b && '\r' !in a && '\r' !in b
    ensures EscapeCsvCell(a + "\"" + b + "\"", ",") == "\"" + a + "\"\"" + b + "\"\"" + "\""
  {
    var s := a + "\"" + b + "\"";
    assert '\r' !in s && '"' in s by {
      assert s[|a|] == '"';
    }
    EscapeQuoteBearing(s, ",");
    DoubleTwoQuotes(a, b);
  }

  lemma DoubleTwoQuotes(a: string, b: string)
    requires '"' !in a && '"' !in b
    ensures DoubleQuotes(a + "\"" + b + "\"") == a + "\"\"" + b + "\"\""
  {
    DoubleQuotesAppend(a + "\"" + b, "\"");
    DoubleQuotesAppend(a + "\"", b);
    DoubleQuotesAppend(a, "\"");
    DoubleQuotesWithoutQuote(a);
    DoubleQuotesWithoutQuote(b);
  }

  /** Three rows of three cells encode to their three lines joined by the line ending. */
  lemma EncodeThreeRows(r1: seq<CellValue>, r2: seq<CellValue>, r3: seq<CellValue>)
    ensures EncodeCsvDefault([r1, r2, r3]) == EncodeRow(r1, ",") + "\n" + EncodeRow(r2, ",") + "\n" + EncodeRow(r3, ",")
  {
    var lines := EncodeRows([r1, r2, r3], ",");
    assert lines == [EncodeRow(r1, ","), EncodeRow(r2, ","), EncodeRow(r3, ",")];
    JoinThree(lines[0], lines[1], lines[2], "\n");
  }

  /** The grid of `testCsvEscaping`, over texts of the same shape. */
  lemma EscapingSampleShape(n: string, d: string, p: string, q: string, a: string, c1: string, c2: string,
                            m1: string, r: string, s: string, t: string, u: string, v: string, m2: string)
    requires PlainText(n) && PlainText(d) && PlainText(p) && PlainText(q) && PlainText(a)
    requires PlainText(c1) && PlainText(c2) && PlainText(m1) && PlainText(r) && PlainText(s)
    requires PlainText(t) && PlainText(u) && PlainText(v) && PlainText(m2)
    ensures EncodeCsvDefault([
        [Str(n), Str(d), Str(p)],
        [Str(q + "\"" + a + "\""), Str(c1 + "," + c2), Str(m1)],
        [Str(r + "\n" + s), Str(t + "\n" + u + "\n" + v), Str(m2)]])
      == (n + "," + d + "," + p) + "\n"
         + (("\"" + q + "\"\"" + a + "\"\"" + "\"") + "," + ("\"" + (c1 + "," + c2) + "\"") + "," + m1) + "\n"
         + (("\"" + (r + "\n" + s) + "\"") + "," + ("\"" + (t + "\n" + u + "\n" + v) + "\"") + "," + m2)
  {
    var row1 := [Str(n), Str(d), Str(p)];
    var row2 := [Str(q + "\"" + a + "\""), Str(c1 + "," + c2), Str(m1)];
    var row3 := [Str(r + "\n" + s), Str(t + "\n" + u + "\n" + v), Str(m2)];
    EncodeThreeRows(row1, row2, row3);
    assert EncodeRow(row1, ",") == n + "," + d + "," + p by {
      SampleFirstRow(n, d, p);
    }
    assert EncodeRow(row2, ",") == ("\"" + q + "\"\"" + a + "\"\"" + "\"") + "," + ("\"" + (c1 + "," + c2) + "\"") + "," + m1 by {
      SampleSecondRow(q, a, c1, c2, m1);
    }
    assert EncodeRow(row3, ",") == ("\"" + (r + "\n" + s) + "\"") + "," + ("\"" + (t + "\n" + u + "\n" + v) + "\"") + "," + m2 by {
      SampleThirdRow(r, s, t, u, v, m2);
    }
  }

  lemma SampleFirstRow(n: string, d: string, p: string)
    requires PlainText(n) && PlainText(d) && PlainText(p)
    ensures EncodeRow([Str(n), Str(d), Str(p)], ",") == n + "," + d + "," + p
  {
    EscapePlainText(n, ',');
    EscapePlainText(d, ',');
    EscapePlainText(p, ',');
    EncodeThreeCells(Str(n), Str(d), Str(p), ",");
  }

  lemma SampleSecondRow(q: string, a: string, c1: string, c2: string, m1: string)
    requires PlainText(q) && PlainText(a) && PlainText(c1) && PlainText(c2) && PlainText(m1)
    ensures EncodeRow([Str(q + "\"" + a + "\""), Str(c1 + "," + c2), Str(m1)], ",")
         == ("\"" + q + "\"\"" + a + "\"\"" + "\"") + "," + ("\"" + (c1 + "," + c2) + "\"") + "," + m1
  {
    var comma := c1 + "," + c2;
    EscapeTwoQuotes(q, a);
    assert EscapeCsvCell(comma, ",") == "\"" + comma + "\"" by {
      assert comma[|c1|] == ',';
      EscapeWrappedText(comma, ',');
    }
    EscapePlainText(m1, ',');
    EncodeThreeCells(Str(q + "\"" + a + "\""), Str(comma), Str(m1), ",");
  }

  lemma SampleThirdRow(r: string, s: string, t: string, u: string, v: string, m2: string)
    requires PlainText(r) && PlainText(s) && PlainText(t) && PlainText(u) && PlainText(v) && PlainText(m2)
    ensures EncodeRow([Str(r + "\n" + s), Str(t + "\n" + u + "\n" + v), Str(m2)], ",")
         == ("\"" + (r + "\n" + s) + "\"") + "," + ("\"" + (t + "\n" + u + "\n" + v) + "\"") + "," + m2
  {
    var twoLines := r + "\n" + s;
    var threeLines := t + "\n" + u + "\n" + v;
    assert EscapeCsvCell(twoLines, ",") == "\"" + twoLines + "\"" by {
      assert twoLines[|r|] == '\n';
      EscapeWrappedText(twoLines, ',');
    }
    assert EscapeCsvCell(threeLines, ",") == "\"" + threeLines + "\"" by {
      assert threeLines[|t|] == '\n';
      EscapeWrappedText(threeLines, ',');
    }
    EscapePlainText(m2, ',');
    EncodeThreeCells(Str(twoLines), Str(threeLines), Str(m2), ",");
  }

  /** On a grid of texts the test's encoding is `encodeCsv` with its defaults. */
  lemma TextGridAgrees(r1: seq<string>, r2: seq<string>, r3: seq<string>)
    requires |r1| == 3 && |r2| == 3 && |r3| == 3
    ensures var grid := [
        [Str(r1[0]), Str(r1[1]), Str(r1[2])],
        [Str(r2[0]), Str(r2[1]), Str(r2[2])],
        [Str(r3[0]), Str(r3[1]), Str(r3[2])]];
      LocalEncode(grid) == EncodeCsvDefault(grid)
  {
    var grid := [
        [Str(r1[0]), Str(r1[1]), Str(r1[2])],
        [Str(r2[0]), Str(r2[1]), Str(r2[2])],
        [Str(r3[0]), Str(r3[1]), Str(r3[2])]];
    LocalEncodeAgrees(grid);
  }

  lemma SamplePiecesFirst()
    ensures PlainText("Name") && PlainText("Description") && PlainText("Price") && PlainText("Product ")
  {
  }

  lemma SamplePiecesSecond()
    ensures PlainText("A") && PlainText("Contains") && PlainText(" comma") && PlainText("$100.00")
  {
  }

  lemma SamplePiecesThird()
    ensures PlainText("Product") && PlainText("B") && PlainText("Multi") && PlainText("line")
  {
  }

  lemma SamplePiecesFourth()
    ensures PlainText("description") && PlainText("$200.00")
  {
  }

  lemma EscapingSampleHeader()
    ensures "Name" + "," + "Description" + "," + "Price" == "Name,Description,Price"
  {
  }

  lemma EscapingSampleCells()
    ensures "Product " + "\"" + "A" + "\"" == "Product \"A\""
    ensures "Contains" + "," + " comma" == "Contains, comma"
    ensures "Product" + "\n" + "B" == "Product\nB"
    ensures "Multi" + "\n" + "line" + "\n" + "description" == "Multi\nline\ndescription"
  {
  }

  lemma EscapingSampleQuotedCells()
    ensures "\"" + "Product " + "\"\"" + "A" + "\"\"" + "\"" == "\"Product \"\"A\"\"\""
    ensures "\"" + ("Contains" + "," + " comma") + "\"" == "\"Contains, comma\""
  {
  }

  lemma EscapingSampleMultilineCells()
    ensures "\"" + ("Product" + "\n" + "B") + "\"" == "\"Product\nB\""
    ensures "\"" + ("Multi" + "\n" + "line" + "\n" + "description") + "\"" == "\"Multi\nline\ndescription\""
  {
  }

  /**
   * `testCsvEscaping`: the sample grid encodes to the expected text, whose lines are
   * written here as literals of whole cells joined by commas and newlines.
   */
  lemma EscapingSample()
    ensures LocalEncode([
        [Str("Name"), Str("Description"), Str("Price")],
        [Str("Product \"A\""), Str("Contains, comma"), Str("$100.00")],
        [Str("Product\nB"), Str("Multi\nline\ndescription"), Str("$200.00")]])
      == "Name,Description,Price" + "\n"
         + ("\"Product \"\"A\"\"\"" + "," + "\"Contains, comma\"" + "," + "$100.00") + "\n"
         + ("\"Product\nB\"" + "," + "\"Multi\nline\ndescription\"" + "," + "$200.00")
  {
    EscapingSampleCells();
    SamplePiecesFirst();
    SamplePiecesSecond();
    SamplePiecesThird();
    SamplePiecesFourth();
    TextGridAgrees(["Name", "Description", "Price"], ["Product \"A\"", "Contains, comma", "$100.00"],
                   ["Product\nB", "Multi\nline\ndescription", "$200.00"]);
    EscapingSampleShape("Name", "Description", "Price", "Product ", "A", "Contains", " comma", "$100.00",
                        "Product", "B", "Multi", "line", "description", "$200.00");
    EscapingSampleHeader();
    EscapingSampleQuotedCells();
    EscapingSampleMultilineCells();
  }

  // ---------------------------------------------------------------------------------------
  // The "all" text match

  /** `elements.find(el => el.textContent && el.textContent.toLowerCase().includes('all'))`. */
  function FindShowAll(texts: seq<Option<string>>): (r: Option<nat>)
    ensures r.None? <==> forall i :: 0 <= i < |texts| ==> !(texts[i].Some? && MentionsAll(texts[i].value))
    ensures r.Some? ==>
      && r.value < |texts| && texts[r.value].Some? && MentionsAll(texts[r.value].value)
      && forall i :: 0 <= i < r.value ==> !(texts[i].Some? && MentionsAll(texts[i].value))
  {
    if texts == [] then None
    else if texts[0].Some? && texts[0].value != "" && MentionsAll(texts[0].value) then Some(0)
    else
      var rest := FindShowAll(texts[1..]);
      if rest.None? then None else Some(rest.value + 1)
  }

  /** Among "Show All", "Load All Data" and an option without text, "Show All" is found first. */
  lemma ShowAllFound()
    ensures FindShowAll([Some("Show All"), Some("Load All Data"), None]) == Some(0)
  {
    MentionsAllAt("Show All");
    assert AllAt("Show All", 5);
  }
}
