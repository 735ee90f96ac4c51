/**
 * The CSV/TSV encoder of util.js: `escapeCsvCell` and `encodeCsv`.
 *
 * A cell's text has its line breaks normalised to `\n`; it is wrapped in double quotes exactly
 * when it contains a double quote, the delimiter or a newline, and its double quotes are doubled
 * (section 2, rules 5 to 7, of RFC 4180, with a configurable delimiter and line ending).
 */
module CsvCodec {
  import opened Text

  /** A JavaScript value found in a grid cell. */
  datatype CellValue = Undefined | Null | Str(s: string) | Num(n: int) | Bool(b: bool)

  /** `String(v)`; numbers are integers here. */
  function JsString(v: CellValue): string {
    match v
    case Undefined => "undefined"
    case Null => "null"
    case Str(s) => s
    case Num(n) => if n >= 0 then NatToDecimal(n) else "-" + NatToDecimal(-n)
    case Bool(b) => if b then "true" else "false"
  }

  /** `String(cell ?? '')`: only `null` and `undefined` become the empty text. */
  function CellText(v: CellValue): string {
    if v.Undefined? || v.Null? then "" else JsString(v)
  }

  /** `s.replace(/\r\n/g, '\n')`: leftmost, non-overlapping replacement. */
  function ReplaceCrLf(s: string): string {
    if |s| >= 2 && s[0] == '\r' && s[1] == '\n' then "\n" + ReplaceCrLf(s[2..])
    else if s == [] then []
    else [s[0]] + ReplaceCrLf(s[1..])
  }

  /** `s.replace(/\r/g, '\n')`. */
  function ReplaceCr(s: string): string {
    if s == [] then [] else (if s[0] == '\r' then "\n" else [s[0]]) + ReplaceCr(s[1..])
  }

  /** The first line of `escapeCsvCell`: CRLF first, then every remaining CR. */
  function NormalizeNewlines(s: string): string {
    ReplaceCr(ReplaceCrLf(s))
  }

  /** Whether `escapeCsvCell` wraps the (normalised) text in quotes. */
  predicate NeedsQuote(cell: string, delimiter: string) {
    Contains(cell, "\"") || Contains(cell, delimiter) || Contains(cell, "\n")
  }

  /** `s.replace(/"/g, '""')`. */
  function DoubleQuotes(s: string): string {
    if s == [] then [] else (if s[0] == '"' then "\"\"" else [s[0]]) + DoubleQuotes(s[1..])
  }

  /** `escapeCsvCell(cell, delimiter)`. */
  function EscapeCsvCell(cell: string, delimiter: string): string {
    var text := NormalizeNewlines(cell);
    var body := DoubleQuotes(text);
    if NeedsQuote(text, delimiter) then "\"" + body + "\"" else body
  }

  /** `parts.join(sep)`. */
  function Join(parts: seq<string>, sep: string): string {
    if |parts| == 0 then ""
    else if |parts| == 1 then parts[0]
    else parts[0] + sep + Join(parts[1..], sep)
  }

  /** The escaped cells of one row, in order. */
  function EscapeRow(row: seq<CellValue>, delimiter: string): (cells: seq<string>)
    ensures |cells| == |row|
  {
    seq(|row|, i requires 0 <= i < |row| => EscapeCsvCell(CellText(row[i]), delimiter))
  }

  /** One row of `encodeCsv`: its escaped cells joined by the delimiter. */
  function EncodeRow(row: seq<CellValue>, delimiter: string): string {
    Join(EscapeRow(row, delimiter), delimiter)
  }

  function EncodeRows(data: seq<seq<CellValue>>, delimiter: string): (lines: seq<string>)
    ensures |lines| == |data|
  {
    seq(|data|, i requires 0 <= i < |data| => EncodeRow(data[i], delimiter))
  }

  /** `encodeCsv(data, delimiter, lineEnd)`. */
  function EncodeCsv(data: seq<seq<CellValue>>, delimiter: string, lineEnd: string): string {
    Join(EncodeRows(data, delimiter), lineEnd)
  }

  /** `encodeCsv(data)` with its default arguments. */
  function EncodeCsvDefault(data: seq<seq<CellValue>>): string {
    EncodeCsv(data, ",", "\n")
  }

  // ---------------------------------------------------------------------------------------
  // Newline normalisation

  lemma {:induction false} ReplaceCrHasNoCr(s: string)
    ensures '\r' !in ReplaceCr(s)
  {
    if s != [] {
      ReplaceCrHasNoCr(s[1..]);
    }
  }

  /** After normalisation a cell contains no carriage return. */
  lemma NormalizedHasNoCr(s: string)
    ensures '\r' !in NormalizeNewlines(s)
  {
    ReplaceCrHasNoCr(ReplaceCrLf(s));
  }

  lemma {:induction false} ReplaceCrLfWithoutCr(s: string)
    requires '\r' !in s
    ensures ReplaceCrLf(s) == s
  {
    if s != [] {
      ReplaceCrLfWithoutCr(s[1..]);
    }
  }

  lemma {:induction false} ReplaceCrWithoutCr(s: string)
    requires '\r' !in s
    ensures ReplaceCr(s) == s
  {
    if s != [] {
      ReplaceCrWithoutCr(s[1..]);
    }
  }

  /** Text without a carriage return is left as it is, so normalising twice changes nothing more. */
  lemma NormalizeWithoutCr(s: string)
    requires '\r' !in s
    ensures NormalizeNewlines(s) == s
  {
    ReplaceCrLfWithoutCr(s);
    ReplaceCrWithoutCr(s);
  }

  /** Reference reading of the normalisation: one pass, CRLF to LF and a lone CR to LF. */
  function OnePassNewlines(s: string): string {
    if |s| >= 2 && s[0] == '\r' && s[1] == '\n' then "\n" + OnePassNewlines(s[2..])
    else if s == [] then []
    else (if s[0] == '\r' then "\n" else [s[0]]) + OnePassNewlines(s[1..])
  }

  lemma {:induction false} ReplaceCrAppend(a: string, b: string)
    ensures ReplaceCr(a + b) == ReplaceCr(a) + ReplaceCr(b)
  {
    if a == [] {
      assert a + b == b;
    } else {
      assert (a + b)[1..] == a[1..] + b;
      ReplaceCrAppend(a[1..], b);
    }
  }

  /** The two chained `replace` calls are the one-pass CRLF/CR-to-LF rewrite. */
  lemma {:induction false} NormalizeIsOnePass(s: string)
    ensures NormalizeNewlines(s) == OnePassNewlines(s)
    decreases |s|
  {
    if |s| >= 2 && s[0] == '\r' && s[1] == '\n' {
      NormalizeIsOnePass(s[2..]);
      ReplaceCrAppend("\n", ReplaceCrLf(s[2..]));
    } else if s != [] {
      NormalizeIsOnePass(s[1..]);
      ReplaceCrAppend([s[0]], ReplaceCrLf(s[1..]));
    }
  }

  // ---------------------------------------------------------------------------------------
  // Quote doubling

  /** The text parses as plain characters and `""` pairs: no quote stands alone. */
  predicate PairedQuotes(t: string) {
    if t == [] then true
    else if t[0] != '"' then PairedQuotes(t[1..])
    else |t| >= 2 && t[1] == '"' && PairedQuotes(t[2..])
  }

  /** Halves every `""` pair: the inverse of `DoubleQuotes`. */
  function HalveQuotes(t: string): string {
    if |t| >= 2 && t[0] == '"' && t[1] == '"' then "\"" + HalveQuotes(t[2..])
    else if t == [] then []
    else [t[0]] + HalveQuotes(t[1..])
  }

  /** Every quote of `s` is doubled, every other character kept, and halving undoes it. */
  lemma DoubleQuotesSpec(s: string)
    ensures PairedQuotes(DoubleQuotes(s))
    ensures HalveQuotes(DoubleQuotes(s)) == s
    ensures multiset(DoubleQuotes(s))['"'] == 2 * multiset(s)['"']
    ensures forall c :: c != '"' ==> multiset(DoubleQuotes(s))[c] == multiset(s)[c]
  {
    DoubleQuotesPaired(s);
    DoubleQuotesCounts(s, '"');
    forall c | c != '"'
      ensures multiset(DoubleQuotes(s))[c] == multiset(s)[c]
    {
      DoubleQuotesCounts(s, c);
    }
  }

  lemma {:induction false} DoubleQuotesPaired(s: string)
    ensures PairedQuotes(DoubleQuotes(s))
    ensures HalveQuotes(DoubleQuotes(s)) == s
  {
    if s != [] {
      DoubleQuotesPaired(s[1..]);
      var d := DoubleQuotes(s);
      if s[0] == '"' {
        assert d[2..] == DoubleQuotes(s[1..]);
      } else {
        assert d[1..] == DoubleQuotes(s[1..]);
      }
    }
  }

  /** Doubling quotes doubles the number of quotes and keeps the number of every other character. */
  lemma {:induction false} DoubleQuotesCounts(s: string, c: char)
    ensures c == '"' ==> multiset(DoubleQuotes(s))[c] == 2 * multiset(s)[c]
    ensures c != '"' ==> multiset(DoubleQuotes(s))[c] == multiset(s)[c]
  {
    if s != [] {
      DoubleQuotesCounts(s[1..], c);
      var head := if s[0] == '"' then "\"\"" else [s[0]];
      assert multiset(DoubleQuotes(s))[c] == multiset(head)[c] + multiset(DoubleQuotes(s[1..]))[c] by {
        assert DoubleQuotes(s) == head + DoubleQuotes(s[1..]);
        CountConcat(head, DoubleQuotes(s[1..]), c);
      }
      CountCons(s, c);
      assert multiset(head)[c] == if s[0] != c then 0 else if c == '"' then 2 else 1;
    }
  }

  /** Counting a character in a non-empty string: its first character, then the rest. */
  lemma CountCons(s: string, c: char)
    requires s != []
    ensures multiset(s)[c] == (if s[0] == c then 1 else 0) + multiset(s[1..])[c]
  {
    assert s == [s[0]] + s[1..];
    CountConcat([s[0]], s[1..], c);
  }

  /** Counting a character in a concatenation adds the counts of the two parts. */
  lemma CountConcat(a: string, b: string, c: char)
    ensures multiset(a + b)[c] == multiset(a)[c] + multiset(b)[c]
  {
  }

  lemma {:induction false} DoubleQuotesWithoutQuote(s: string)
    requires '"' !in s
    ensures DoubleQuotes(s) == s
  {
    if s != [] {
      DoubleQuotesWithoutQuote(s[1..]);
    }
  }

  lemma {:induction false} DoubleQuotesAppend(a: string, b: string)
    ensures DoubleQuotes(a + b) == DoubleQuotes(a) + DoubleQuotes(b)
  {
    if a == [] {
      assert a + b == b;
    } else {
      assert (a + b)[1..] == a[1..] + b;
      DoubleQuotesAppend(a[1..], b);
    }
  }

  // ---------------------------------------------------------------------------------------
  // Quoting decision

  /** The escaped text is wrapped in a pair of double quotes. */
  predicate IsWrapped(r: string) {
    |r| >= 2 && r[0] == '"' && r[|r| - 1] == '"'
  }

  /**
   * A cell is wrapped in quotes if and only if its normalised text contains a double quote,
   * the delimiter or a newline; otherwise it is output verbatim and contains none of them.
   */
  lemma EscapeQuotesIff(cell: string, delimiter: string)
    ensures IsWrapped(EscapeCsvCell(cell, delimiter)) <==> NeedsQuote(NormalizeNewlines(cell), delimiter)
    ensures !NeedsQuote(NormalizeNewlines(cell), delimiter) ==>
      var r := EscapeCsvCell(cell, delimiter);
      r == NormalizeNewlines(cell) && '"' !in r && '\n' !in r && '\r' !in r && !Contains(r, delimiter)
    ensures NeedsQuote(NormalizeNewlines(cell), delimiter) ==>
      EscapeCsvCell(cell, delimiter) == "\"" + DoubleQuotes(NormalizeNewlines(cell)) + "\""
  {
    var text := NormalizeNewlines(cell);
    NormalizedHasNoCr(cell);
    if !NeedsQuote(text, delimiter) {
      ContainsChar(text, '"');
      ContainsChar(text, '\n');
      DoubleQuotesWithoutQuote(text);
      var r := EscapeCsvCell(cell, delimiter);
      assert r == text;
      if |r| >= 2 {
        assert r[0] in text;
      }
    }
  }

  /** With an empty delimiter every cell is quoted, because `includes('')` always holds. */
  lemma EmptyDelimiterAlwaysQuotes(cell: string)
    ensures IsWrapped(EscapeCsvCell(cell, ""))
  {
    ContainsEmpty(NormalizeNewlines(cell));
    EscapeQuotesIff(cell, "");
  }

  /** Removes the outer quotes, if present, and halves every `""`. */
  function UnescapeCell(r: string): string {
    if IsWrapped(r) then HalveQuotes(r[1..|r| - 1]) else HalveQuotes(r)
  }

  lemma {:induction false} HalveWithoutQuote(t: string)
    requires '"' !in t
    ensures HalveQuotes(t) == t
  {
    if t != [] {
      HalveWithoutQuote(t[1..]);
    }
  }

  /** Escaping is invertible: unescaping gives back the normalised cell. */
  lemma UnescapeEscape(cell: string, delimiter: string)
    ensures UnescapeCell(EscapeCsvCell(cell, delimiter)) == NormalizeNewlines(cell)
  {
    var text := NormalizeNewlines(cell);
    var r := EscapeCsvCell(cell, delimiter);
    EscapeQuotesIff(cell, delimiter);
    DoubleQuotesSpec(text);
    if NeedsQuote(text, delimiter) {
      assert r[1..|r| - 1] == DoubleQuotes(text);
    } else {
      HalveWithoutQuote(r);
    }
  }

  // ---------------------------------------------------------------------------------------
  // Joining cells and rows

  /** Joining one more part appends the separator and the part; there is no trailing separator. */
  lemma {:induction false} JoinSnoc(parts: seq<string>, last: string, sep: string)
    requires |parts| >= 1
    ensures Join(parts + [last], sep) == Join(parts, sep) + sep + last
  {
    if |parts| == 1 {
      assert (parts + [last])[1..] == [last];
    } else {
      assert (parts + [last])[1..] == parts[1..] + [last];
      JoinSnoc(parts[1..], last, sep);
    }
  }

  /**
   * `encodeCsv` returns "" for an empty grid, writes a single row without any line ending, and
   * each further row adds exactly one line ending before it.
   */
  lemma EncodeCsvShape(data: seq<seq<CellValue>>, row: seq<CellValue>, delimiter: string, lineEnd: string)
    ensures EncodeCsv([], delimiter, lineEnd) == ""
    ensures EncodeCsv([row], delimiter, lineEnd) == EncodeRow(row, delimiter)
    ensures |data| >= 1 ==>
      EncodeCsv(data + [row], delimiter, lineEnd) == EncodeCsv(data, delimiter, lineEnd) + lineEnd + EncodeRow(row, delimiter)
  {
    if |data| >= 1 {
      assert EncodeRows(data + [row], delimiter) == EncodeRows(data, delimiter) + [EncodeRow(row, delimiter)];
      JoinSnoc(EncodeRows(data, delimiter), EncodeRow(row, delimiter), lineEnd);
    }
  }

  /** Cells of one row are joined the same way by the delimiter. */
  lemma EncodeRowShape(row: seq<CellValue>, cell: CellValue, delimiter: string)
    ensures EncodeRow([], delimiter) == ""
    ensures EncodeRow([cell], delimiter) == EscapeCsvCell(CellText(cell), delimiter)
    ensures |row| >= 1 ==>
      EncodeRow(row + [cell], delimiter) == EncodeRow(row, delimiter) + delimiter + EscapeCsvCell(CellText(cell), delimiter)
  {
    if |row| >= 1 {
      assert EscapeRow(row + [cell], delimiter) == EscapeRow(row, delimiter) + [EscapeCsvCell(CellText(cell), delimiter)];
      JoinSnoc(EscapeRow(row, delimiter), EscapeCsvCell(CellText(cell), delimiter), delimiter);
    }
  }

  /**
   * The empty grid, a grid of one empty row and (for a non-empty delimiter) a grid of one empty
   * cell all encode to "": the encoding cannot tell them apart.
   */
  lemma EmptyEncodingsCollide(delimiter: string, lineEnd: string)
    ensures EncodeCsv([], delimiter, lineEnd) == ""
    ensures EncodeCsv([[]], delimiter, lineEnd) == ""
    ensures delimiter != "" ==> EncodeCsv([[Str("")]], delimiter, lineEnd) == ""
    ensures delimiter == "" ==> EncodeCsv([[Str("")]], delimiter, lineEnd) == "\"\""
  {
    assert EncodeRows([[]], delimiter) == [EncodeRow([], delimiter)];
    assert EscapeRow([Str("")], delimiter) == [EscapeCsvCell("", delimiter)];
    assert EncodeRows([[Str("")]], delimiter) == [EncodeRow([Str("")], delimiter)];
    assert NormalizeNewlines("") == "";
    assert DoubleQuotes("") == "";
    assert !Contains("", "\"") && !Contains("", "\n");
    if delimiter == "" {
      assert Contains("", delimiter);
    } else {
      assert !Contains("", delimiter);
    }
  }

  /** `null` and `undefined` cells become empty fields under any non-empty delimiter. */
  lemma NullishCellsEncodeEmpty(delimiter: string)
    requires delimiter != ""
    ensures EscapeCsvCell(CellText(Null), delimiter) == ""
    ensures EscapeCsvCell(CellText(Undefined), delimiter) == ""
  {
    assert NormalizeNewlines("") == "";
    assert DoubleQuotes("") == "";
    assert !Contains("", "\"") && !Contains("", "\n") && !Contains("", delimiter);
  }

  /** `0` and `false` are not nullish: they keep their text. */
  lemma FalsyValuesKeepText()
    ensures EscapeCsvCell(CellText(Num(0)), ",") == "0"
    ensures EscapeCsvCell(CellText(Bool(false)), ",") == "false"
  {
    assert CellText(Num(0)) == "0";
    EscapePlainText("0", ',');
    EscapePlainText("false", ',');
  }

  // ---------------------------------------------------------------------------------------
  // The literal case of test/run.js

  /** Text needing no quotes is output unchanged. */
  lemma EscapePlainText(s: string, delimiter: char)
    requires '"' !in s && '\r' !in s && '\n' !in s && delimiter !in s
    ensures EscapeCsvCell(s, [delimiter]) == s
  {
    NormalizeWithoutCr(s);
    ContainsChar(s, '"');
    ContainsChar(s, '\n');
    ContainsChar(s, delimiter);
    DoubleQuotesWithoutQuote(s);
  }

  /** Quote-free text holding the delimiter or a newline is only wrapped. */
  lemma EscapeWrappedText(s: string, delimiter: char)
    requires '"' !in s && '\r' !in s && (delimiter in s || '\n' in s)
    ensures EscapeCsvCell(s, [delimiter]) == "\"" + s + "\""
  {
    NormalizeWithoutCr(s);
    ContainsChar(s, '\n');
    ContainsChar(s, delimiter);
    DoubleQuotesWithoutQuote(s);
  }

  /** A quote between two quote-free texts is doubled and the whole cell wrapped. */
  lemma EscapeEmbeddedQuote(a: string, b: string, delimiter: string)
    requires '"' !in a && '"' !in b && '\r' !in a && '\r' !in b
    ensures EscapeCsvCell(a + "\"" + b, delimiter) == "\"" + a + "\"\"" + b + "\""
  {
    var s := a + "\"" + b;
    assert '\r' !in s && '"' in s by {
      assert s[|a|] == '"';
    }
    EscapeQuoteBearing(s, delimiter);
    DoubleOneQuote(a, b);
  }

  lemma DoubleOneQuote(a: string, b: string)
    requires '"' !in a && '"' !in b
    ensures DoubleQuotes(a + "\"" + b) == a + "\"\"" + b
  {
    DoubleQuotesAppend(a + "\"", b);
    DoubleQuotesAppend(a, "\"");
    DoubleQuotesWithoutQuote(a);
    DoubleQuotesWithoutQuote(b);
  }

  /** Text without carriage returns that holds a quote is doubled and wrapped. */
  lemma EscapeQuoteBearing(s: string, delimiter: string)
    requires '\r' !in s && '"' in s
    ensures EscapeCsvCell(s, delimiter) == "\"" + DoubleQuotes(s) + "\""
  {
    NormalizeWithoutCr(s);
    ContainsChar(s, '"');
  }

  lemma JoinTwo(x: string, y: string, sep: string)
    ensures Join([x, y], sep) == x + sep + y
  {
    assert [x, y][1..] == [y];
  }

  lemma JoinThree(x: string, y: string, z: string, sep: string)
    ensures Join([x, y, z], sep) == x + sep + y + sep + z
  {
    assert [x, y, z][1..] == [y, z];
    JoinTwo(y, z, sep);
  }

  lemma EncodeTwoRows(r1: seq<CellValue>, r2: seq<CellValue>, delimiter: string, lineEnd: string)
    ensures EncodeCsv([r1, r2], delimiter, lineEnd) == EncodeRow(r1, delimiter) + lineEnd + EncodeRow(r2, delimiter)
  {
    var lines := EncodeRows([r1, r2], delimiter);
    assert lines == [EncodeRow(r1, delimiter), EncodeRow(r2, delimiter)];
    JoinTwo(lines[0], lines[1], lineEnd);
  }

  lemma EncodeThreeCells(a: CellValue, b: CellValue, c: CellValue, delimiter: string)
    ensures EncodeRow([a, b, c], delimiter)
         == EscapeCsvCell(CellText(a), delimiter) + delimiter + EscapeCsvCell(CellText(b), delimiter)
            + delimiter + EscapeCsvCell(CellText(c), delimiter)
  {
    var cells := EscapeRow([a, b, c], delimiter);
    assert cells == [cells[0], cells[1], cells[2]];
    JoinThree(cells[0], cells[1], cells[2], delimiter);
  }

  /** Text that is written as it is in comma-separated output. */
  predicate PlainText(t: string) {
    '"' !in t && '\r' !in t && '\n' !in t && ',' !in t
  }

  /** The sample of test/run.js, over texts of the same shape. */
  lemma EncodeSampleShape(a: string, b: string, c: string, d: string, e: string, x: string, y: string, z: string)
    requires PlainText(a) && PlainText(b) && PlainText(c) && PlainText(d) && PlainText(e)
    requires PlainText(x) && PlainText(y) && PlainText(z)
    ensures EncodeCsvDefault([[Str(a), Str(b + "," + c), Str(d + "\"" + e)], [Str(x), Str(y), Str(z)]])
         == (a + "," + ("\"" + (b + "," + c) + "\"") + "," + ("\"" + d + "\"\"" + e + "\""))
            + "\n" + (x + "," + y + "," + z)
  {
    var bc := b + "," + c;
    var de := d + "\"" + e;
    var row1 := [Str(a), Str(bc), Str(de)];
    var row2 := [Str(x), Str(y), Str(z)];
    EscapePlainText(a, ',');
    assert bc[|b|] == ',';
    assert '"' !in bc && '\r' !in bc;
    EscapeWrappedText(bc, ',');
    EscapeEmbeddedQuote(d, e, ",");
    EscapePlainText(x, ',');
    EscapePlainText(y, ',');
    EscapePlainText(z, ',');
    EncodeThreeCells(Str(a), Str(bc), Str(de), ",");
    EncodeThreeCells(Str(x), Str(y), Str(z), ",");
    var line1 := a + "," + ("\"" + bc + "\"") + "," + ("\"" + d + "\"\"" + e + "\"");
    var line2 := x + "," + y + "," + z;
    assert EncodeRow(row1, ",") == line1;
    assert EncodeRow(row2, ",") == line2;
    EncodeTwoRows(row1, row2, ",", "\n");
    assert EncodeCsvDefault([row1, row2]) == line1 + "\n" + line2;
  }

  lemma SampleText()
    ensures ("a" + "," + ("\"" + ("b" + "," + "c") + "\"") + "," + ("\"" + "d" + "\"\"" + "e" + "\""))
            + "\n" + ("1" + "," + "2" + "," + "3")
         == "a,\"b,c\",\"d\"\"e\"\n1,2,3"
  {
  }

  /** `encodeCsv([['a', 'b,c', 'd"e'], ['1', '2', '3']])` is `a,"b,c","d""e"\n1,2,3`. */
  lemma EncodeCsvSample()
    ensures EncodeCsvDefault([[Str("a"), Str("b,c"), Str("d\"e")], [Str("1"), Str("2"), Str("3")]])
         == "a,\"b,c\",\"d\"\"e\"\n1,2,3"
  {
    assert "b" + "," + "c" == "b,c";
    assert "d" + "\"" + "e" == "d\"e";
    EncodeSampleShape("a", "b", "c", "d", "e", "1", "2", "3");
    SampleText();
  }
}
