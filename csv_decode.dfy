/**
 * A reference reader for the text `encodeCsv` writes. Nothing in the extension parses CSV; the
 * reader exists to state what the encoding preserves: reading an encoded grid back gives every
 * cell's normalised text, in place.
 */
module CsvDecode {
  import opened Wrappers
  import opened Text
  import opened CsvCodec

  /** A delimiter and line ending for which the encoding can be read back unambiguously. */
  predicate Unambiguous(delimiter: char, lineEnd: string) {
    && delimiter != '"' && delimiter != '\n' && delimiter != '\r'
    && |lineEnd| >= 1 && (lineEnd[0] == '\n' || lineEnd[0] == '\r')
  }

  /** A field ends where the text ends, a delimiter follows or a line ending starts. */
  predicate AtBoundary(t: string, delimiter: char, lineEnd: string) {
    t == [] || t[0] == delimiter || StartsWith(t, lineEnd)
  }

  /** Reads a quoted field after its opening quote: its text and what follows the closing quote. */
  function ParseQuoted(t: string): (r: Option<(string, string)>)
    ensures r.Some? ==> |r.value.1| < |t|
  {
    if t == [] then None
    else if t[0] == '"' then
      if |t| >= 2 && t[1] == '"' then
        match ParseQuoted(t[2..])
        case None => None
        case Some((f, rest)) => Some(("\"" + f, rest))
      else Some(("", t[1..]))
    else
      match ParseQuoted(t[1..])
      case None => None
      case Some((f, rest)) => Some(([t[0]] + f, rest))
  }

  /** Reads an unquoted field up to the next boundary. */
  function ParseUnquoted(t: string, delimiter: char, lineEnd: string): (r: (string, string))
    ensures |r.1| <= |t|
  {
    if AtBoundary(t, delimiter, lineEnd) then ("", t)
    else
      var (f, rest) := ParseUnquoted(t[1..], delimiter, lineEnd);
      ([t[0]] + f, rest)
  }

  function ParseField(t: string, delimiter: char, lineEnd: string): (r: Option<(string, string)>)
    ensures r.Some? ==> |r.value.1| <= |t|
  {
    if |t| > 0 && t[0] == '"' then ParseQuoted(t[1..]) else Some(ParseUnquoted(t, delimiter, lineEnd))
  }

  /** Reads the fields of one line, separated by the delimiter. */
  function ParseRow(t: string, delimiter: char, lineEnd: string): (r: Option<(seq<string>, string)>)
    ensures r.Some? ==> |r.value.1| <= |t|
    decreases |t|
  {
    match ParseField(t, delimiter, lineEnd)
    case None => None
    case Some((f, rest)) =>
      if |rest| > 0 && rest[0] == delimiter then
        match ParseRow(rest[1..], delimiter, lineEnd)
        case None => None
        case Some((fs, rest')) => Some(([f] + fs, rest'))
      else Some(([f], rest))
  }

  /** Reads all lines; `None` when the text is not well formed. */
  function Decode(t: string, delimiter: char, lineEnd: string): Option<seq<seq<string>>>
    requires |lineEnd| >= 1
    decreases |t|
  {
    match ParseRow(t, delimiter, lineEnd)
    case None => None
    case Some((row, rest)) =>
      if rest == [] then Some([row])
      else if StartsWith(rest, lineEnd) then
        match Decode(rest[|lineEnd|..], delimiter, lineEnd)
        case None => None
        case Some(rows) => Some([row] + rows)
      else None
  }

  /** The cell texts `encodeCsv` starts from: coerced and newline-normalised. */
  function NormalizedRow(row: seq<CellValue>): (r: seq<string>)
    ensures |r| == |row|
  {
    seq(|row|, j requires 0 <= j < |row| => NormalizeNewlines(CellText(row[j])))
  }

  function NormalizedGrid(data: seq<seq<CellValue>>): (g: seq<seq<string>>)
    ensures |g| == |data|
  {
    seq(|data|, i requires 0 <= i < |data| => NormalizedRow(data[i]))
  }

  lemma {:induction false} QuotedRoundTrip(s: string, rest: string)
    requires rest == [] || rest[0] != '"'
    ensures ParseQuoted(DoubleQuotes(s) + "\"" + rest) == Some((s, rest))
  {
    if s == [] {
      assert DoubleQuotes(s) + "\"" + rest == "\"" + rest;
    } else {
      var u := DoubleQuotes(s[1..]) + "\"" + rest;
      assert DoubleQuotes(s) + "\"" + rest == DoubleQuotes([s[0]]) + u by {
        DoubleQuotesHead(s);
      }
      assert ParseQuoted(u) == Some((s[1..], rest)) by {
        QuotedRoundTrip(s[1..], rest);
      }
      QuotedStep(s[0], u);
      assert [s[0]] + s[1..] == s;
    }
  }

  lemma DoubleQuotesHead(s: string)
    requires s != []
    ensures DoubleQuotes(s) == DoubleQuotes([s[0]]) + DoubleQuotes(s[1..])
  {
    assert DoubleQuotes([s[0]]) == if s[0] == '"' then "\"\"" else [s[0]];
  }

  /** Reading one escaped character ahead of an escaped rest of field. */
  lemma QuotedStep(c: char, u: string)
    requires ParseQuoted(u).Some?
    ensures ParseQuoted(DoubleQuotes([c]) + u) == Some(([c] + ParseQuoted(u).value.0, ParseQuoted(u).value.1))
  {
    var t := DoubleQuotes([c]) + u;
    assert DoubleQuotes([c]) == if c == '"' then "\"\"" else [c];
    if c == '"' {
      assert t[2..] == u;
    } else {
      assert t[1..] == u;
    }
  }

  lemma {:induction false} UnquotedRoundTrip(s: string, rest: string, delimiter: char, lineEnd: string)
    requires Unambiguous(delimiter, lineEnd)
    requires delimiter !in s && '\n' !in s && '\r' !in s
    requires AtBoundary(rest, delimiter, lineEnd)
    ensures ParseUnquoted(s + rest, delimiter, lineEnd) == (s, rest)
  {
    if s == [] {
      assert s + rest == rest;
    } else {
      UnquotedRoundTrip(s[1..], rest, delimiter, lineEnd);
      var t := s + rest;
      assert t[0] == s[0];
      assert t[0] != lineEnd[0];
      assert !StartsWith(t, lineEnd);
      assert t[1..] == s[1..] + rest;
      assert s == [s[0]] + s[1..];
    }
  }

  /** One escaped cell reads back as its normalised text, leaving what follows it. */
  lemma FieldRoundTrip(v: CellValue, rest: string, delimiter: char, lineEnd: string)
    requires Unambiguous(delimiter, lineEnd)
    requires AtBoundary(rest, delimiter, lineEnd)
    ensures ParseField(EscapeCsvCell(CellText(v), [delimiter]) + rest, delimiter, lineEnd)
         == Some((NormalizeNewlines(CellText(v)), rest))
  {
    var text := NormalizeNewlines(CellText(v));
    assert rest != [] ==> rest[0] != '"' by {
      if rest != [] && rest[0] != delimiter {
        assert rest[0] == lineEnd[0];
      }
    }
    if NeedsQuote(text, [delimiter]) {
      QuotedFieldRoundTrip(CellText(v), rest, delimiter, lineEnd);
    } else {
      PlainFieldRoundTrip(CellText(v), rest, delimiter, lineEnd);
    }
  }

  lemma QuotedFieldRoundTrip(cell: string, rest: string, delimiter: char, lineEnd: string)
    requires NeedsQuote(NormalizeNewlines(cell), [delimiter])
    requires rest == [] || rest[0] != '"'
    ensures ParseField(EscapeCsvCell(cell, [delimiter]) + rest, delimiter, lineEnd)
         == Some((NormalizeNewlines(cell), rest))
  {
    var text := NormalizeNewlines(cell);
    var t := EscapeCsvCell(cell, [delimiter]) + rest;
    assert t == "\"" + (DoubleQuotes(text) + "\"" + rest) by {
      EscapeQuotesIff(cell, [delimiter]);
    }
    assert t[1..] == DoubleQuotes(text) + "\"" + rest;
    QuotedRoundTrip(text, rest);
  }

  lemma PlainFieldRoundTrip(cell: string, rest: string, delimiter: char, lineEnd: string)
    requires Unambiguous(delimiter, lineEnd)
    requires AtBoundary(rest, delimiter, lineEnd)
    requires !NeedsQuote(NormalizeNewlines(cell), [delimiter])
    ensures ParseField(EscapeCsvCell(cell, [delimiter]) + rest, delimiter, lineEnd)
         == Some((NormalizeNewlines(cell), rest))
  {
    var text := NormalizeNewlines(cell);
    assert EscapeCsvCell(cell, [delimiter]) == text && '"' !in text && '\n' !in text && '\r' !in text
        && delimiter !in text by {
      EscapeQuotesIff(cell, [delimiter]);
      ContainsChar(text, delimiter);
    }
    UnquotedRoundTrip(text, rest, delimiter, lineEnd);
    if text != [] {
      assert (text + rest)[0] == text[0] && text[0] in text;
    }
  }

  lemma EscapeRowTail(row: seq<CellValue>, delimiter: string)
    requires |row| >= 1
    ensures EscapeRow(row, delimiter)[1..] == EscapeRow(row[1..], delimiter)
  {
  }

  lemma SingleRowRoundTrip(row: seq<CellValue>, rest: string, delimiter: char, lineEnd: string)
    requires Unambiguous(delimiter, lineEnd)
    requires |row| == 1
    requires rest == [] || StartsWith(rest, lineEnd)
    ensures ParseRow(EncodeRow(row, [delimiter]) + rest, delimiter, lineEnd) == Some((NormalizedRow(row), rest))
  {
    FieldRoundTrip(row[0], rest, delimiter, lineEnd);
    assert rest != [] ==> rest[0] == lineEnd[0];
    assert NormalizedRow(row) == [NormalizeNewlines(CellText(row[0]))];
  }

  lemma RowSplit(row: seq<CellValue>, rest: string, delimiter: char)
    requires |row| >= 2
    ensures EncodeRow(row, [delimiter]) + rest
         == EscapeCsvCell(CellText(row[0]), [delimiter]) + ([delimiter] + (EncodeRow(row[1..], [delimiter]) + rest))
  {
    var cells := EscapeRow(row, [delimiter]);
    EscapeRowTail(row, [delimiter]);
    assert EncodeRow(row, [delimiter]) == cells[0] + [delimiter] + EncodeRow(row[1..], [delimiter]);
  }

  lemma RowStep(row: seq<CellValue>, rest: string, delimiter: char, lineEnd: string)
    requires Unambiguous(delimiter, lineEnd)
    requires |row| >= 2
    requires ParseRow(EncodeRow(row[1..], [delimiter]) + rest, delimiter, lineEnd) == Some((NormalizedRow(row[1..]), rest))
    ensures ParseRow(EncodeRow(row, [delimiter]) + rest, delimiter, lineEnd) == Some((NormalizedRow(row), rest))
  {
    var t := EncodeRow(row, [delimiter]) + rest;
    var tail := EncodeRow(row[1..], [delimiter]) + rest;
    assert ParseField(t, delimiter, lineEnd) == Some((NormalizeNewlines(CellText(row[0])), [delimiter] + tail)) by {
      RowSplit(row, rest, delimiter);
      FieldRoundTrip(row[0], [delimiter] + tail, delimiter, lineEnd);
    }
    ParseNextField(t, tail, delimiter, lineEnd);
    NormalizedRowCons(row);
  }

  /** A field followed by the delimiter and more fields reads as that field followed by those. */
  lemma ParseNextField(t: string, tail: string, delimiter: char, lineEnd: string)
    requires ParseField(t, delimiter, lineEnd).Some? && ParseField(t, delimiter, lineEnd).value.1 == [delimiter] + tail
    requires ParseRow(tail, delimiter, lineEnd).Some?
    ensures ParseRow(t, delimiter, lineEnd) == Some(([ParseField(t, delimiter, lineEnd).value.0] + ParseRow(tail, delimiter, lineEnd).value.0,
                                                     ParseRow(tail, delimiter, lineEnd).value.1))
  {
    assert ([delimiter] + tail)[1..] == tail;
  }

  lemma NormalizedRowCons(row: seq<CellValue>)
    requires |row| >= 1
    ensures NormalizedRow(row) == [NormalizeNewlines(CellText(row[0]))] + NormalizedRow(row[1..])
  {
  }

  /** One encoded row reads back as its normalised cells, leaving the line ending and the rest. */
  lemma {:induction false} RowRoundTrip(row: seq<CellValue>, rest: string, delimiter: char, lineEnd: string)
    requires Unambiguous(delimiter, lineEnd)
    requires |row| >= 1
    requires rest == [] || StartsWith(rest, lineEnd)
    ensures ParseRow(EncodeRow(row, [delimiter]) + rest, delimiter, lineEnd) == Some((NormalizedRow(row), rest))
  {
    if |row| == 1 {
      SingleRowRoundTrip(row, rest, delimiter, lineEnd);
    } else {
      RowRoundTrip(row[1..], rest, delimiter, lineEnd);
      RowStep(row, rest, delimiter, lineEnd);
    }
  }

  lemma EncodeRowsTail(data: seq<seq<CellValue>>, delimiter: string)
    requires |data| >= 1
    ensures EncodeRows(data, delimiter)[1..] == EncodeRows(data[1..], delimiter)
  {
  }

  lemma GridSplit(data: seq<seq<CellValue>>, delimiter: char, lineEnd: string)
    requires |data| >= 2
    ensures EncodeCsv(data, [delimiter], lineEnd)
         == EncodeRow(data[0], [delimiter]) + (lineEnd + EncodeCsv(data[1..], [delimiter], lineEnd))
  {
    var lines := EncodeRows(data, [delimiter]);
    EncodeRowsTail(data, [delimiter]);
    assert EncodeCsv(data, [delimiter], lineEnd) == lines[0] + lineEnd + EncodeCsv(data[1..], [delimiter], lineEnd);
  }

  lemma SingleGridRoundTrip(data: seq<seq<CellValue>>, delimiter: char, lineEnd: string)
    requires Unambiguous(delimiter, lineEnd)
    requires |data| == 1 && |data[0]| >= 1
    ensures Decode(EncodeCsv(data, [delimiter], lineEnd), delimiter, lineEnd) == Some(NormalizedGrid(data))
  {
    RowRoundTrip(data[0], [], delimiter, lineEnd);
    assert EncodeCsv(data, [delimiter], lineEnd) + [] == EncodeRow(data[0], [delimiter]);
    assert NormalizedGrid(data) == [NormalizedRow(data[0])];
  }

  lemma GridStep(data: seq<seq<CellValue>>, delimiter: char, lineEnd: string)
    requires Unambiguous(delimiter, lineEnd)
    requires |data| >= 2 && |data[0]| >= 1
    requires Decode(EncodeCsv(data[1..], [delimiter], lineEnd), delimiter, lineEnd) == Some(NormalizedGrid(data[1..]))
    ensures Decode(EncodeCsv(data, [delimiter], lineEnd), delimiter, lineEnd) == Some(NormalizedGrid(data))
  {
    var t := EncodeCsv(data, [delimiter], lineEnd);
    var more := EncodeCsv(data[1..], [delimiter], lineEnd);
    assert ParseRow(t, delimiter, lineEnd) == Some((NormalizedRow(data[0]), lineEnd + more)) by {
      GridSplit(data, delimiter, lineEnd);
      assert StartsWith(lineEnd + more, lineEnd);
      RowRoundTrip(data[0], lineEnd + more, delimiter, lineEnd);
    }
    DecodeNextLine(t, more, delimiter, lineEnd);
    NormalizedGridCons(data);
  }

  lemma NormalizedGridCons(data: seq<seq<CellValue>>)
    requires |data| >= 1
    ensures NormalizedGrid(data) == [NormalizedRow(data[0])] + NormalizedGrid(data[1..])
  {
  }

  /** A row followed by a line ending and more lines reads as that row followed by those lines. */
  lemma DecodeNextLine(t: string, more: string, delimiter: char, lineEnd: string)
    requires |lineEnd| >= 1
    requires ParseRow(t, delimiter, lineEnd).Some? && ParseRow(t, delimiter, lineEnd).value.1 == lineEnd + more
    requires Decode(more, delimiter, lineEnd).Some?
    ensures Decode(t, delimiter, lineEnd)
         == Some([ParseRow(t, delimiter, lineEnd).value.0] + Decode(more, delimiter, lineEnd).value)
  {
    assert StartsWith(lineEnd + more, lineEnd) && (lineEnd + more)[|lineEnd|..] == more;
  }

  /**
   * Reading back an encoded grid gives every cell's normalised text in place, for a grid with at
   * least one row and no empty row (those collide, see `EmptyEncodingsCollide`), a delimiter
   * other than a quote or a line-break character, and a line ending starting with `\n` or `\r`.
   */
  lemma {:induction false} DecodeEncode(data: seq<seq<CellValue>>, delimiter: char, lineEnd: string)
    requires Unambiguous(delimiter, lineEnd)
    requires |data| >= 1
    requires forall i :: 0 <= i < |data| ==> |data[i]| >= 1
    ensures Decode(EncodeCsv(data, [delimiter], lineEnd), delimiter, lineEnd) == Some(NormalizedGrid(data))
  {
    if |data| == 1 {
      SingleGridRoundTrip(data, delimiter, lineEnd);
    } else {
      assert forall i :: 0 <= i < |data| - 1 ==> data[1..][i] == data[i + 1];
      DecodeEncode(data[1..], delimiter, lineEnd);
      GridStep(data, delimiter, lineEnd);
    }
  }
}
