/**
  The post-processing the CSV parser service applies to the records the
  `csv-parse` library hands it: the row limit the library applies through
  the `on_record` hook, the empty result, the truncation to the first
  `maxCols` headers of the first record, and the cleaning of every cell
  (trim, blank to `null`, a decimal number, written with a point or a
  comma, to a number).

  The library itself (tokenising, quoting, header handling) is not part of
  this model: its output is taken as given, each record with the line
  number the library reports for it.
 */
module Ingestion {
  import opened Wrappers
  import opened JsText
  import opened JsNumber
  import opened Records

  /** A record as `csv-parse` emits it, with `info.lines`, the number of
      the input line the record ends on. The header is line 1. */
  datatype ParsedRecord = ParsedRecord(record: Row, lines: nat)

  // ---------------------------------------------------------------------
  // The row limit
  // ---------------------------------------------------------------------

  /** The `on_record` hook: a record is dropped once its line lies beyond
      `maxRows + 1`; without a limit every record is kept. */
  predicate KeepRecord(lines: nat, maxRows: Option<int>) {
    maxRows.None? || lines <= maxRows.value + 1
  }

  /** The records the library passes on, in input order. */
  function LimitRows(parsed: seq<ParsedRecord>, maxRows: Option<int>): (r: seq<Row>)
    ensures |r| <= |parsed|
  {
    if parsed == [] then []
    else
      var last := parsed[|parsed| - 1];
      LimitRows(parsed[..|parsed| - 1], maxRows) + (if KeepRecord(last.lines, maxRows) then [last.record] else [])
  }

  function RecordsOf(parsed: seq<ParsedRecord>): (r: seq<Row>)
    ensures |r| == |parsed|
  {
    seq(|parsed|, i requires 0 <= i < |parsed| => parsed[i].record)
  }

  /** Without a limit every record is kept. */
  lemma {:induction false} NoLimitKeepsAll(parsed: seq<ParsedRecord>)
    ensures LimitRows(parsed, None) == RecordsOf(parsed)
  {
    if parsed != [] {
      var init := parsed[..|parsed| - 1];
      NoLimitKeepsAll(init);
      assert RecordsOf(parsed) == RecordsOf(init) + [parsed[|parsed| - 1].record];
    }
  }

  /** The number of rows a limit lets through when there are `n` of them. */
  function Clamp(m: int, n: nat): nat {
    if m < 0 then 0 else if m < n then m else n
  }

  /** When each record takes one line after the header, the limit keeps
      exactly the first `maxRows` records. */
  lemma {:induction false} OneLinePerRecord(parsed: seq<ParsedRecord>, m: int)
    requires forall i :: 0 <= i < |parsed| ==> parsed[i].lines == i + 2
    ensures LimitRows(parsed, Some(m)) == RecordsOf(parsed)[..Clamp(m, |parsed|)]
  {
    if parsed != [] {
      var n := |parsed|;
      var init := parsed[..n - 1];
      OneLinePerRecord(init, m);
      assert RecordsOf(parsed)[..n - 1] == RecordsOf(init);
      if KeepRecord(parsed[n - 1].lines, Some(m)) {
        assert Clamp(m, n) == n;
        assert RecordsOf(parsed) == RecordsOf(init) + [parsed[n - 1].record];
      } else {
        assert Clamp(m, n) == Clamp(m, n - 1);
        assert RecordsOf(parsed)[..Clamp(m, n)] == RecordsOf(parsed)[..n - 1][..Clamp(m, n - 1)];
      }
    }
  }

  /** Records end on increasing lines after the header (blank lines the
      library skips still count); then at most `maxRows` records are kept,
      and none when it is negative. */
  lemma {:induction false} LimitBound(parsed: seq<ParsedRecord>, m: int)
    requires forall i :: 0 <= i < |parsed| ==> parsed[i].lines >= i + 2
    ensures |LimitRows(parsed, Some(m))| <= Clamp(m, |parsed|)
  {
    if parsed != [] {
      var n := |parsed|;
      LimitBound(parsed[..n - 1], m);
    }
  }

  // ---------------------------------------------------------------------
  // Truncation to the first `maxCols` headers
  // ---------------------------------------------------------------------

  /** `headers.slice(0, end)`: a negative end counts from the back. */
  function SliceTo(headers: seq<string>, end: int): (r: seq<string>)
    ensures |r| == if end >= 0 then Clamp(end, |headers|) else Clamp(|headers| + end, |headers|)
    ensures r == headers[..|r|]
  {
    if end >= 0 then headers[..Clamp(end, |headers|)]
    else headers[..Clamp(|headers| + end, |headers|)]
  }

  /** The headers of `hs` that `cells` owns, in order. */
  function Owned(hs: seq<string>, cells: map<string, Value>): (r: seq<string>)
    ensures |r| <= |hs|
  {
    if hs == [] then []
    else
      var last := hs[|hs| - 1];
      Owned(hs[..|hs| - 1], cells) + (if last in cells then [last] else [])
  }

  /** The row built by copying each key of `keys` that `row` owns, in
      order, into an empty object, its value transformed by `f`. */
  function Rebuild(row: Row, keys: seq<string>, f: Value -> Value): Row {
    if keys == [] then EmptyRow()
    else
      var key := keys[|keys| - 1];
      var r := Rebuild(row, keys[..|keys| - 1], f);
      if key in row.cells then Assign(r, key, f(row.cells[key])) else r
  }

  /** The rebuilt row is an object holding the listed keys the row owns, in
      order, each with its transformed value, and nothing else. */
  lemma {:induction false} RebuildShape(row: Row, keys: seq<string>, f: Value -> Value)
    requires DistinctKeys(keys)
    ensures WellFormed(Rebuild(row, keys, f))
    ensures Rebuild(row, keys, f).keys == Owned(keys, row.cells)
    ensures forall k :: k in Rebuild(row, keys, f).cells <==> k in keys && k in row.cells
    ensures forall k :: k in Rebuild(row, keys, f).cells ==> Rebuild(row, keys, f).cells[k] == f(row.cells[k])
  {
    if keys != [] {
      var init := keys[..|keys| - 1];
      assert DistinctKeys(init);
      RebuildShape(row, init, f);
      assert forall k :: k in keys <==> k in init || k == keys[|keys| - 1];
    }
  }

  function Copy(v: Value): Value {
    v
  }

  /** The new record the truncation builds: each desired header the record
      owns, with its value. */
  function Project(record: Row, desired: seq<string>): Row {
    Rebuild(record, desired, Copy)
  }

  /** The truncated record holds the desired headers the record owns, in
      order, each with the record's own value, and nothing else. */
  lemma ProjectShape(record: Row, desired: seq<string>)
    requires DistinctKeys(desired)
    ensures WellFormed(Project(record, desired))
    ensures Project(record, desired).keys == Owned(desired, record.cells)
    ensures forall k :: k in Project(record, desired).cells <==> k in desired && k in record.cells
    ensures forall k :: k in Project(record, desired).cells ==> Project(record, desired).cells[k] == record.cells[k]
  {
    RebuildShape(record, desired, Copy);
  }

  /** Truncation happens when a limit is given and it is below the number of
      headers of the first record. */
  predicate Truncates(records: seq<Row>, maxCols: Option<int>) {
    records != [] && maxCols.Some? && maxCols.value < |records[0].keys|
  }

  /** The headers every truncated record is cut down to. */
  function Desired(records: seq<Row>, maxCols: Option<int>): seq<string>
    requires Truncates(records, maxCols)
  {
    SliceTo(records[0].keys, maxCols.value)
  }

  /** The records after the `maxCols` block. */
  function Truncated(records: seq<Row>, maxCols: Option<int>): (r: seq<Row>)
    ensures |r| == |records|
  {
    if Truncates(records, maxCols) then
      var desired := Desired(records, maxCols);
      seq(|records|, i requires 0 <= i < |records| => Project(records[i], desired))
    else records
  }

  /** Copies the desired headers of one record into a new object. */
  method TruncateRecord(record: Row, desired: seq<string>) returns (r: Row)
    ensures r == Project(record, desired)
  {
    r := EmptyRow();
    for i := 0 to |desired|
      invariant r == Rebuild(record, desired[..i], Copy)
    {
      var header := desired[i];
      assert desired[..i + 1][..i] == desired[..i];
      if header in record.cells {
        r := Assign(r, header, record.cells[header]);
        assert Copy(record.cells[header]) == record.cells[header];
      }
    }
    assert desired[..|desired|] == desired;
  }

  /** The `maxCols` block. */
  method TruncateColumns(records: seq<Row>, maxCols: Option<int>) returns (processed: seq<Row>)
    ensures processed == Truncated(records, maxCols)
  {
    processed := records;
    if maxCols.Some? && records != [] {
      var originalHeaders := records[0].keys;
      if maxCols.value < |originalHeaders| {
        var desiredHeaders := SliceTo(originalHeaders, maxCols.value);
        var out: seq<Row> := [];
        for i := 0 to |records|
          invariant |out| == i
          invariant forall j :: 0 <= j < i ==> out[j] == Project(records[j], desiredHeaders)
        {
          var newRecord := TruncateRecord(records[i], desiredHeaders);
          out := out + [newRecord];
        }
        processed := out;
      }
    }
  }

  // ---------------------------------------------------------------------
  // Cleaning a cell
  // ---------------------------------------------------------------------

  /** Digits, then optionally a point or a comma and more digits. */
  predicate UnsignedDecimal(b: string) {
    var n := DigitRun(b);
    n >= 1 && (n == |b| || (|b| > n + 1 && (b[n] == '.' || b[n] == ',') && AllDigits(b[n + 1..])))
  }

  /** `/^-?\d+([.,]\d+)?$/`. */
  predicate NumericText(t: string) {
    if |t| > 0 && t[0] == '-' then UnsignedDecimal(t[1..]) else UnsignedDecimal(t)
  }

  /** A cell after cleaning: trimmed, `null` when blank, and a number when the
      trimmed text is a decimal and `parseFloat` of it, with its first comma
      read as a point, is not `NaN`. Numbers and `null` pass unchanged. */
  function CleanValue(v: Value): Value {
    match v
    case Str(s) =>
      var t := Trim(s);
      if t == [] then Null
      else if NumericText(t) then
        match ParseFloat(ReplaceFirst(t, ',', '.'))
        case Some(x) => Num(x)
        case None => Str(t)
      else Str(t)
    case _ => v
  }

  /** The text `-?whole([.,]frac)?` with the decimal mark `mark`. */
  function SignedText(negative: bool, whole: string, mark: char, frac: string): string {
    Sign(negative) + (whole + MarkTail(mark, frac))
  }

  function Sign(negative: bool): string {
    if negative then "-" else ""
  }

  /** The decimal mark and the fraction digits, when there are any. */
  function MarkTail(mark: char, frac: string): string {
    if frac == [] then "" else [mark] + frac
  }

  function SignedValue(negative: bool, whole: string, frac: string): real
    requires AllDigits(whole) && AllDigits(frac)
  {
    if negative then -DecimalValue(whole, frac) else DecimalValue(whole, frac)
  }

  /** Every text of that shape is recognised as a number. */
  lemma NumericComplete(negative: bool, whole: string, mark: char, frac: string)
    requires |whole| > 0 && AllDigits(whole) && AllDigits(frac)
    requires mark == '.' || mark == ','
    ensures NumericText(SignedText(negative, whole, mark, frac))
  {
    var b := whole + MarkTail(mark, frac);
    UnsignedComplete(whole, mark, frac);
    assert IsDigit(b[0]);
    if negative {
      assert SignedText(negative, whole, mark, frac)[1..] == b;
    }
  }

  lemma UnsignedComplete(whole: string, mark: char, frac: string)
    requires |whole| > 0 && AllDigits(whole) && AllDigits(frac)
    requires mark == '.' || mark == ','
    ensures UnsignedDecimal(whole + MarkTail(mark, frac))
  {
    var b := whole + MarkTail(mark, frac);
    DigitRunPrefix(whole, MarkTail(mark, frac));
    if frac != [] {
      assert b[|whole| + 1..] == frac;
    }
  }

  /** Every recognised number has that shape, and `parseFloat` reads its
      value, the comma taken for a decimal point. */
  lemma NumericSound(t: string) returns (negative: bool, whole: string, mark: char, frac: string)
    requires NumericText(t)
    ensures |whole| > 0 && AllDigits(whole) && AllDigits(frac) && (mark == '.' || mark == ',')
    ensures t == SignedText(negative, whole, mark, frac)
    ensures ParseFloat(ReplaceFirst(t, ',', '.')) == Some(SignedValue(negative, whole, frac))
  {
    negative, whole, mark, frac := NumericParts(t);
    NoComma(whole);
    NoComma(frac);
    CommaToPoint(negative, whole, mark, frac);
    ParseDecimalText(negative, whole, frac);
  }

  lemma NumericParts(t: string) returns (negative: bool, whole: string, mark: char, frac: string)
    requires NumericText(t)
    ensures |whole| > 0 && AllDigits(whole) && AllDigits(frac) && (mark == '.' || mark == ',')
    ensures t == SignedText(negative, whole, mark, frac)
  {
    negative := |t| > 0 && t[0] == '-';
    var b := if negative then t[1..] else t;
    whole, mark, frac := UnsignedParts(b);
    assert t == Sign(negative) + b by {
      if negative {
        assert t == [t[0]] + t[1..];
      }
    }
  }

  lemma UnsignedParts(b: string) returns (whole: string, mark: char, frac: string)
    requires UnsignedDecimal(b)
    ensures |whole| > 0 && AllDigits(whole) && AllDigits(frac) && (mark == '.' || mark == ',')
    ensures b == whole + MarkTail(mark, frac)
  {
    var n := DigitRun(b);
    whole := b[..n];
    if n == |b| {
      mark, frac := '.', [];
      assert b == whole;
    } else {
      mark, frac := b[n], b[n + 1..];
      assert b[n..] == [mark] + frac;
      assert b == whole + b[n..];
    }
  }

  lemma NoComma(s: string)
    requires AllDigits(s)
    ensures ',' !in s
  {
  }

  /** Replacing the first comma turns the text into its point-decimal
      form. */
  lemma CommaToPoint(negative: bool, whole: string, mark: char, frac: string)
    requires ',' !in whole && ',' !in frac && (mark == '.' || mark == ',')
    ensures ReplaceFirst(SignedText(negative, whole, mark, frac), ',', '.') == DecimalText(negative, whole, frac)
  {
    var tail := MarkTail(mark, frac);
    ReplaceFirstAfter(Sign(negative), whole + tail, ',', '.');
    ReplaceFirstAfter(whole, tail, ',', '.');
    var point := if frac == [] then "" else "." + frac;
    assert ReplaceFirst(tail, ',', '.') == point by {
      if frac != [] {
        assert tail[1..] == frac;
      }
    }
    assert Sign(negative) + (whole + point) == DecimalText(negative, whole, frac);
  }

  /** What cleaning makes of a cell: a number and `null` stay as they are;
      a blank string becomes `null`, never the empty string; a decimal
      becomes its value; any other string becomes its trimmed text. */
  lemma CleanValueCases(v: Value)
    ensures !v.Str? ==> CleanValue(v) == v
    ensures v.Str? && Trim(v.s) == [] ==> CleanValue(v) == Null
    ensures v.Str? && Trim(v.s) != [] && !NumericText(Trim(v.s)) ==> CleanValue(v) == Str(Trim(v.s))
    ensures CleanValue(v) != Str("")
  {
  }

  /** A decimal written with a comma or a point becomes the number it
      denotes. */
  lemma CleanDecimal(s: string, negative: bool, whole: string, mark: char, frac: string)
    requires |whole| > 0 && AllDigits(whole) && AllDigits(frac)
    requires mark == '.' || mark == ','
    requires Trim(s) == SignedText(negative, whole, mark, frac)
    ensures CleanValue(Str(s)) == Num(SignedValue(negative, whole, frac))
  {
    var t := Trim(s);
    NumericComplete(negative, whole, mark, frac);
    var n, w, m, f := NumericSound(t);
    SignedTextInjective(negative, whole, mark, frac, n, w, m, f);
  }

  lemma SignedTextInjective(n1: bool, w1: string, m1: char, f1: string, n2: bool, w2: string, m2: char, f2: string)
    requires |w1| > 0 && AllDigits(w1) && AllDigits(f1) && (m1 == '.' || m1 == ',')
    requires |w2| > 0 && AllDigits(w2) && AllDigits(f2) && (m2 == '.' || m2 == ',')
    requires SignedText(n1, w1, m1, f1) == SignedText(n2, w2, m2, f2)
    ensures n1 == n2 && w1 == w2 && f1 == f2
  {
    var t := SignedText(n1, w1, m1, f1);
    var tail1 := MarkTail(m1, f1);
    var tail2 := MarkTail(m2, f2);
    assert n1 == (t[0] == '-') && n2 == (t[0] == '-') by {
      assert IsDigit(w1[0]) && IsDigit(w2[0]);
    }
    var b := if n1 then t[1..] else t;
    assert b == w1 + tail1 && b == w2 + tail2;
    WholeTailInjective(w1, tail1, w2, tail2);
    if f1 != [] {
      assert f1 == tail1[1..];
    }
  }

  /** A run of digits followed by text that does not start with a digit is
      determined by the whole string. */
  lemma WholeTailInjective(w1: string, tail1: string, w2: string, tail2: string)
    requires AllDigits(w1) && (tail1 == [] || !IsDigit(tail1[0]))
    requires AllDigits(w2) && (tail2 == [] || !IsDigit(tail2[0]))
    requires w1 + tail1 == w2 + tail2
    ensures w1 == w2 && tail1 == tail2
  {
    var b := w1 + tail1;
    DigitRunPrefix(w1, tail1);
    DigitRunPrefix(w2, tail2);
    assert w1 == b[..|w1|] && w2 == b[..|w2|];
    assert tail1 == b[|w1|..] && tail2 == b[|w2|..];
  }

  /** Cleaning twice is cleaning once. */
  lemma CleanIdempotent(v: Value)
    ensures CleanValue(CleanValue(v)) == CleanValue(v)
  {
    if v.Str? {
      var t := Trim(v.s);
      TrimIdempotent(v.s);
      if t != [] && NumericText(t) {
        var n, w, m, f := NumericSound(t);
      }
    }
  }

  /** The row the cleaning builds. */
  function CleanedRow(row: Row): Row {
    Rebuild(row, row.keys, CleanValue)
  }

  /** Cleaning keeps the keys of a row, in their order, and replaces each
      value by its cleaned value. */
  lemma CleanedRowShape(row: Row)
    requires WellFormed(row)
    ensures CleanedRow(row).keys == row.keys
    ensures forall k :: k in CleanedRow(row).cells <==> k in row.cells
    ensures forall k :: k in CleanedRow(row).cells ==> CleanedRow(row).cells[k] == CleanValue(row.cells[k])
  {
    RebuildShape(row, row.keys, CleanValue);
    OwnedAll(row.keys, row.cells);
  }

  /** The `for (const key in row)` loop that fills the new row. */
  method CleanRow(row: Row) returns (newRow: Row)
    ensures newRow == CleanedRow(row)
  {
    newRow := EmptyRow();
    for i := 0 to |row.keys|
      invariant newRow == Rebuild(row, row.keys[..i], CleanValue)
    {
      var key := row.keys[i];
      assert row.keys[..i + 1][..i] == row.keys[..i];
      if key in row.cells {
        var value := CleanValue(row.cells[key]);
        newRow := Assign(newRow, key, value);
      }
    }
    assert row.keys[..|row.keys|] == row.keys;
  }

  // ---------------------------------------------------------------------
  // The whole post-processing
  // ---------------------------------------------------------------------

  /** What the service resolves with for the records the library passes on. */
  function Ingested(records: seq<Row>, maxCols: Option<int>): (r: seq<Row>)
    ensures |r| == |records|
  {
    var processed := Truncated(records, maxCols);
    seq(|processed|, i requires 0 <= i < |processed| => CleanedRow(processed[i]))
  }

  /** `parseCsvToObjectsFlexible(csv, maxRows, maxCols)` from the point the
      library has tokenised `csv` into `parsed`. */
  method ParseCsvToObjects(parsed: seq<ParsedRecord>, maxRows: Option<int>, maxCols: Option<int>)
    returns (finalData: seq<Row>)
    ensures finalData == Ingested(LimitRows(parsed, maxRows), maxCols)
  {
    var records := LimitRows(parsed, maxRows);
    if |records| == 0 {
      return [];
    }
    var processedRecords := TruncateColumns(records, maxCols);
    finalData := [];
    for i := 0 to |processedRecords|
      invariant |finalData| == i
      invariant forall j :: 0 <= j < i ==> finalData[j] == CleanedRow(processedRecords[j])
    {
      var newRow := CleanRow(processedRecords[i]);
      finalData := finalData + [newRow];
    }
  }

  /** Without truncation each output row is its record with every cell
      cleaned, under the same keys in the same order. */
  lemma UntruncatedRow(records: seq<Row>, maxCols: Option<int>, i: nat)
    requires i < |records| && WellFormed(records[i])
    requires !Truncates(records, maxCols)
    ensures Ingested(records, maxCols)[i].keys == records[i].keys
    ensures forall k :: k in Ingested(records, maxCols)[i].cells <==> k in records[i].cells
    ensures forall k :: k in Ingested(records, maxCols)[i].cells ==>
              Ingested(records, maxCols)[i].cells[k] == CleanValue(records[i].cells[k])
  {
    CleanedRowShape(records[i]);
  }

  /** With truncation each output row holds exactly the desired headers its
      record owns, in the order of the first record, each with its cleaned
      value; there are never more of them than desired headers. */
  lemma TruncatedRow(records: seq<Row>, maxCols: Option<int>, i: nat)
    requires i < |records| && WellFormed(records[0])
    requires Truncates(records, maxCols)
    ensures Ingested(records, maxCols)[i].keys == Owned(Desired(records, maxCols), records[i].cells)
    ensures |Ingested(records, maxCols)[i].keys| <= |Desired(records, maxCols)|
    ensures forall k :: k in Ingested(records, maxCols)[i].cells <==>
              k in Desired(records, maxCols) && k in records[i].cells
    ensures forall k :: k in Ingested(records, maxCols)[i].cells ==>
              Ingested(records, maxCols)[i].cells[k] == CleanValue(records[i].cells[k])
  {
    var desired := Desired(records, maxCols);
    var p := Project(records[i], desired);
    assert DistinctKeys(desired) by {
      assert forall a :: 0 <= a < |desired| ==> desired[a] == records[0].keys[a];
    }
    ProjectShape(records[i], desired);
    CleanedRowShape(p);
  }

  /** With a non-negative `maxCols` below the width of the first record,
      that record keeps exactly its first `maxCols` headers. */
  lemma FirstRecordHeaders(records: seq<Row>, m: nat)
    requires records != [] && WellFormed(records[0]) && m < |records[0].keys|
    ensures Ingested(records, Some(m))[0].keys == records[0].keys[..m]
  {
    TruncatedRow(records, Some(m), 0);
    var desired := records[0].keys[..m];
    assert Desired(records, Some(m)) == desired;
    OwnedAll(desired, records[0].cells);
  }

  lemma {:induction false} OwnedAll(hs: seq<string>, cells: map<string, Value>)
    requires forall k :: k in hs ==> k in cells
    ensures Owned(hs, cells) == hs
  {
    if hs != [] {
      OwnedAll(hs[..|hs| - 1], cells);
      assert hs == hs[..|hs| - 1] + [hs[|hs| - 1]];
    }
  }
}
