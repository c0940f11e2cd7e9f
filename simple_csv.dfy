/**
  The hand-rolled CSV reader of the server entry point: the trimmed input is
  cut at every newline, each line at every comma; every field is trimmed
  and loses each single quote, double quote and carriage return; the first
  line names the columns; a data line with as many fields as there are
  headers becomes a row, any other line is skipped; a field that
  `parseFloat` can read a number from (a prefix suffices) becomes that
  number.
 */
module SimpleCsv {
  import opened Wrappers
  import opened JsText
  import opened JsNumber
  import opened Records

  /** The characters `/['"\r]/g` removes. */
  const Quotes: set<char> := {'\'', '"', '\r'}

  /** `field.trim().replace(/['"\r]/g, "")`. */
  function CleanField(field: string): string {
    RemoveChars(Trim(field), Quotes)
  }

  /** `line.split(",").map(...)`. */
  function Fields(line: string): (r: seq<string>)
    ensures |r| == |Split(line, {','})|
  {
    var pieces := Split(line, {','});
    seq(|pieces|, i requires 0 <= i < |pieces| => CleanField(pieces[i]))
  }

  /** A field becomes a number when `parseFloat` reads one and the field is
      not blank; otherwise it stays the cleaned string. */
  function Coerce(value: string): Value {
    match ParseFloat(value)
    case Some(n) => if Trim(value) != "" then Num(n) else Str(value)
    case None => Str(value)
  }

  /** The row object the inner loop fills: each header in turn receives its
      value. */
  function Assigned(headers: seq<string>, values: seq<Value>): Row
    requires |values| == |headers|
  {
    if headers == [] then EmptyRow()
    else
      var n := |headers| - 1;
      Assign(Assigned(headers[..n], values[..n]), headers[n], values[n])
  }

  function CoerceAll(fields: seq<string>): (r: seq<Value>)
    ensures |r| == |fields|
  {
    seq(|fields|, i requires 0 <= i < |fields| => Coerce(fields[i]))
  }

  /** The row built from the fields of a data line. */
  function BuildRow(headers: seq<string>, fields: seq<string>): Row
    requires |fields| == |headers|
  {
    Assigned(headers, CoerceAll(fields))
  }

  /** The row a data line contributes, if any. */
  function LineRow(headers: seq<string>, line: string): Option<Row> {
    var values := Fields(line);
    if |values| == |headers| then
      var row := BuildRow(headers, values);
      if |row.keys| > 0 then Some(row) else None
    else None
  }

  function OptionSeq<T>(o: Option<T>): seq<T> {
    match o
    case None => []
    case Some(x) => [x]
  }

  /** The values `f` yields for the items of `xs`, in order. */
  function Keep<T, U>(xs: seq<T>, f: T -> Option<U>): seq<U> {
    if xs == [] then []
    else Keep(xs[..|xs| - 1], f) + OptionSeq(f(xs[|xs| - 1]))
  }

  function LineOf(headers: seq<string>): string -> Option<Row> {
    line => LineRow(headers, line)
  }

  /** The rows of the data lines, in line order. */
  function DataRows(headers: seq<string>, lines: seq<string>): seq<Row> {
    Keep(lines, LineOf(headers))
  }

  /** The lines of the trimmed input. */
  function Lines(csv: string): (r: seq<string>)
    ensures |r| >= 1
  {
    Split(Trim(csv), {'\n'})
  }

  function Headers(csv: string): seq<string> {
    Fields(Lines(csv)[0])
  }

  /** What `parseCsvToObjectsFlexible(csv)` returns. */
  function Parsed(csv: string): seq<Row> {
    var lines := Lines(csv);
    DataRows(Headers(csv), lines[1..])
  }

  /** `parseCsvToObjectsFlexible`. */
  method ParseCsvToObjectsFlexible(csv: string) returns (data: seq<Row>)
    ensures data == Parsed(csv)
  {
    var lines := Split(Trim(csv), {'\n'});
    var headers := Fields(lines[0]);
    data := [];
    for i := 1 to |lines|
      invariant data == DataRows(headers, lines[1..i])
    {
      var values := Fields(lines[i]);
      DataRowsStep(headers, lines, i);
      if |values| == |headers| {
        var rowData := FillRow(headers, values);
        if |rowData.keys| > 0 {
          data := data + [rowData];
        }
      }
    }
    assert lines[1..|lines|] == lines[1..];
  }

  lemma DataRowsStep(headers: seq<string>, lines: seq<string>, i: nat)
    requires 1 <= i < |lines|
    ensures DataRows(headers, lines[1..i + 1]) == DataRows(headers, lines[1..i]) + OptionSeq(LineRow(headers, lines[i]))
  {
    KeepSliceStep(lines, LineOf(headers), i);
  }

  lemma KeepSliceStep<T, U>(xs: seq<T>, f: T -> Option<U>, i: nat)
    requires 1 <= i < |xs|
    ensures Keep(xs[1..i + 1], f) == Keep(xs[1..i], f) + OptionSeq(f(xs[i]))
  {
    KeepStep(xs[1..i + 1], f);
    assert xs[1..i + 1][..i - 1] == xs[1..i];
  }

  lemma KeepStep<T, U>(xs: seq<T>, f: T -> Option<U>)
    requires xs != []
    ensures Keep(xs, f) == Keep(xs[..|xs| - 1], f) + OptionSeq(f(xs[|xs| - 1]))
  {
  }

  lemma AssignedStep(headers: seq<string>, values: seq<Value>, j: nat)
    requires |values| == |headers| && j < |headers|
    ensures Assigned(headers[..j + 1], values[..j + 1]) == Assign(Assigned(headers[..j], values[..j]), headers[j], values[j])
  {
    assert headers[..j + 1][..j] == headers[..j] && values[..j + 1][..j] == values[..j];
  }

  /** The inner loop: each header receives its field, as a number when
      `parseFloat` reads one from a non-blank field. */
  method FillRow(headers: seq<string>, values: seq<string>) returns (rowData: Row)
    requires |values| == |headers|
    ensures rowData == BuildRow(headers, values)
  {
    rowData := EmptyRow();
    ghost var coerced := CoerceAll(values);
    for j := 0 to |headers|
      invariant rowData == Assigned(headers[..j], coerced[..j])
    {
      var header := headers[j];
      var value: Value := Str(values[j]);
      var numValue := ParseFloat(values[j]);
      if numValue.Some? && Trim(values[j]) != "" {
        value := Num(numValue.value);
      }
      assert value == coerced[j];
      AssignedStep(headers, coerced, j);
      rowData := Assign(rowData, header, value);
    }
    assert headers[..|headers|] == headers && coerced[..|coerced|] == coerced;
  }

  // ---------------------------------------------------------------------
  // Fields
  // ---------------------------------------------------------------------

  /** A cleaned field holds no quote, no carriage return, no comma and no
      newline. */
  lemma FieldsClean(line: string, i: nat)
    requires '\n' !in line && i < |Fields(line)|
    ensures forall c :: c in Fields(line)[i] ==> c !in Quotes && c != ',' && c != '\n'
  {
    var piece := Split(line, {','})[i];
    TrimChars(piece);
    RemoveCharsMembers(Trim(piece), Quotes);
  }

  /** A field is a number exactly when `parseFloat` reads one from it and it
      is not blank; it is never `null`. */
  lemma CoerceCases(value: string)
    ensures Coerce(value).Num? <==> ParseFloat(value).Some? && Trim(value) != ""
    ensures Coerce(value).Num? ==> ParseFloat(value) == Some(Coerce(value).n)
    ensures !Coerce(value).Num? ==> Coerce(value) == Str(value)
  {
  }

  /** `parseFloat` reads a prefix: "12ab" becomes the number 12. */
  lemma CoercePrefixExample()
    ensures Coerce("12ab") == Num(12.0)
  {
    ParseFloatPrefixExample();
    assert Trimmed("12ab");
    TrimShape("12ab");
  }

  // ---------------------------------------------------------------------
  // Rows
  // ---------------------------------------------------------------------

  /** Every row is an object whose keys are the headers, each listed
      once. */
  lemma {:induction false} AssignedKeys(headers: seq<string>, values: seq<Value>)
    requires |values| == |headers|
    ensures WellFormed(Assigned(headers, values))
    ensures forall k :: k in Assigned(headers, values).cells <==> k in headers
  {
    if headers != [] {
      var n := |headers| - 1;
      AssignedKeys(headers[..n], values[..n]);
      assert forall k :: k in headers <==> k in headers[..n] || k == headers[n];
    }
  }

  /** A header holds the value of its last occurrence. */
  lemma {:induction false} AssignedLast(headers: seq<string>, values: seq<Value>, j: nat)
    requires |values| == |headers| && j < |headers| && headers[j] !in headers[j + 1..]
    ensures headers[j] in Assigned(headers, values).cells
    ensures Assigned(headers, values).cells[headers[j]] == values[j]
  {
    var n := |headers| - 1;
    if j < n {
      assert headers[n] in headers[j + 1..];
      assert headers[..n][j + 1..] == headers[j + 1..n];
      var later, tail := headers[j + 1..n], headers[j + 1..];
      assert headers[j] !in later by {
        assert tail == later + [headers[n]];
        assert forall k :: k in later ==> k in tail;
      }
      AssignedLast(headers[..n], values[..n], j);
    }
  }

  /** The row of a data line: its keys are the headers, and each holds the
      coerced field of the header's last occurrence. */
  lemma BuildRowShape(headers: seq<string>, fields: seq<string>)
    requires |fields| == |headers|
    ensures WellFormed(BuildRow(headers, fields))
    ensures forall k :: k in BuildRow(headers, fields).cells <==> k in headers
    ensures forall j :: 0 <= j < |headers| && headers[j] !in headers[j + 1..] ==>
              BuildRow(headers, fields).cells[headers[j]] == Coerce(fields[j])
  {
    AssignedKeys(headers, CoerceAll(fields));
    forall j | 0 <= j < |headers| && headers[j] !in headers[j + 1..]
      ensures BuildRow(headers, fields).cells[headers[j]] == Coerce(fields[j])
    {
      AssignedLast(headers, CoerceAll(fields), j);
    }
  }

  /** With distinct headers the keys are the headers, in order. */
  lemma {:induction false} DistinctHeaderKeys(headers: seq<string>, values: seq<Value>)
    requires |values| == |headers| && DistinctKeys(headers)
    ensures Assigned(headers, values).keys == headers
  {
    if headers != [] {
      var n := |headers| - 1;
      assert DistinctKeys(headers[..n]);
      DistinctHeaderKeys(headers[..n], values[..n]);
      AssignedKeys(headers[..n], values[..n]);
      assert headers[n] !in headers[..n];
    }
  }

  /** A row holds a key: every line with as many fields as headers yields
      a row. */
  lemma RowHasKeys(headers: seq<string>, values: seq<string>)
    requires |values| == |headers| && |headers| >= 1
    ensures |BuildRow(headers, values).keys| > 0
  {
    BuildRowShape(headers, values);
    assert headers[0] in BuildRow(headers, values).cells;
  }

  /** Processing lines one after the other: the rows of a concatenation are
      the rows of each part, so a skipped line does not stop the parse. */
  lemma DataRowsAppend(headers: seq<string>, a: seq<string>, b: seq<string>)
    ensures DataRows(headers, a + b) == DataRows(headers, a) + DataRows(headers, b)
  {
    KeepAppend(a, b, LineOf(headers));
  }

  lemma {:induction false} KeepAppend<T, U>(a: seq<T>, b: seq<T>, f: T -> Option<U>)
    ensures Keep(a + b, f) == Keep(a, f) + Keep(b, f)
  {
    if b != [] {
      var init := b[..|b| - 1];
      KeepAppend(a, init, f);
      assert (a + b)[..|a + b| - 1] == a + init;
    } else {
      assert a + b == a;
    }
  }

  lemma KeepOne<T, U>(x: T, f: T -> Option<U>)
    ensures Keep([x], f) == OptionSeq(f(x))
  {
    KeepStep([x], f);
    assert [x][..0] == [];
  }

  /** A line contributes a row exactly when it has as many fields as there
      are headers. */
  lemma LineRowCases(headers: seq<string>, line: string)
    requires |headers| >= 1
    ensures LineRow(headers, line).Some? <==> |Fields(line)| == |headers|
    ensures LineRow(headers, line).Some? ==> LineRow(headers, line).value == BuildRow(headers, Fields(line))
  {
    if |Fields(line)| == |headers| {
      RowHasKeys(headers, Fields(line));
    }
  }

  /** The number of lines with as many fields as headers. */
  function Matching(headers: seq<string>, lines: seq<string>): nat {
    if lines == [] then 0
    else Matching(headers, lines[1..]) + (if |Fields(lines[0])| == |headers| then 1 else 0)
  }

  /** One row per line with the header count of fields, at most one per
      line. */
  lemma {:induction false} RowCount(headers: seq<string>, lines: seq<string>)
    requires |headers| >= 1
    ensures |DataRows(headers, lines)| == Matching(headers, lines) <= |lines|
  {
    if lines != [] {
      RowCount(headers, lines[1..]);
      DataRowsAppend(headers, [lines[0]], lines[1..]);
      assert [lines[0]] + lines[1..] == lines;
      KeepOne(lines[0], LineOf(headers));
      LineRowCases(headers, lines[0]);
    }
  }

  lemma HeadersNotEmpty(csv: string)
    ensures |Headers(csv)| >= 1
  {
  }

  /** There are at most as many rows as newlines in the trimmed input, and
      an input that is empty or only a header line gives no rows. */
  lemma ParsedBound(csv: string)
    ensures |Parsed(csv)| <= CountIn(Trim(csv), {'\n'})
    ensures '\n' !in Trim(csv) ==> Parsed(csv) == []
  {
    var lines := Lines(csv);
    SplitCount(Trim(csv), {'\n'});
    RowCount(Headers(csv), lines[1..]);
    if '\n' !in Trim(csv) {
      NoSeparators(Trim(csv), '\n');
      assert lines[1..] == [];
    }
  }

  lemma {:induction false} NoSeparators(s: string, c: char)
    requires c !in s
    ensures CountIn(s, {c}) == 0
  {
    if s != [] {
      assert s[0] != c;
      assert c !in s[1..] by {
        assert forall x :: x in s[1..] ==> x in s;
      }
      NoSeparators(s[1..], c);
    }
  }

  /** With a single header a blank data line is not skipped: it has one
      (empty) field and becomes a row holding the empty string. */
  lemma BlankLineKept(headers: seq<string>)
    requires |headers| == 1
    ensures DataRows(headers, [""]) == [Row([headers[0]], map[headers[0] := Str("")])]
  {
    BlankLineRow(headers);
    KeepOne("", LineOf(headers));
  }

  lemma BlankLineRow(headers: seq<string>)
    requires |headers| == 1
    ensures LineRow(headers, "") == Some(Row([headers[0]], map[headers[0] := Str("")]))
  {
    BlankFields();
    BlankRow(headers);
  }

  lemma BlankRow(headers: seq<string>)
    requires |headers| == 1
    ensures BuildRow(headers, [""]) == Row([headers[0]], map[headers[0] := Str("")])
  {
    CoerceBlank();
    var values := [Str("")];
    assert CoerceAll([""]) == values;
    assert headers[..0] == [] && values[..0] == [];
    assert Assigned(headers[..0], values[..0]) == EmptyRow();
    assert Assigned(headers, values) == Assign(EmptyRow(), headers[0], Str(""));
  }

  lemma BlankFields()
    ensures Fields("") == [""]
  {
    assert Split("", {','}) == [""];
    TrimShape("");
    RemoveCharsNone("", Quotes);
  }

  lemma CoerceBlank()
    ensures Coerce("") == Str("")
  {
    TrimShape("");
  }
}
