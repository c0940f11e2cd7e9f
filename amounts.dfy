/**
  `sumColumnValues` of the analysis service: the sum of the amounts a
  column holds, rounded to hundredths.

  A cell is trimmed and, when not blank, cleaned down to its digits, points,
  commas and minus signs. The cleaned text is then read in one of three
  ways: as a European grouped amount ("1.234,56": points group thousands,
  the comma is the decimal mark), as a US grouped amount ("1,234.56": commas
  group thousands), or, failing both, with every comma taken for a decimal
  point. `parseFloat` reads the result; a cell it cannot read adds nothing.
 */
module Amounts {
  import opened Wrappers
  import opened JsText
  import opened JsNumber
  import opened Records
  import opened Counting

  /** The characters `value.replace(/[^0-9.,-]+/g, "")` keeps. */
  const AmountChars: set<char> := {'0', '1', '2', '3', '4', '5', '6', '7', '8', '9', '.', ',', '-'}

  function CleanAmount(value: string): string {
    KeepChars(value, AmountChars)
  }

  /** What may follow the leading digits in `/^\d{1,3}(G\d{3})+(D\d+)?$/`,
      for the group mark `g` and the decimal mark `d`: groups of a mark and
      three digits, then optionally the decimal mark and one or more digits.
      `seen` records that a group has been read already. */
  predicate GroupsFrom(t: string, g: char, d: char, seen: bool)
    decreases |t|
  {
    if t == [] then seen
    else if t[0] == g then |t| >= 4 && AllDigits(t[1..4]) && GroupsFrom(t[4..], g, d, true)
    else seen && t[0] == d && |t| >= 2 && AllDigits(t[1..])
  }

  /** `s` matches `/^\d{1,3}(G\d{3})+(D\d+)?$/`. The leading `\d{1,3}` must
      take the whole leading run of digits, since a group mark follows it. */
  predicate Grouped(s: string, g: char, d: char) {
    var lead := DigitRun(s);
    1 <= lead <= 3 && GroupsFrom(s[lead..], g, d, false)
  }

  /** The text `parseFloat` is given for a cleaned amount. */
  function DecimalForm(v: string): string {
    if Grouped(v, '.', ',') then ReplaceFirst(RemoveChars(v, {'.'}), ',', '.')
    else if Grouped(v, ',', '.') then RemoveChars(v, {','})
    else ReplaceAll(v, ',', '.')
  }

  /** The amount a trimmed cell holds, `None` when it is blank or
      `parseFloat` gives `NaN`. */
  function CellAmount(value: string): Option<real> {
    if value == [] then None else ParseFloat(DecimalForm(CleanAmount(value)))
  }

  /** The amount a row adds, `None` when it does not own the column. */
  function Amount(row: Row, column: string): Option<real> {
    match CellOf(row, column)
    case None => None
    case Some(value) => CellAmount(value)
  }

  function AmountOrZero(a: Option<real>): real {
    match a
    case None => 0.0
    case Some(x) => x
  }

  /** The exact sum of the amounts of the rows. */
  function ColumnSum(data: Dataset, column: string): real {
    if data == [] then 0.0
    else ColumnSum(data[..|data| - 1], column) + AmountOrZero(Amount(data[|data| - 1], column))
  }

  /** `sumColumnValues(data, column)`. */
  method SumColumnValues(data: Dataset, column: string) returns (total: real)
    ensures total == ToFixed2(ColumnSum(data, column))
  {
    if |data| == 0 {
      return 0.0;
    }
    var totalSum := 0.0;
    for i := 0 to |data|
      invariant totalSum == ColumnSum(data[..i], column)
    {
      ColumnSumStep(data, i, column);
      var row := data[i];
      if column !in row.cells {
        continue;
      }
      var value := Trim(CellText(row.cells[column]));
      if value == [] {
        continue;
      }
      var num := ParseAmount(value);
      if num.Some? {
        totalSum := totalSum + num.value;
      }
    }
    assert data[..|data|] == data;
    total := ToFixed2(totalSum);
  }

  /** The cleaning, format detection and `parseFloat` the loop applies to
      a non-blank trimmed cell. */
  method ParseAmount(cell: string) returns (num: Option<real>)
    requires cell != []
    ensures num == CellAmount(cell)
  {
    var value := KeepChars(cell, AmountChars);
    if Grouped(value, '.', ',') {
      value := ReplaceFirst(RemoveChars(value, {'.'}), ',', '.');
    } else if Grouped(value, ',', '.') {
      value := RemoveChars(value, {','});
    } else {
      value := ReplaceAll(value, ',', '.');
    }
    num := ParseFloat(value);
  }

  lemma ColumnSumStep(data: Dataset, i: nat, column: string)
    requires i < |data|
    ensures ColumnSum(data[..i + 1], column) == ColumnSum(data[..i], column) + AmountOrZero(Amount(data[i], column))
  {
    assert data[..i + 1][..i] == data[..i];
  }

  // ---------------------------------------------------------------------
  // The sum
  // ---------------------------------------------------------------------

  /** The sum of a concatenation is the sum of the sums. */
  lemma {:induction false} ColumnSumAppend(a: Dataset, b: Dataset, column: string)
    ensures ColumnSum(a + b, column) == ColumnSum(a, column) + ColumnSum(b, column)
  {
    if b == [] {
      assert a + b == a;
    } else {
      var init := b[..|b| - 1];
      ColumnSumAppend(a, init, column);
      assert (a + b)[..|a + b| - 1] == a + init;
    }
  }

  /** The order of the rows does not matter. */
  lemma SumOrderIrrelevant(a: Dataset, b: Dataset, column: string)
    ensures ColumnSum(a + b, column) == ColumnSum(b + a, column)
  {
    ColumnSumAppend(a, b, column);
    ColumnSumAppend(b, a, column);
  }

  /** Reordering the rows in any way does not change the sum. */
  lemma SumPermutation(d1: Dataset, d2: Dataset, column: string)
    requires multiset(d1) == multiset(d2)
    ensures ColumnSum(d1, column) == ColumnSum(d2, column)
  {
    var sum := (d: Dataset) => ColumnSum(d, column);
    forall a: Dataset, b: Dataset ensures sum(a + b) == sum(a) + sum(b) {
      ColumnSumAppend(a, b, column);
    }
    AdditivePermuted(d1, d2, sum);
  }

  /** A sum that adds over concatenation is the same for any two
      permutations of one list. */
  lemma {:induction false} AdditivePermuted<T>(d1: seq<T>, d2: seq<T>, sum: seq<T> -> real)
    requires multiset(d1) == multiset(d2)
    requires forall a, b :: sum(a + b) == sum(a) + sum(b)
    ensures sum(d1) == sum(d2)
    decreases |d1|
  {
    if d1 == [] {
      assert |d2| == |multiset(d2)| == 0;
    } else {
      var k := MatchAt(d1, d2);
      var before, after := d2[..k], d2[k + 1..];
      AdditivePermuted(d1[1..], before + after, sum);
      assert d1 == [d1[0]] + d1[1..];
      assert d2 == (before + [d2[k]]) + after;
      assert sum(d2) == sum(before) + sum([d2[k]]) + sum(after) by {
        assert sum((before + [d2[k]]) + after) == sum(before + [d2[k]]) + sum(after);
      }
      assert sum(before + after) == sum(before) + sum(after);
    }
  }

  /** Where the first item of `d1` sits in its permutation `d2`, and that the
      rest of `d1` is a permutation of `d2` without it. */
  lemma MatchAt<T>(d1: seq<T>, d2: seq<T>) returns (k: nat)
    requires d1 != [] && multiset(d1) == multiset(d2)
    ensures k < |d2| && d2[k] == d1[0]
    ensures multiset(d1[1..]) == multiset(d2[..k] + d2[k + 1..])
  {
    assert d1[0] in multiset(d2);
    k :| 0 <= k < |d2| && d2[k] == d1[0];
    var before, after := d2[..k], d2[k + 1..];
    assert d1 == [d1[0]] + d1[1..];
    assert d2 == before + [d2[k]] + after;
    assert multiset(d1) == multiset([d1[0]]) + multiset(d1[1..]);
    assert multiset(d2) == multiset(before) + multiset([d2[k]]) + multiset(after);
    assert multiset(before + after) == multiset(before) + multiset(after);
    assert multiset(d1[1..]) == multiset(d1) - multiset([d1[0]]);
    assert multiset(before + after) == multiset(d2) - multiset([d2[k]]);
  }

  /** Rows that hold no amount add nothing. */
  lemma {:induction false} NoAmountsSumZero(data: Dataset, column: string)
    requires forall i :: 0 <= i < |data| ==> Amount(data[i], column).None?
    ensures ColumnSum(data, column) == 0.0
  {
    if data != [] {
      var init := data[..|data| - 1];
      assert forall i :: 0 <= i < |init| ==> init[i] == data[i];
      NoAmountsSumZero(init, column);
    }
  }

  /** The reported total is within half a hundredth of the exact sum. */
  lemma ReportedTotal(data: Dataset, column: string)
    ensures -0.005 <= ToFixed2(ColumnSum(data, column)) - ColumnSum(data, column) <= 0.005
  {
    ToFixed2Properties(ColumnSum(data, column));
  }

  // ---------------------------------------------------------------------
  // Grouped amounts
  // ---------------------------------------------------------------------

  /** The groups, each after a group mark. */
  function JoinGroups(groups: seq<string>, g: char): string {
    if groups == [] then "" else [g] + groups[0] + JoinGroups(groups[1..], g)
  }

  function Flatten(groups: seq<string>): string {
    if groups == [] then "" else groups[0] + Flatten(groups[1..])
  }

  /** The decimal part, after the decimal mark, when there is one. */
  function Tail(frac: string, d: char): string {
    if frac == [] then "" else [d] + frac
  }

  predicate DigitGroups(groups: seq<string>) {
    forall i :: 0 <= i < |groups| ==> |groups[i]| == 3 && AllDigits(groups[i])
  }

  /** One to three leading digits, one or more groups of three digits, and a
      decimal part of digits. */
  predicate WellGrouped(lead: string, groups: seq<string>, frac: string) {
    1 <= |lead| <= 3 && AllDigits(lead) && |groups| >= 1 && DigitGroups(groups) && AllDigits(frac)
  }

  function GroupedText(lead: string, groups: seq<string>, frac: string, g: char, d: char): string {
    lead + JoinGroups(groups, g) + Tail(frac, d)
  }

  predicate Marks(g: char, d: char) {
    !IsDigit(g) && !IsDigit(d) && g != d
  }

  lemma {:induction false} GroupsSound(groups: seq<string>, frac: string, g: char, d: char, seen: bool)
    requires Marks(g, d) && DigitGroups(groups) && AllDigits(frac)
    requires seen || |groups| >= 1
    ensures GroupsFrom(JoinGroups(groups, g) + Tail(frac, d), g, d, seen)
  {
    var t := JoinGroups(groups, g) + Tail(frac, d);
    if groups == [] {
      assert t == Tail(frac, d);
      if frac != [] {
        assert t[1..] == frac;
      }
    } else {
      var rest := JoinGroups(groups[1..], g) + Tail(frac, d);
      assert t == [g] + groups[0] + rest;
      assert t[1..4] == groups[0];
      assert t[4..] == rest;
      assert DigitGroups(groups[1..]) by {
        assert forall i :: 0 <= i < |groups| - 1 ==> groups[1..][i] == groups[i + 1];
      }
      GroupsSound(groups[1..], frac, g, d, true);
    }
  }

  /** Every well-grouped text matches the pattern. */
  lemma GroupedSound(lead: string, groups: seq<string>, frac: string, g: char, d: char)
    requires Marks(g, d) && WellGrouped(lead, groups, frac)
    ensures Grouped(GroupedText(lead, groups, frac, g, d), g, d)
  {
    var rest := JoinGroups(groups, g) + Tail(frac, d);
    assert GroupedText(lead, groups, frac, g, d) == lead + rest;
    assert rest[0] == g;
    GroupsSound(groups, frac, g, d, false);
    LeadThenGroups(lead, rest, g, d);
  }

  /** One to three digits followed by the groups match the pattern. */
  lemma LeadThenGroups(lead: string, rest: string, g: char, d: char)
    requires 1 <= |lead| <= 3 && AllDigits(lead)
    requires rest != [] && !IsDigit(rest[0])
    requires GroupsFrom(rest, g, d, false)
    ensures Grouped(lead + rest, g, d)
  {
    DigitRunPrefix(lead, rest);
    assert (lead + rest)[|lead|..] == rest;
  }

  lemma {:induction false} GroupsParts(t: string, g: char, d: char, seen: bool) returns (groups: seq<string>, frac: string)
    requires Marks(g, d) && GroupsFrom(t, g, d, seen)
    ensures seen || |groups| >= 1
    ensures DigitGroups(groups) && AllDigits(frac)
    ensures t == JoinGroups(groups, g) + Tail(frac, d)
    decreases |t|
  {
    if t == [] {
      groups, frac := [], [];
    } else if t[0] == g {
      var gs, f := GroupsParts(t[4..], g, d, true);
      groups, frac := [t[1..4]] + gs, f;
      GroupsCons(t[1..4], gs);
      JoinCons(t, gs, f, g, d);
    } else {
      groups, frac := [], t[1..];
      assert t == [d] + t[1..];
    }
  }

  /** A text that starts with a group mark and three characters, and goes on
      with joined groups, is those groups with one more in front. */
  lemma JoinCons(t: string, gs: seq<string>, f: string, g: char, d: char)
    requires |t| >= 4 && t[0] == g && t[4..] == JoinGroups(gs, g) + Tail(f, d)
    ensures t == JoinGroups([t[1..4]] + gs, g) + Tail(f, d)
  {
    JoinOne(t[1..4], gs, g);
    MarkThenThree(t, g);
    ConcatRegroup([g] + t[1..4], JoinGroups(gs, g), Tail(f, d));
  }

  lemma JoinOne(group: string, gs: seq<string>, g: char)
    ensures JoinGroups([group] + gs, g) == [g] + group + JoinGroups(gs, g)
  {
    assert ([group] + gs)[1..] == gs;
  }

  lemma MarkThenThree(t: string, g: char)
    requires |t| >= 4 && t[0] == g
    ensures t == ([g] + t[1..4]) + t[4..]
  {
  }

  lemma ConcatRegroup<T>(a: seq<T>, b: seq<T>, c: seq<T>)
    ensures a + (b + c) == (a + b) + c
  {
  }

  /** Adding a group of three digits in front keeps the groups digit groups. */
  lemma GroupsCons(group: string, gs: seq<string>)
    requires |group| == 3 && AllDigits(group) && DigitGroups(gs)
    ensures DigitGroups([group] + gs)
  {
    var groups := [group] + gs;
    forall i | 0 <= i < |groups| ensures |groups[i]| == 3 && AllDigits(groups[i]) {
      if i > 0 {
        assert groups[i] == gs[i - 1];
      }
    }
  }

  /** Every text that matches the pattern is well grouped. */
  lemma GroupedComplete(s: string, g: char, d: char) returns (lead: string, groups: seq<string>, frac: string)
    requires Marks(g, d) && Grouped(s, g, d)
    ensures WellGrouped(lead, groups, frac)
    ensures s == GroupedText(lead, groups, frac, g, d)
  {
    var n := DigitRun(s);
    lead := s[..n];
    groups, frac := GroupsParts(s[n..], g, d, false);
    assert s == s[..n] + s[n..];
  }

  /** A text is never grouped both ways. */
  lemma GroupingsExclusive(s: string)
    ensures !(Grouped(s, '.', ',') && Grouped(s, ',', '.'))
  {
    var n := DigitRun(s);
    if Grouped(s, '.', ',') {
      assert s[n..][0] == '.';
    }
  }

  lemma {:induction false} FlattenDigits(groups: seq<string>)
    requires DigitGroups(groups)
    ensures AllDigits(Flatten(groups))
  {
    if groups != [] {
      assert DigitGroups(groups[1..]) by {
        assert forall i :: 0 <= i < |groups| - 1 ==> groups[1..][i] == groups[i + 1];
      }
      FlattenDigits(groups[1..]);
      assert AllDigits(groups[0]);
    }
  }

  /** Removing the group marks leaves the digits of the groups. */
  lemma {:induction false} RemoveGroupMarks(groups: seq<string>, g: char)
    requires !IsDigit(g) && DigitGroups(groups)
    ensures RemoveChars(JoinGroups(groups, g), {g}) == Flatten(groups)
  {
    if groups != [] {
      assert DigitGroups(groups[1..]) by {
        assert forall i :: 0 <= i < |groups| - 1 ==> groups[1..][i] == groups[i + 1];
      }
      RemoveGroupMarks(groups[1..], g);
      assert JoinGroups(groups, g) == [g] + (groups[0] + JoinGroups(groups[1..], g));
      RemoveCharsAppend([g], groups[0] + JoinGroups(groups[1..], g), {g});
      RemoveCharsAppend(groups[0], JoinGroups(groups[1..], g), {g});
      assert RemoveChars([g], {g}) == [];
      assert forall c :: c in groups[0] ==> c !in {g};
      RemoveCharsNone(groups[0], {g});
    }
  }

  /** Removing group marks from a grouped text leaves its digits and its
      decimal part. */
  lemma RemoveMarks(lead: string, groups: seq<string>, frac: string, g: char, d: char)
    requires Marks(g, d) && WellGrouped(lead, groups, frac)
    ensures RemoveChars(GroupedText(lead, groups, frac, g, d), {g}) == (lead + Flatten(groups)) + Tail(frac, d)
  {
    RemoveCharsAppend(lead + JoinGroups(groups, g), Tail(frac, d), {g});
    RemoveCharsAppend(lead, JoinGroups(groups, g), {g});
    RemoveGroupMarks(groups, g);
    assert forall c :: c in lead ==> c !in {g};
    RemoveCharsNone(lead, {g});
    assert forall c :: c in Tail(frac, d) ==> c !in {g};
    RemoveCharsNone(Tail(frac, d), {g});
  }

  /** A European grouped amount ("1.234,56") loses its points, and its
      comma becomes the decimal point. */
  lemma EuropeanForm(lead: string, groups: seq<string>, frac: string)
    requires WellGrouped(lead, groups, frac)
    ensures DecimalForm(GroupedText(lead, groups, frac, '.', ',')) == DecimalText(false, lead + Flatten(groups), frac)
  {
    GroupedSound(lead, groups, frac, '.', ',');
    EuropeanBranch(GroupedText(lead, groups, frac, '.', ','));
    RemoveMarks(lead, groups, frac, '.', ',');
    FlattenDigits(groups);
    CommaTail(lead + Flatten(groups), frac);
  }

  /** Digits followed by a comma and a fraction become the point decimal. */
  lemma CommaTail(whole: string, frac: string)
    requires AllDigits(whole)
    ensures ReplaceFirst(whole + Tail(frac, ','), ',', '.') == DecimalText(false, whole, frac)
  {
    ReplaceFirstAfter(whole, Tail(frac, ','), ',', '.');
    assert ReplaceFirst(Tail(frac, ','), ',', '.') == Tail(frac, '.');
  }

  /** A European grouped amount is read with its points as thousands marks
      and its comma as the decimal mark. */
  lemma EuropeanAmount(lead: string, groups: seq<string>, frac: string)
    requires WellGrouped(lead, groups, frac)
    ensures AllDigits(lead + Flatten(groups))
    ensures ParseFloat(DecimalForm(GroupedText(lead, groups, frac, '.', ',')))
         == Some(DecimalValue(lead + Flatten(groups), frac))
  {
    FlattenDigits(groups);
    EuropeanForm(lead, groups, frac);
    ParseDecimalText(false, lead + Flatten(groups), frac);
  }

  /** A US grouped amount ("8,737.50") loses its commas. */
  lemma UsForm(lead: string, groups: seq<string>, frac: string)
    requires WellGrouped(lead, groups, frac)
    ensures DecimalForm(GroupedText(lead, groups, frac, ',', '.')) == DecimalText(false, lead + Flatten(groups), frac)
  {
    var s := GroupedText(lead, groups, frac, ',', '.');
    GroupedSound(lead, groups, frac, ',', '.');
    GroupingsExclusive(s);
    UsBranch(s);
    RemoveMarks(lead, groups, frac, ',', '.');
    PointTail(lead + Flatten(groups), frac);
  }

  /** The second branch of the amount conversion. */
  lemma UsBranch(s: string)
    requires Grouped(s, ',', '.') && !Grouped(s, '.', ',')
    ensures DecimalForm(s) == RemoveChars(s, {','})
  {
  }

  /** The first branch of the amount conversion. */
  lemma EuropeanBranch(s: string)
    requires Grouped(s, '.', ',')
    ensures DecimalForm(s) == ReplaceFirst(RemoveChars(s, {'.'}), ',', '.')
  {
  }

  lemma PointTail(whole: string, frac: string)
    ensures whole + Tail(frac, '.') == DecimalText(false, whole, frac)
  {
  }

  /** A US grouped amount is read with its commas as thousands marks. */
  lemma UsAmount(lead: string, groups: seq<string>, frac: string)
    requires WellGrouped(lead, groups, frac)
    ensures AllDigits(lead + Flatten(groups))
    ensures ParseFloat(DecimalForm(GroupedText(lead, groups, frac, ',', '.')))
         == Some(DecimalValue(lead + Flatten(groups), frac))
  {
    FlattenDigits(groups);
    UsForm(lead, groups, frac);
    ParseDecimalText(false, lead + Flatten(groups), frac);
  }

  /** Digits, a comma and digits that are not a US grouped amount (more
      than three leading digits, or a decimal part not of three digits) are
      read with the comma as the decimal mark: "1234,56" is 1234.56. */
  lemma CommaDecimal(whole: string, frac: string)
    requires |whole| > 0 && AllDigits(whole) && |frac| > 0 && AllDigits(frac)
    requires |whole| > 3 || |frac| != 3
    ensures ParseFloat(DecimalForm(whole + "," + frac)) == Some(DecimalValue(whole, frac))
  {
    CommaForm(whole, frac);
    ParseDecimalText(false, whole, frac);
  }

  /** A single comma between digits becomes the decimal point. */
  lemma CommaForm(whole: string, frac: string)
    requires |whole| > 0 && AllDigits(whole) && |frac| > 0 && AllDigits(frac)
    requires |whole| > 3 || |frac| != 3
    ensures DecimalForm(whole + "," + frac) == DecimalText(false, whole, frac)
  {
    CommaNotGrouped(whole, frac);
    LastBranch(whole + "," + frac);
    CommaToPoint(whole, frac);
    assert whole + "." + frac == DecimalText(false, whole, frac);
  }

  /** The last branch of the amount conversion. */
  lemma LastBranch(s: string)
    requires !Grouped(s, '.', ',') && !Grouped(s, ',', '.')
    ensures DecimalForm(s) == ReplaceAll(s, ',', '.')
  {
  }

  /** A plain decimal with a point, signed or not, that is not a European
      grouped amount (a sign, more than three leading digits, or a decimal
      part not of three digits) is read as written: "1234.56" is 1234.56
      and "-12.5" is -12.5. */
  lemma PointDecimal(negative: bool, whole: string, frac: string)
    requires |whole| > 0 && AllDigits(whole) && AllDigits(frac)
    requires negative || |whole| > 3 || |frac| != 3
    ensures CellAmount(DecimalText(negative, whole, frac))
         == Some(if negative then -DecimalValue(whole, frac) else DecimalValue(whole, frac))
  {
    var s := DecimalText(negative, whole, frac);
    PointChars(negative, whole, frac);
    AllAmountChars(s);
    PointNotGrouped(negative, whole, frac);
    NoCommaUnchanged(s);
    ParseDecimalText(negative, whole, frac);
  }

  lemma PointChars(negative: bool, whole: string, frac: string)
    requires AllDigits(whole) && AllDigits(frac)
    ensures forall i :: 0 <= i < |DecimalText(negative, whole, frac)| ==>
              DecimalText(negative, whole, frac)[i] in AmountChars - {','}
  {
    var sign: string := if negative then "-" else "";
    var tail: string := if frac == [] then "" else "." + frac;
    var s := DecimalText(negative, whole, frac);
    assert s == sign + whole + tail;
    forall i | 0 <= i < |s| ensures s[i] in AmountChars - {','} {
      if i < |sign| {
        assert s[i] == '-';
      } else if i < |sign| + |whole| {
        assert s[i] == whole[i - |sign|];
      } else if i == |sign| + |whole| {
        assert s[i] == '.';
      } else {
        assert s[i] == frac[i - |sign| - |whole| - 1];
      }
    }
  }

  lemma NoCommaUnchanged(s: string)
    requires forall i :: 0 <= i < |s| ==> s[i] != ','
    ensures ReplaceAll(s, ',', '.') == s
  {
  }

  lemma PointNotGrouped(negative: bool, whole: string, frac: string)
    requires |whole| > 0 && AllDigits(whole) && AllDigits(frac)
    requires negative || |whole| > 3 || |frac| != 3
    ensures !Grouped(DecimalText(negative, whole, frac), '.', ',')
    ensures !Grouped(DecimalText(negative, whole, frac), ',', '.')
  {
    var s := DecimalText(negative, whole, frac);
    if negative {
      assert s[0] == '-';
      assert DigitRun(s) == 0;
    } else {
      var tail: string := if frac == [] then "" else "." + frac;
      assert s == whole + tail;
      DigitRunPrefix(whole, tail);
      assert s[|whole|..] == tail;
      if |whole| <= 3 && |frac| > 3 {
        assert tail[4..] == frac[3..];
        assert IsDigit(frac[3]);
        assert !GroupsFrom(tail[4..], '.', ',', true);
      }
    }
  }

  lemma CommaNotGrouped(whole: string, frac: string)
    requires |whole| > 0 && AllDigits(whole) && |frac| > 0 && AllDigits(frac)
    requires |whole| > 3 || |frac| != 3
    ensures !Grouped(whole + "," + frac, '.', ',') && !Grouped(whole + "," + frac, ',', '.')
  {
    var v := whole + "," + frac;
    var t := "," + frac;
    assert v == whole + t;
    DigitRunPrefix(whole, t);
    assert v[|whole|..] == t;
    if |whole| <= 3 && |frac| > 3 {
      assert t[4..] == frac[3..];
      assert IsDigit(frac[3]);
      assert !GroupsFrom(t[4..], ',', '.', true);
    }
  }

  lemma CommaToPoint(whole: string, frac: string)
    requires AllDigits(whole) && AllDigits(frac)
    ensures ReplaceAll(whole + "," + frac, ',', '.') == whole + "." + frac
  {
    var v := whole + "," + frac;
    var w := whole + "." + frac;
    forall i | 0 <= i < |v| ensures ReplaceAll(v, ',', '.')[i] == w[i] {
      if i < |whole| {
        assert v[i] == whole[i] && w[i] == whole[i];
      } else if i > |whole| {
        assert v[i] == frac[i - |whole| - 1] && w[i] == frac[i - |whole| - 1];
      }
    }
  }

  // ---------------------------------------------------------------------
  // The formats the service documents
  // ---------------------------------------------------------------------

  /** The shapes built from a single group. */
  lemma OneGroup(lead: string, x: string, frac: string, g: char, d: char)
    ensures GroupedText(lead, [x], frac, g, d) == lead + [g] + x + Tail(frac, d)
    ensures Flatten([x]) == x
    ensures 1 <= |lead| <= 3 && AllDigits(lead) && |x| == 3 && AllDigits(x) && AllDigits(frac)
            ==> WellGrouped(lead, [x], frac)
  {
    assert [x][1..] == [];
    assert JoinGroups([x], g) == [g] + x + JoinGroups([], g);
  }

  /** "$ 8.737" is 8737. */
  lemma PesoExample()
    ensures CellAmount("$ 8.737") == Some(8737.0)
  {
    PesoClean();
    PesoForm();
    Value8737("");
  }

  lemma PesoClean()
    ensures CleanAmount("$ 8.737") == "8.737"
  {
    assert "$ 8.737" == "$ " + "8.737";
    KeepAfterJunk("$ ", "8.737", AmountChars);
  }

  lemma PesoForm()
    ensures DecimalForm("8.737") == DecimalText(false, "8737", "")
  {
    OneGroup("8", "737", "", '.', ',');
    assert "8" + ['.'] + "737" + Tail("", ',') == "8.737";
    EuropeanForm("8", ["737"], "");
    assert "8" + "737" == "8737";
  }

  /** "8,737.50" is 8737.5. */
  lemma UsExample()
    ensures CellAmount("8,737.50") == Some(8737.5)
  {
    AllAmountChars("8,737.50");
    UsFormExample();
    Value8737("50");
  }

  lemma UsFormExample()
    ensures DecimalForm("8,737.50") == DecimalText(false, "8737", "50")
  {
    UsOneGroup("8", "737", "50");
    assert "8" + [','] + "737" + Tail("50", '.') == "8,737.50";
    assert "8" + "737" == "8737";
  }

  /** A US amount with a single group of three digits. */
  lemma UsOneGroup(lead: string, x: string, frac: string)
    requires 1 <= |lead| <= 3 && AllDigits(lead) && |x| == 3 && AllDigits(x) && AllDigits(frac)
    ensures DecimalForm(lead + [','] + x + Tail(frac, '.')) == DecimalText(false, lead + x, frac)
  {
    OneGroup(lead, x, frac, ',', '.');
    UsForm(lead, [x], frac);
  }

  /** "1.234,56" is 1234.56. */
  lemma EuropeanExample()
    ensures CellAmount("1.234,56") == Some(1234.56)
  {
    AllAmountChars("1.234,56");
    EuropeanFormExample();
    Value1234();
  }

  lemma EuropeanFormExample()
    ensures DecimalForm("1.234,56") == DecimalText(false, "1234", "56")
  {
    EuropeanOneGroup("1", "234", "56");
    assert "1" + ['.'] + "234" + Tail("56", ',') == "1.234,56";
    assert "1" + "234" == "1234";
  }

  /** A European amount with a single group of three digits. */
  lemma EuropeanOneGroup(lead: string, x: string, frac: string)
    requires 1 <= |lead| <= 3 && AllDigits(lead) && |x| == 3 && AllDigits(x) && AllDigits(frac)
    ensures DecimalForm(lead + ['.'] + x + Tail(frac, ',')) == DecimalText(false, lead + x, frac)
  {
    OneGroup(lead, x, frac, '.', ',');
    EuropeanForm(lead, [x], frac);
  }

  /** "1234,56" is 1234.56. */
  lemma CommaExample()
    ensures CellAmount("1234,56") == Some(1234.56)
  {
    AllAmountChars("1234,56");
    CommaFormExample();
    Value1234();
  }

  lemma CommaFormExample()
    ensures DecimalForm("1234,56") == DecimalText(false, "1234", "56")
  {
    assert "1234,56" == "1234" + "," + "56";
    CommaForm("1234", "56");
  }

  /** Cleaning keeps a text made of amount characters whole. */
  lemma AllAmountChars(s: string)
    requires forall i :: 0 <= i < |s| ==> s[i] in AmountChars
    ensures CleanAmount(s) == s
  {
    KeepAfterJunk([], s, AmountChars);
    assert [] + s == s;
  }

  lemma Value8737(frac: string)
    requires frac == "" || frac == "50"
    ensures ParseFloat(DecimalText(false, "8737", frac)) == Some(if frac == "" then 8737.0 else 8737.5)
  {
    Parse8737(frac);
    Digits8737(frac);
  }

  lemma Digits8737(frac: string)
    requires frac == "" || frac == "50"
    ensures DecimalValue("8737", frac) == if frac == "" then 8737.0 else 8737.5
  {
    assert Pow10(0) == 1 && Pow10(2) == 100;
    assert DigitsValue("8737") == 8737 by {
      assert "8737"[..3] == "873";
      assert "873"[..2] == "87";
      assert "87"[..1] == "8";
    }
    assert DigitsValue("50") == 50 by {
      assert "50"[..1] == "5";
    }
  }

  lemma Value1234()
    ensures ParseFloat(DecimalText(false, "1234", "56")) == Some(1234.56)
  {
    Parse1234();
    Digits1234();
  }

  lemma Parse1234()
    ensures ParseFloat(DecimalText(false, "1234", "56")) == Some(DecimalValue("1234", "56"))
  {
    ParseDecimalText(false, "1234", "56");
  }

  lemma Parse8737(frac: string)
    requires frac == "" || frac == "50"
    ensures ParseFloat(DecimalText(false, "8737", frac)) == Some(DecimalValue("8737", frac))
  {
    ParseDecimalText(false, "8737", frac);
  }

  lemma Digits1234()
    ensures DecimalValue("1234", "56") == 1234.56
  {
    assert Pow10(2) == 100;
    assert DigitsValue("1234") == 1234 by {
      assert "1234"[..3] == "123";
      assert "123"[..2] == "12";
      assert "12"[..1] == "1";
    }
    assert DigitsValue("56") == 56 by {
      assert "56"[..1] == "5";
    }
  }
}
