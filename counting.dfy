/**
  The three token-counting aggregators of the analysis service:
  `countColumnOccurrences` (how often each normalised value occurs in a
  column), `countUniqueColumnValues` (how many distinct normalised values
  it holds) and `countUnifiedPeople` (both at once, with `(...)` groups
  removed from each value first).

  Each one walks the rows, takes `String(row[column]).trim()` of the rows
  that own the column, skips a blank cell, splits the cell into values and
  counts every value whose normalised form is not empty. The methods are
  those loops; `ColumnTokens` is the sequence of normalised values they
  count, and the methods are proved to compute a function of it.
 */
module Counting {
  import opened Wrappers
  import opened JsText
  import opened Records
  import opened Normalize
  import opened Splitter

  /** `String(row[column]).trim()` when the row owns the column. */
  function CellOf(row: Row, column: string): Option<string> {
    if column in row.cells then Some(Trim(CellText(row.cells[column]))) else None
  }

  /** The values one row offers: none when the column is missing or its cell
      is blank, otherwise the pieces of the trimmed cell. */
  function RowPieces(row: Row, column: string, pattern: Option<set<char>>): seq<string> {
    match CellOf(row, column)
    case None => []
    case Some(cell) => if cell == [] then [] else Pieces(cell, pattern)
  }

  /** The name a value is counted under: `normalizeName(value)` for the
      occurrence and unique counts; for people (`dropGroups`) the value's
      `(...)` groups are removed and the rest trimmed first. */
  function Token(piece: string, toLowercase: bool, dropGroups: bool): string {
    if dropGroups then NormalizeName(Trim(StripParenGroups(piece)), toLowercase)
    else NormalizeName(piece, toLowercase)
  }

  /** The names a value contributes: its name, unless that is empty. */
  function Emit(t: string): seq<string> {
    if t == [] then [] else [t]
  }

  /** The non-empty names of a list of values, in order. */
  function Tokens(pieces: seq<string>, toLowercase: bool, dropGroups: bool): seq<string> {
    if pieces == [] then []
    else
      Tokens(pieces[..|pieces| - 1], toLowercase, dropGroups)
        + Emit(Token(pieces[|pieces| - 1], toLowercase, dropGroups))
  }

  /** A row offers at most one value without a split pattern, and every
      value it offers is non-empty and trimmed. */
  lemma RowPiecesShape(row: Row, column: string, pattern: Option<set<char>>)
    ensures pattern.None? ==> |RowPieces(row, column, pattern)| <= 1
    ensures forall i :: 0 <= i < |RowPieces(row, column, pattern)| ==>
      RowPieces(row, column, pattern)[i] != [] && Trimmed(RowPieces(row, column, pattern)[i])
  {
    match CellOf(row, column)
    case None =>
    case Some(cell) =>
      if cell != [] {
        PiecesShape(cell, pattern);
      }
  }

  /** The names one row contributes. */
  function RowTokens(row: Row, column: string, pattern: Option<set<char>>,
                     toLowercase: bool, dropGroups: bool): seq<string>
  {
    Tokens(RowPieces(row, column, pattern), toLowercase, dropGroups)
  }

  /** Every name counted from `data`, row after row. */
  function ColumnTokens(data: Dataset, column: string, pattern: Option<set<char>>,
                        toLowercase: bool, dropGroups: bool): seq<string>
  {
    if data == [] then []
    else
      ColumnTokens(data[..|data| - 1], column, pattern, toLowercase, dropGroups)
        + RowTokens(data[|data| - 1], column, pattern, toLowercase, dropGroups)
  }

  /** One more occurrence of `t`: `counts[t] = (counts[t] || 0) + 1`. */
  function Bump(counts: map<string, nat>, t: string): map<string, nat> {
    counts[t := (if t in counts then counts[t] else 0) + 1]
  }

  /** Each distinct name with the number of times it occurs, tallied name
      after name. */
  function Histogram(tokens: seq<string>): map<string, nat> {
    if tokens == [] then map[]
    else Bump(Histogram(tokens[..|tokens| - 1]), tokens[|tokens| - 1])
  }

  /** The distinct names, collected name after name. */
  function Distinct(tokens: seq<string>): set<string> {
    if tokens == [] then {}
    else Distinct(tokens[..|tokens| - 1]) + {tokens[|tokens| - 1]}
  }

  /** The sum of the counts of a histogram. */
  ghost function Total(m: map<string, nat>): nat
    decreases |m|
  {
    if m == map[] then 0
    else
      var k :| k in m;
      m[k] + Total(m - {k})
  }

  // ---------------------------------------------------------------------
  // The aggregators
  // ---------------------------------------------------------------------

  /** The `valuesToProcess` block every aggregator inlines: for a row that
      owns the column and whose trimmed cell is not blank, the pieces of the
      cell; for any other row, nothing (the loops `continue`). */
  method RowValues(row: Row, column: string, pattern: Option<set<char>>) returns (values: seq<string>)
    ensures values == RowPieces(row, column, pattern)
  {
    values := [];
    if column in row.cells {
      var cellValue := Trim(CellText(row.cells[column]));
      if cellValue != [] {
        values := Pieces(cellValue, pattern);
      }
    }
  }

  /** The inner loop of `countColumnOccurrences`: tally the non-empty
      normalised values of one row. */
  method TallyOccurrences(values: seq<string>, toLowercase: bool, counts: map<string, nat>,
                          ghost before: seq<string>)
    returns (occurrences: map<string, nat>)
    requires counts == Histogram(before)
    ensures occurrences == Histogram(before + Tokens(values, toLowercase, false))
  {
    occurrences := counts;
    assert values[..0] == [];
    ConcatEmpty(before);
    var j := 0;
    while j < |values|
      invariant 0 <= j <= |values|
      invariant occurrences == Histogram(before + Tokens(values[..j], toLowercase, false))
    {
      var normalizedValue := NormalizeName(values[j], toLowercase);
      ghost var prior := before + Tokens(values[..j], toLowercase, false);
      assert normalizedValue == Token(values[j], toLowercase, false);
      NamesStep(before, values, j, toLowercase, false);
      HistogramEmit(prior, normalizedValue);
      if normalizedValue != [] {
        occurrences := Bump(occurrences, normalizedValue);
      }
      assert occurrences == Histogram(prior + Emit(normalizedValue));
      j := j + 1;
    }
    assert values[..j] == values;
  }

  /** `countColumnOccurrences`: the histogram of the counted names. */
  method CountColumnOccurrences(data: Dataset, column: string, rawDelimiter: Option<string>,
                                toLowercase: bool)
    returns (occurrences: map<string, nat>)
    ensures occurrences == Histogram(ColumnTokens(data, column, SplitPattern(rawDelimiter), toLowercase, false))
  {
    if |data| == 0 {
      return map[];
    }
    occurrences := map[];
    var pattern := SplitPattern(rawDelimiter);
    ghost var seen: seq<string> := [];
    var i := 0;
    while i < |data|
      invariant 0 <= i <= |data|
      invariant seen == ColumnTokens(data[..i], column, pattern, toLowercase, false)
      invariant occurrences == Histogram(seen)
    {
      var values := RowValues(data[i], column, pattern);
      ColumnTokensStep(data, i, column, pattern, toLowercase, false);
      occurrences := TallyOccurrences(values, toLowercase, occurrences, seen);
      seen := seen + Tokens(values, toLowercase, false);
      i := i + 1;
    }
    assert data[..i] == data;
  }

  /** The inner loop of `countUniqueColumnValues`: collect the non-empty
      normalised values of one row. */
  method CollectUnique(values: seq<string>, toLowercase: bool, collected: set<string>,
                       ghost before: seq<string>)
    returns (uniqueValues: set<string>)
    requires collected == Distinct(before)
    ensures uniqueValues == Distinct(before + Tokens(values, toLowercase, false))
  {
    uniqueValues := collected;
    assert values[..0] == [];
    ConcatEmpty(before);
    var j := 0;
    while j < |values|
      invariant 0 <= j <= |values|
      invariant uniqueValues == Distinct(before + Tokens(values[..j], toLowercase, false))
    {
      var normalizedValue := NormalizeName(values[j], toLowercase);
      NamesStep(before, values, j, toLowercase, false);
      DistinctEmit(before + Tokens(values[..j], toLowercase, false), normalizedValue);
      if normalizedValue != [] {
        uniqueValues := uniqueValues + {normalizedValue};
      }
      j := j + 1;
    }
    assert values[..j] == values;
  }

  /** `countUniqueColumnValues`: the number of distinct counted names. */
  method CountUniqueColumnValues(data: Dataset, column: string, rawDelimiter: Option<string>,
                                 toLowercase: bool)
    returns (count: nat)
    ensures count == |Distinct(ColumnTokens(data, column, SplitPattern(rawDelimiter), toLowercase, false))|
  {
    if |data| == 0 {
      return 0;
    }
    var pattern := SplitPattern(rawDelimiter);
    var uniqueValues: set<string> := {};
    var i := 0;
    while i < |data|
      invariant 0 <= i <= |data|
      invariant uniqueValues == Distinct(ColumnTokens(data[..i], column, pattern, toLowercase, false))
    {
      var values := RowValues(data[i], column, pattern);
      ColumnTokensStep(data, i, column, pattern, toLowercase, false);
      uniqueValues := CollectUnique(values, toLowercase, uniqueValues,
                                    ColumnTokens(data[..i], column, pattern, toLowercase, false));
      i := i + 1;
    }
    assert data[..i] == data;
    count := |uniqueValues|;
  }

  /** The result of `countUnifiedPeople`. */
  datatype PeopleCounts = PeopleCounts(people: map<string, nat>, totalUniquePeople: nat)

  /** The inner loop of `countUnifiedPeople`: tally and collect the names of
      one row's values, once their `(...)` groups are removed. */
  method TallyPeople(values: seq<string>, toLowercase: bool, counts: map<string, nat>,
                     collected: set<string>, ghost before: seq<string>)
    returns (peopleCounts: map<string, nat>, uniquePeopleSet: set<string>)
    requires counts == Histogram(before) && collected == Distinct(before)
    ensures peopleCounts == Histogram(before + Tokens(values, toLowercase, true))
    ensures uniquePeopleSet == Distinct(before + Tokens(values, toLowercase, true))
  {
    peopleCounts, uniquePeopleSet := counts, collected;
    assert values[..0] == [];
    ConcatEmpty(before);
    var j := 0;
    while j < |values|
      invariant 0 <= j <= |values|
      invariant peopleCounts == Histogram(before + Tokens(values[..j], toLowercase, true))
      invariant uniquePeopleSet == Distinct(before + Tokens(values[..j], toLowercase, true))
    {
      var cleanedValue := Trim(StripParenGroups(values[j]));
      var normalizedPerson := NormalizeName(cleanedValue, toLowercase);
      NamesStep(before, values, j, toLowercase, true);
      HistogramEmit(before + Tokens(values[..j], toLowercase, true), normalizedPerson);
      DistinctEmit(before + Tokens(values[..j], toLowercase, true), normalizedPerson);
      if normalizedPerson != [] {
        peopleCounts := Bump(peopleCounts, normalizedPerson);
        uniquePeopleSet := uniquePeopleSet + {normalizedPerson};
      }
      j := j + 1;
    }
    assert values[..j] == values;
  }

  /** `countUnifiedPeople`: the histogram of the names with their `(...)`
      groups removed, and the number of distinct names, kept in a set of its
      own beside the histogram. */
  method CountUnifiedPeople(data: Dataset, column: string, rawDelimiter: Option<string>,
                            toLowercase: bool)
    returns (r: PeopleCounts)
    ensures r.people == Histogram(ColumnTokens(data, column, SplitPattern(rawDelimiter), toLowercase, true))
    ensures r.totalUniquePeople == |r.people.Keys|
  {
    if |data| == 0 {
      return PeopleCounts(map[], 0);
    }
    var pattern := SplitPattern(rawDelimiter);
    var peopleCounts: map<string, nat> := map[];
    var uniquePeopleSet: set<string> := {};
    ghost var seen: seq<string> := [];
    var i := 0;
    while i < |data|
      invariant 0 <= i <= |data|
      invariant seen == ColumnTokens(data[..i], column, pattern, toLowercase, true)
      invariant peopleCounts == Histogram(seen)
      invariant uniquePeopleSet == Distinct(seen)
    {
      var values := RowValues(data[i], column, pattern);
      ColumnTokensStep(data, i, column, pattern, toLowercase, true);
      peopleCounts, uniquePeopleSet := TallyPeople(values, toLowercase, peopleCounts, uniquePeopleSet, seen);
      seen := seen + Tokens(values, toLowercase, true);
      i := i + 1;
    }
    assert data[..i] == data;
    HistogramKeys(seen);
    r := PeopleCounts(peopleCounts, |uniquePeopleSet|);
  }

  // Two sequence facts, stated once so that the loop proofs above can name the
  // exact terms to rewrite. They are proof steps, not properties of the counters.
  lemma ConcatAssoc<T>(x: seq<T>, y: seq<T>, z: seq<T>)
    ensures (x + y) + z == x + (y + z)
  {
  }

  lemma ConcatEmpty<T>(x: seq<T>)
    ensures x + [] == x
  {
  }

  /** One more value: its name, if not empty, follows the names before. */
  lemma TokensStep(values: seq<string>, j: nat, toLowercase: bool, dropGroups: bool)
    requires j < |values|
    ensures Tokens(values[..j + 1], toLowercase, dropGroups)
         == Tokens(values[..j], toLowercase, dropGroups) + Emit(Token(values[j], toLowercase, dropGroups))
  {
    assert values[..j + 1][..j] == values[..j];
  }

  /** One more value, after the names of earlier rows. */
  lemma NamesStep(before: seq<string>, values: seq<string>, j: nat, toLowercase: bool, dropGroups: bool)
    requires j < |values|
    ensures before + Tokens(values[..j + 1], toLowercase, dropGroups)
         == (before + Tokens(values[..j], toLowercase, dropGroups)) + Emit(Token(values[j], toLowercase, dropGroups))
  {
    TokensStep(values, j, toLowercase, dropGroups);
    ConcatAssoc(before, Tokens(values[..j], toLowercase, dropGroups), Emit(Token(values[j], toLowercase, dropGroups)));
  }

  /** One more row: its names follow the names of the rows before. */
  lemma ColumnTokensStep(data: Dataset, i: nat, column: string, pattern: Option<set<char>>,
                         toLowercase: bool, dropGroups: bool)
    requires i < |data|
    ensures ColumnTokens(data[..i + 1], column, pattern, toLowercase, dropGroups)
         == ColumnTokens(data[..i], column, pattern, toLowercase, dropGroups)
          + RowTokens(data[i], column, pattern, toLowercase, dropGroups)
  {
    assert data[..i + 1][..i] == data[..i];
  }

  /** Adding a row at the end adds its names at the end. */
  lemma ColumnTokensSnoc(data: Dataset, row: Row, column: string, pattern: Option<set<char>>,
                         toLowercase: bool, dropGroups: bool)
    ensures ColumnTokens(data + [row], column, pattern, toLowercase, dropGroups)
         == ColumnTokens(data, column, pattern, toLowercase, dropGroups)
          + RowTokens(row, column, pattern, toLowercase, dropGroups)
  {
    assert (data + [row])[..|data|] == data;
  }

  // ---------------------------------------------------------------------
  // The steps the loops take
  // ---------------------------------------------------------------------

  /** Counting one more name raises its count by one and leaves the others. */
  lemma HistogramAdd(tokens: seq<string>, t: string)
    ensures Histogram(tokens + [t]) == Bump(Histogram(tokens), t)
  {
    assert (tokens + [t])[..|tokens|] == tokens;
  }

  lemma DistinctAdd(tokens: seq<string>, t: string)
    ensures Distinct(tokens + [t]) == Distinct(tokens) + {t}
  {
    assert (tokens + [t])[..|tokens|] == tokens;
  }

  /** A value whose name is empty leaves the tally alone. */
  lemma HistogramEmit(tokens: seq<string>, t: string)
    ensures Histogram(tokens + Emit(t)) == if t == [] then Histogram(tokens) else Bump(Histogram(tokens), t)
  {
    if t == [] {
      ConcatEmpty(tokens);
    } else {
      HistogramAdd(tokens, t);
    }
  }

  lemma DistinctEmit(tokens: seq<string>, t: string)
    ensures Distinct(tokens + Emit(t)) == if t == [] then Distinct(tokens) else Distinct(tokens) + {t}
  {
    if t == [] {
      ConcatEmpty(tokens);
    } else {
      DistinctAdd(tokens, t);
    }
  }

  /** The tally is the multiplicity of each name: a name is a key exactly
      when it occurs, and its count is the number of its occurrences. */
  lemma {:induction false} HistogramCounts(tokens: seq<string>)
    ensures forall t :: t in Histogram(tokens) <==> t in tokens
    ensures forall t :: t in Histogram(tokens) ==> Histogram(tokens)[t] == multiset(tokens)[t]
  {
    if tokens != [] {
      var init := tokens[..|tokens| - 1];
      var last := tokens[|tokens| - 1];
      assert init + [last] == tokens;
      HistogramCounts(init);
      assert multiset(tokens) == multiset(init) + multiset{last};
      forall t ensures t in tokens <==> t in init || t == last {
        assert t in init + [last] <==> t in init || t == last;
      }
    }
  }

  /** The distinct names are the names that occur. */
  lemma {:induction false} DistinctMembers(tokens: seq<string>)
    ensures forall t :: t in Distinct(tokens) <==> t in tokens
  {
    if tokens != [] {
      var init := tokens[..|tokens| - 1];
      var last := tokens[|tokens| - 1];
      assert init + [last] == tokens;
      DistinctMembers(init);
      forall t ensures t in tokens <==> t in init || t == last {
        assert t in init + [last] <==> t in init || t == last;
      }
    }
  }

  /** The names a histogram counts are the distinct names, each counted at
      least once. */
  lemma HistogramKeys(tokens: seq<string>)
    ensures Histogram(tokens).Keys == Distinct(tokens)
    ensures forall t :: t in Histogram(tokens) ==> Histogram(tokens)[t] >= 1
  {
    HistogramCounts(tokens);
    DistinctMembers(tokens);
  }

  // ---------------------------------------------------------------------
  // What the counts mean
  // ---------------------------------------------------------------------

  /** Removing one name from a histogram takes its count off the total. */
  lemma {:induction false} TotalRemove(m: map<string, nat>, k: string)
    requires k in m
    ensures Total(m) == m[k] + Total(m - {k})
    decreases |m|
  {
    var j :| j in m && Total(m) == m[j] + Total(m - {j});
    if j != k {
      var m' := m - {j};
      TotalRemove(m', k);
      TotalRemove(m - {k}, j);
      assert m' - {k} == (m - {k}) - {j};
    }
  }

  /** Setting a name's count changes the total by the difference. */
  lemma TotalUpdate(m: map<string, nat>, k: string, v: nat)
    ensures Total(m[k := v]) == Total(m) - (if k in m then m[k] else 0) + v
  {
    TotalRemove(m[k := v], k);
    assert m[k := v] - {k} == m - {k};
    if k in m {
      TotalRemove(m, k);
    } else {
      assert m - {k} == m;
    }
  }

  /** The counts add up to the number of names counted. */
  lemma {:induction false} HistogramTotal(tokens: seq<string>)
    ensures Total(Histogram(tokens)) == |tokens|
  {
    if tokens == [] {
      assert Histogram(tokens) == map[];
    } else {
      var init := tokens[..|tokens| - 1];
      var last := tokens[|tokens| - 1];
      assert init + [last] == tokens;
      HistogramTotal(init);
      HistogramAdd(init, last);
      TotalUpdate(Histogram(init), last,
        (if last in Histogram(init) then Histogram(init)[last] else 0) + 1);
    }
  }

  /** A counted name: non-empty and normalised (trimmed, single-spaced,
      without combining marks, lower-case when asked). */
  predicate IsName(t: string, toLowercase: bool) {
    t != [] && Canonical(t) && (toLowercase ==> LowerCased(t))
  }

  predicate AllNames(tokens: seq<string>, toLowercase: bool) {
    forall k :: 0 <= k < |tokens| ==> IsName(tokens[k], toLowercase)
  }

  lemma AllNamesAppend(a: seq<string>, b: seq<string>, toLowercase: bool)
    requires AllNames(a, toLowercase) && AllNames(b, toLowercase)
    ensures AllNames(a + b, toLowercase)
  {
    forall k | 0 <= k < |a + b| ensures IsName((a + b)[k], toLowercase) {
      if k < |a| {
        assert (a + b)[k] == a[k];
      } else {
        assert (a + b)[k] == b[k - |a|];
      }
    }
  }

  /** Every counted name is a normalised, non-empty name. */
  lemma {:induction false} TokensNormalised(pieces: seq<string>, toLowercase: bool, dropGroups: bool)
    ensures AllNames(Tokens(pieces, toLowercase, dropGroups), toLowercase)
  {
    if pieces != [] {
      var init := pieces[..|pieces| - 1];
      TokensNormalised(init, toLowercase, dropGroups);
      EmitNormalised(pieces[|pieces| - 1], toLowercase, dropGroups);
      AllNamesAppend(Tokens(init, toLowercase, dropGroups),
                     Emit(Token(pieces[|pieces| - 1], toLowercase, dropGroups)), toLowercase);
    }
  }

  /** The name one value contributes, if any, is a counted name. */
  lemma EmitNormalised(piece: string, toLowercase: bool, dropGroups: bool)
    ensures AllNames(Emit(Token(piece, toLowercase, dropGroups)), toLowercase)
  {
    var t := Token(piece, toLowercase, dropGroups);
    TokenNormalised(piece, toLowercase, dropGroups);
    if t != [] {
      assert Emit(t) == [t];
      assert IsName(t, toLowercase);
    }
  }

  lemma TokenNormalised(piece: string, toLowercase: bool, dropGroups: bool)
    ensures Canonical(Token(piece, toLowercase, dropGroups))
    ensures toLowercase ==> LowerCased(Token(piece, toLowercase, dropGroups))
  {
    if dropGroups {
      NormalizeNameShape(Trim(StripParenGroups(piece)), toLowercase);
    } else {
      NormalizeNameShape(piece, toLowercase);
    }
  }

  lemma {:induction false} ColumnTokensNormalised(data: Dataset, column: string, pattern: Option<set<char>>,
                                                  toLowercase: bool, dropGroups: bool)
    ensures AllNames(ColumnTokens(data, column, pattern, toLowercase, dropGroups), toLowercase)
  {
    if data != [] {
      ColumnTokensNormalised(data[..|data| - 1], column, pattern, toLowercase, dropGroups);
      TokensNormalised(RowPieces(data[|data| - 1], column, pattern), toLowercase, dropGroups);
      AllNamesAppend(ColumnTokens(data[..|data| - 1], column, pattern, toLowercase, dropGroups),
                     RowTokens(data[|data| - 1], column, pattern, toLowercase, dropGroups), toLowercase);
    }
  }

  /** The keys `countColumnOccurrences` returns are non-empty normalised
      names, each normalising to itself, and their counts add up to the
      number of non-empty normalised values met. */
  lemma OccurrenceKeys(data: Dataset, column: string, pattern: Option<set<char>>, toLowercase: bool)
    ensures var h := Histogram(ColumnTokens(data, column, pattern, toLowercase, false));
      && (forall k :: k in h ==> IsName(k, toLowercase) && NormalizeName(k, toLowercase) == k)
      && Total(h) == |ColumnTokens(data, column, pattern, toLowercase, false)|
  {
    var toks := ColumnTokens(data, column, pattern, toLowercase, false);
    ColumnTokensNormalised(data, column, pattern, toLowercase, false);
    HistogramCounts(toks);
    forall k | k in Histogram(toks) ensures IsName(k, toLowercase) && NormalizeName(k, toLowercase) == k {
      var idx :| 0 <= idx < |toks| && toks[idx] == k;
      NormalizeFixedPoint(k, toLowercase);
    }
    HistogramTotal(toks);
  }

  /** `countUniqueColumnValues` is the number of keys `countColumnOccurrences`
      returns for the same arguments, and `total_unique_people` the number of
      keys of `people`. */
  lemma UniqueIsKeyCount(data: Dataset, column: string, pattern: Option<set<char>>,
                         toLowercase: bool, dropGroups: bool)
    ensures |Distinct(ColumnTokens(data, column, pattern, toLowercase, dropGroups))|
         == |Histogram(ColumnTokens(data, column, pattern, toLowercase, dropGroups)).Keys|
  {
    HistogramKeys(ColumnTokens(data, column, pattern, toLowercase, dropGroups));
  }

  /** Rows are counted independently: the names of two row lists together
      are the names of the first followed by those of the second. */
  lemma {:induction false} ColumnTokensAppend(a: Dataset, b: Dataset, column: string,
                                              pattern: Option<set<char>>, toLowercase: bool, dropGroups: bool)
    ensures ColumnTokens(a + b, column, pattern, toLowercase, dropGroups)
         == ColumnTokens(a, column, pattern, toLowercase, dropGroups)
          + ColumnTokens(b, column, pattern, toLowercase, dropGroups)
    decreases |b|
  {
    if b == [] {
      assert a + b == a;
    } else {
      var b' := b[..|b| - 1];
      var last := b[|b| - 1];
      assert b' + [last] == b;
      assert a + b == (a + b') + [last];
      ColumnTokensAppend(a, b', column, pattern, toLowercase, dropGroups);
      ColumnTokensSnoc(a + b', last, column, pattern, toLowercase, dropGroups);
      ColumnTokensSnoc(b', last, column, pattern, toLowercase, dropGroups);
      ConcatAssoc(ColumnTokens(a, column, pattern, toLowercase, dropGroups),
                  ColumnTokens(b', column, pattern, toLowercase, dropGroups),
                  RowTokens(last, column, pattern, toLowercase, dropGroups));
    }
  }

  /** A row that lacks the column, or whose trimmed cell is empty, adds
      nothing to any of the counts, wherever it stands. */
  lemma SkippedRow(a: Dataset, row: Row, b: Dataset, column: string,
                   pattern: Option<set<char>>, toLowercase: bool, dropGroups: bool)
    requires column !in row.cells || Trim(CellText(row.cells[column])) == []
    ensures ColumnTokens(a + [row] + b, column, pattern, toLowercase, dropGroups)
         == ColumnTokens(a + b, column, pattern, toLowercase, dropGroups)
  {
    ColumnTokensAppend(a + [row], b, column, pattern, toLowercase, dropGroups);
    ColumnTokensSnoc(a, row, column, pattern, toLowercase, dropGroups);
    assert RowPieces(row, column, pattern) == [];
    ConcatEmpty(ColumnTokens(a, column, pattern, toLowercase, dropGroups));
    ColumnTokensAppend(a, b, column, pattern, toLowercase, dropGroups);
  }

  /** Without a split pattern, a cell whose text is already a lower-case
      normalised name with no `(` is counted under that text. */
  lemma CanonicalCellCounted(row: Row, column: string, toLowercase: bool, dropGroups: bool)
    requires column in row.cells
    requires var t := CellText(row.cells[column]);
      t != [] && Canonical(t) && LowerCased(t) && '(' !in t
    ensures RowTokens(row, column, None, toLowercase, dropGroups) == [CellText(row.cells[column])]
  {
    var t := CellText(row.cells[column]);
    TrimShape(t);
    assert CellOf(row, column) == Some(t);
    assert RowPieces(row, column, None) == [t];
    NormalizeFixedPoint(t, toLowercase);
    assert StripParenGroups(t) == t;
    assert Token(t, toLowercase, dropGroups) == t;
    assert Tokens([t], toLowercase, dropGroups) == Tokens([], toLowercase, dropGroups) + Emit(t) by {
      assert [t][..0] == [];
    }
  }

  /** A `null` cell is not skipped: `String(null)` is the four letters
      "null", which are counted as a value of their own. */
  lemma NullCellCounted(row: Row, column: string, toLowercase: bool, dropGroups: bool)
    requires column in row.cells && row.cells[column] == Null
    ensures RowTokens(row, column, None, toLowercase, dropGroups) == ["null"]
  {
    NullNormalised();
    CanonicalCellCounted(row, column, toLowercase, dropGroups);
  }

  lemma NullNormalised()
    ensures Canonical("null") && LowerCased("null")
  {
    var t := "null";
    forall i | 0 <= i < |t|
      ensures Stable(t[i]) && ToLowerChar(t[i]) == t[i]
    {
      AsciiStable(t[i]);
    }
  }

  lemma {:induction false} DistinctBound(tokens: seq<string>)
    ensures |Distinct(tokens)| <= |tokens|
  {
    if tokens != [] {
      var init := tokens[..|tokens| - 1];
      assert init + [tokens[|tokens| - 1]] == tokens;
      DistinctBound(init);
      DistinctAdd(init, tokens[|tokens| - 1]);
    }
  }

  lemma {:induction false} TokensBound(pieces: seq<string>, toLowercase: bool, dropGroups: bool)
    ensures |Tokens(pieces, toLowercase, dropGroups)| <= |pieces|
  {
    if pieces != [] {
      TokensBound(pieces[..|pieces| - 1], toLowercase, dropGroups);
    }
  }

  /** Without a split pattern each row offers at most one name, so there are
      at most as many distinct names as rows. */
  lemma {:induction false} UniqueBoundWithoutSplit(data: Dataset, column: string, toLowercase: bool, dropGroups: bool)
    ensures |ColumnTokens(data, column, None, toLowercase, dropGroups)| <= |data|
    ensures |Distinct(ColumnTokens(data, column, None, toLowercase, dropGroups))| <= |data|
  {
    if data != [] {
      UniqueBoundWithoutSplit(data[..|data| - 1], column, toLowercase, dropGroups);
      TokensBound(RowPieces(data[|data| - 1], column, None), toLowercase, dropGroups);
    }
    DistinctBound(ColumnTokens(data, column, None, toLowercase, dropGroups));
  }

  /** Trimming before normalising changes nothing: `normalizeName` trims. */
  lemma NormalizeTrimmed(s: string, toLowercase: bool)
    ensures NormalizeName(Trim(s), toLowercase) == NormalizeName(s, toLowercase)
  {
    TrimIdempotent(s);
  }

  lemma TokenWithoutGroups(piece: string, toLowercase: bool)
    requires '(' !in piece
    ensures Token(piece, toLowercase, true) == Token(piece, toLowercase, false)
  {
    NormalizeTrimmed(piece, toLowercase);
  }

  lemma {:induction false} TokensWithoutGroups(pieces: seq<string>, toLowercase: bool)
    requires forall i :: 0 <= i < |pieces| ==> '(' !in pieces[i]
    ensures Tokens(pieces, toLowercase, true) == Tokens(pieces, toLowercase, false)
  {
    if pieces != [] {
      TokenWithoutGroups(pieces[|pieces| - 1], toLowercase);
      TokensWithoutGroups(pieces[..|pieces| - 1], toLowercase);
    }
  }

  /** A row none of whose values holds a `(` gives the same names to both
      kinds of count. */
  lemma RowWithoutGroups(row: Row, column: string, pattern: Option<set<char>>, toLowercase: bool)
    requires column in row.cells ==> '(' !in CellText(row.cells[column])
    ensures RowTokens(row, column, pattern, toLowercase, true)
         == RowTokens(row, column, pattern, toLowercase, false)
  {
    var ps := RowPieces(row, column, pattern);
    if column in row.cells {
      var text := CellText(row.cells[column]);
      TrimChars(text);
      PiecesAvoid(Trim(text), pattern, '(');
    }
    TokensWithoutGroups(ps, toLowercase);
  }

  /** A character missing from a cell is missing from each of its pieces. */
  lemma PiecesAvoid(cell: string, pattern: Option<set<char>>, c: char)
    requires c !in cell
    ensures forall i :: 0 <= i < |Pieces(cell, pattern)| ==> c !in Pieces(cell, pattern)[i]
  {
    var ps := Pieces(cell, pattern);
    if pattern.None? {
      assert ps == [cell];
    } else {
      forall i | 0 <= i < |ps| ensures c !in ps[i] {
        assert forall x :: x in ps[i] ==> x in cell;
      }
    }
  }

  /** When no cell of the column holds a `(`, the people counted by
      `countUnifiedPeople` are exactly the occurrences counted by
      `countColumnOccurrences`. */
  lemma {:induction false} PeopleMatchOccurrences(data: Dataset, column: string,
                                                  pattern: Option<set<char>>, toLowercase: bool)
    requires forall i :: 0 <= i < |data| && column in data[i].cells ==> '(' !in CellText(data[i].cells[column])
    ensures ColumnTokens(data, column, pattern, toLowercase, true)
         == ColumnTokens(data, column, pattern, toLowercase, false)
  {
    if data != [] {
      var init := data[..|data| - 1];
      assert forall i :: 0 <= i < |init| ==> init[i] == data[i];
      PeopleMatchOccurrences(init, column, pattern, toLowercase);
      RowWithoutGroups(data[|data| - 1], column, pattern, toLowercase);
    }
  }
}
