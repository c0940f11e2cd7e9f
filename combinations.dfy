/**
  `countDistinctCombinations` of the analysis service: how many distinct
  tuples of normalised values a set of columns takes across the rows.

  A row takes part only when it owns every one of the columns and none of
  its trimmed cells there is blank; each cell then contributes its value
  with `(...)` groups removed, trimmed and normalised, and the parts are
  joined with ":::" into the row's key. The answer is the number of
  distinct keys, and 0 when there are no rows or no columns.
 */
module Combinations {
  import opened Wrappers
  import opened JsText
  import opened Records
  import opened Normalize
  import opened Counting

  /** The separator the parts of a key are joined with. */
  const Separator: string := ":::"

  /** The part one column contributes to a row's key, or `None` when the
      row does not own the column or its trimmed cell is blank (the row is
      then not valid). */
  function Part(row: Row, column: string, toLowercase: bool): Option<string> {
    match CellOf(row, column)
    case None => None
    case Some(cell) => if cell == [] then None else Some(Token(cell, toLowercase, true))
  }

  /** The part each column offers, in column order. */
  function PartList(row: Row, columns: seq<string>, toLowercase: bool): (r: seq<Option<string>>)
    ensures |r| == |columns|
  {
    seq(|columns|, i requires 0 <= i < |columns| => Part(row, columns[i], toLowercase))
  }

  /** All the values of a list of options, or `None` as soon as one of them
      is missing. */
  function Gather<T>(os: seq<Option<T>>): Option<seq<T>> {
    if os == [] then Some([])
    else
      match Gather(os[..|os| - 1])
      case None => None
      case Some(vs) =>
        match os[|os| - 1]
        case None => None
        case Some(v) => Some(vs + [v])
  }

  /** The parts of a row for the columns in order, or `None` when one
      column gives none. */
  function Parts(row: Row, columns: seq<string>, toLowercase: bool): Option<seq<string>> {
    Gather(PartList(row, columns, toLowercase))
  }

  /** The key of a valid row: `combinationParts.join(":::")`. */
  function RowKey(row: Row, columns: seq<string>, toLowercase: bool): Option<string> {
    match Parts(row, columns, toLowercase)
    case None => None
    case Some(ps) => Some(Join(ps, Separator))
  }

  /** The key function of a set of columns. */
  function KeyOf(columns: seq<string>, toLowercase: bool): Row -> Option<string> {
    row => RowKey(row, columns, toLowercase)
  }

  /** The keys of the valid rows of `data`. */
  function Combinations(data: Dataset, columns: seq<string>, toLowercase: bool): set<string> {
    CollectKeys(data, KeyOf(columns, toLowercase))
  }

  /** The keys some rows have, gathered row after row into a set. */
  function CollectKeys<K>(data: Dataset, key: Row -> Option<K>): set<K> {
    if data == [] then {}
    else CollectKeys(data[..|data| - 1], key) + OptionSet(key(data[|data| - 1]))
  }

  function OptionSet<K>(o: Option<K>): set<K> {
    match o
    case None => {}
    case Some(x) => {x}
  }

  // ---------------------------------------------------------------------
  // The aggregator
  // ---------------------------------------------------------------------

  /** The inner loop: gather the parts of one row, giving up at the first
      missing column or blank cell. */
  method RowCombination(row: Row, columns: seq<string>, toLowercase: bool) returns (key: Option<string>)
    ensures key == RowKey(row, columns, toLowercase)
  {
    var combinationParts: seq<string> := [];
    var isValidRow := true;
    ghost var parts := PartList(row, columns, toLowercase);
    var j := 0;
    while j < |columns|
      invariant 0 <= j <= |columns|
      invariant isValidRow
      invariant Gather(parts[..j]) == Some(combinationParts)
    {
      var column := columns[j];
      GatherStep(parts, j);
      if column in row.cells {
        var cellValue := Trim(CellText(row.cells[column]));
        if cellValue == [] {
          GatherPrefixNone(parts, j + 1);
          isValidRow := false;
          break;
        }
        var cleanedValue := Trim(StripParenGroups(cellValue));
        var normalizedValue := NormalizeName(cleanedValue, toLowercase);
        combinationParts := combinationParts + [normalizedValue];
      } else {
        GatherPrefixNone(parts, j + 1);
        isValidRow := false;
        break;
      }
      j := j + 1;
    }
    if isValidRow {
      assert parts[..j] == parts;
      GatherShape(parts);
    }
    if isValidRow && |combinationParts| == |columns| {
      key := Some(Join(combinationParts, Separator));
    } else {
      key := None;
    }
  }

  /** `countDistinctCombinations(data, columns, toLowercase)`. */
  method CountDistinctCombinations(data: Dataset, columns: seq<string>, toLowercase: bool)
    returns (count: nat)
    ensures count == if |columns| == 0 then 0 else |Combinations(data, columns, toLowercase)|
  {
    if |data| == 0 || |columns| == 0 {
      return 0;
    }
    var uniqueCombinations: set<string> := {};
    var i := 0;
    while i < |data|
      invariant 0 <= i <= |data|
      invariant uniqueCombinations == Combinations(data[..i], columns, toLowercase)
    {
      var key := RowCombination(data[i], columns, toLowercase);
      CollectStep(data, i, KeyOf(columns, toLowercase));
      if key.Some? {
        uniqueCombinations := uniqueCombinations + {key.value};
      }
      i := i + 1;
    }
    assert data[..i] == data;
    count := |uniqueCombinations|;
  }

  // ---------------------------------------------------------------------
  // The steps the loops take
  // ---------------------------------------------------------------------

  lemma GatherStep<T>(os: seq<Option<T>>, j: nat)
    requires j < |os|
    ensures Gather(os[..j + 1])
         == if Gather(os[..j]).Some? && os[j].Some? then Some(Gather(os[..j]).value + [os[j].value]) else None
  {
    assert os[..j + 1][..j] == os[..j];
  }

  /** A list that fails on its first `j` options fails as a whole. */
  lemma GatherPrefixNone<T>(os: seq<Option<T>>, j: nat)
    requires j <= |os|
    requires Gather(os[..j]) == None
    ensures Gather(os) == None
  {
    GatherShape(os[..j]);
    var k :| 0 <= k < j && os[..j][k].None?;
    GatherShape(os);
  }

  lemma CollectStep<K>(data: Dataset, i: nat, key: Row -> Option<K>)
    requires i < |data|
    ensures CollectKeys(data[..i + 1], key) == CollectKeys(data[..i], key) + OptionSet(key(data[i]))
  {
    assert data[..i + 1][..i] == data[..i];
  }

  // ---------------------------------------------------------------------
  // What the count means
  // ---------------------------------------------------------------------

  /** `Gather` succeeds exactly when every option is present, and then
      yields their values in order: a row is valid exactly when every column
      gives a part, and its parts are then one per column, in column order
      (so the source's `combinationParts.length === columns.length` always
      holds for a valid row). */
  lemma {:induction false} GatherShape<T>(os: seq<Option<T>>)
    ensures Gather(os).Some? <==> forall i :: 0 <= i < |os| ==> os[i].Some?
    ensures Gather(os).Some? ==>
      |Gather(os).value| == |os| && forall i :: 0 <= i < |os| ==> Gather(os).value[i] == os[i].value
  {
    if os != [] {
      var n := |os| - 1;
      var init := os[..n];
      GatherShape(init);
      assert forall i :: 0 <= i < n ==> init[i] == os[i];
      if Gather(init).Some? && os[n].Some? {
        var vs := Gather(init).value + [os[n].value];
        assert Gather(os) == Some(vs);
        forall i | 0 <= i < |os| ensures vs[i] == os[i].value {
          if i < n {
            assert vs[i] == Gather(init).value[i];
          }
        }
      } else if Gather(init).None? {
        var k :| 0 <= k < n && init[k].None?;
        assert os[k].None?;
      }
    }
  }

  /** A key is collected exactly when some row has it. */
  lemma {:induction false} CollectMembers<K>(data: Dataset, key: Row -> Option<K>)
    ensures forall k :: (k in CollectKeys(data, key)
      <==> exists i :: 0 <= i < |data| && key(data[i]) == Some(k))
  {
    if data != [] {
      var init := data[..|data| - 1];
      CollectMembers(init, key);
      forall k ensures k in CollectKeys(data, key) <==> exists i :: 0 <= i < |data| && key(data[i]) == Some(k)
      {
        if k in CollectKeys(init, key) {
          var i :| 0 <= i < |init| && key(init[i]) == Some(k);
          assert init[i] == data[i];
        }
        if exists i :: 0 <= i < |data| && key(data[i]) == Some(k) {
          var i :| 0 <= i < |data| && key(data[i]) == Some(k);
          if i < |init| {
            assert init[i] == data[i];
          }
        }
      }
    }
  }

  lemma CollectHas<K>(data: Dataset, key: Row -> Option<K>, k: K)
    ensures k in CollectKeys(data, key) <==> exists i :: 0 <= i < |data| && key(data[i]) == Some(k)
  {
    CollectMembers(data, key);
  }

  /** A combination is counted exactly when some row has it as its key. */
  lemma CombinationMembers(data: Dataset, columns: seq<string>, toLowercase: bool)
    ensures forall k :: (k in Combinations(data, columns, toLowercase)
      <==> exists i :: 0 <= i < |data| && RowKey(data[i], columns, toLowercase) == Some(k))
  {
    CollectMembers(data, KeyOf(columns, toLowercase));
  }

  /** There are never more keys than rows. */
  lemma {:induction false} CollectBound<K>(data: Dataset, key: Row -> Option<K>)
    ensures |CollectKeys(data, key)| <= |data|
  {
    if data != [] {
      CollectBound(data[..|data| - 1], key);
    }
  }

  lemma CombinationsBound(data: Dataset, columns: seq<string>, toLowercase: bool)
    ensures |Combinations(data, columns, toLowercase)| <= |data|
  {
    CollectBound(data, KeyOf(columns, toLowercase));
  }

  /** The keys of a concatenation are the keys of its halves. */
  lemma {:induction false} CollectAppend<K>(a: Dataset, b: Dataset, key: Row -> Option<K>)
    ensures CollectKeys(a + b, key) == CollectKeys(a, key) + CollectKeys(b, key)
  {
    if b == [] {
      assert a + b == a;
    } else {
      var init := b[..|b| - 1];
      CollectAppend(a, init, key);
      assert (a + b)[..|a + b| - 1] == a + init;
    }
  }

  /** The combinations do not depend on which block of rows comes first. */
  lemma RowOrderIrrelevant(a: Dataset, b: Dataset, columns: seq<string>, toLowercase: bool)
    ensures Combinations(a + b, columns, toLowercase) == Combinations(b + a, columns, toLowercase)
  {
    var key := KeyOf(columns, toLowercase);
    CollectAppend(a, b, key);
    CollectAppend(b, a, key);
    assert CollectKeys(a, key) + CollectKeys(b, key) == CollectKeys(b, key) + CollectKeys(a, key);
  }

  /** Reordering the rows in any way gives the same combinations, so the
      same count. */
  lemma RowsPermuted(d1: Dataset, d2: Dataset, columns: seq<string>, toLowercase: bool)
    requires multiset(d1) == multiset(d2)
    ensures Combinations(d1, columns, toLowercase) == Combinations(d2, columns, toLowercase)
  {
    CollectPermuted(d1, d2, KeyOf(columns, toLowercase));
  }

  lemma CollectPermuted<K>(d1: Dataset, d2: Dataset, key: Row -> Option<K>)
    requires multiset(d1) == multiset(d2)
    ensures CollectKeys(d1, key) == CollectKeys(d2, key)
  {
    CollectIncluded(d1, d2, key);
    CollectIncluded(d2, d1, key);
  }

  lemma CollectIncluded<K>(d1: Dataset, d2: Dataset, key: Row -> Option<K>)
    requires multiset(d1) == multiset(d2)
    ensures CollectKeys(d1, key) <= CollectKeys(d2, key)
  {
    forall k | k in CollectKeys(d1, key) ensures k in CollectKeys(d2, key) {
      CollectHas(d1, key, k);
      var i :| 0 <= i < |d1| && key(d1[i]) == Some(k);
      assert d1[i] in multiset(d2);
      var j :| 0 <= j < |d2| && d2[j] == d1[i];
      CollectHas(d2, key, k);
    }
  }

  /** Two key functions that agree on which rows have a key and on which
      rows share one collect equally many keys. */
  lemma {:induction false} CollectSameSize<K, L>(data: Dataset, key1: Row -> Option<K>, key2: Row -> Option<L>)
    requires forall i :: 0 <= i < |data| ==> (key1(data[i]).Some? <==> key2(data[i]).Some?)
    requires forall i, j :: 0 <= i < |data| && 0 <= j < |data| && key1(data[i]).Some? && key1(data[j]).Some? ==>
      (key1(data[i]) == key1(data[j]) <==> key2(data[i]) == key2(data[j]))
    ensures |CollectKeys(data, key1)| == |CollectKeys(data, key2)|
  {
    if data != [] {
      var n := |data| - 1;
      var init := data[..n];
      assert forall i :: 0 <= i < n ==> init[i] == data[i];
      CollectSameSize(init, key1, key2);
      if key1(data[n]).Some? {
        var k1 := key1(data[n]).value;
        var k2 := key2(data[n]).value;
        CollectHas(init, key1, k1);
        CollectHas(init, key2, k2);
        if k1 in CollectKeys(init, key1) {
          var i :| 0 <= i < |init| && key1(init[i]) == Some(k1);
          assert key1(data[i]) == key1(data[n]);
          assert key2(init[i]) == Some(k2);
        }
        if k2 in CollectKeys(init, key2) {
          var i :| 0 <= i < |init| && key2(init[i]) == Some(k2);
          assert key2(data[i]) == key2(data[n]);
          assert key1(init[i]) == Some(k1);
        }
        AddOne(CollectKeys(init, key1), k1);
        AddOne(CollectKeys(init, key2), k2);
      }
    }
  }

  lemma AddOne<T>(s: set<T>, x: T)
    ensures |s + {x}| == if x in s then |s| else |s| + 1
  {
    if x in s {
      assert s + {x} == s;
    }
  }

  // ---------------------------------------------------------------------
  // Keys and tuples
  // ---------------------------------------------------------------------

  function TupleOf(columns: seq<string>, toLowercase: bool): Row -> Option<seq<string>> {
    row => Parts(row, columns, toLowercase)
  }

  /** The tuples of parts of the valid rows of `data`. */
  function Tuples(data: Dataset, columns: seq<string>, toLowercase: bool): set<seq<string>> {
    CollectKeys(data, TupleOf(columns, toLowercase))
  }

  /** No cell of the row under the columns holds a colon. */
  predicate RowColonFree(row: Row, columns: seq<string>) {
    forall j :: 0 <= j < |columns| && columns[j] in row.cells ==> ':' !in CellText(row.cells[columns[j]])
  }

  predicate ColonFreeParts(ps: seq<string>) {
    forall i :: 0 <= i < |ps| ==> ':' !in ps[i]
  }

  /** The separator is not robust: moving ":::" from one part into the next
      gives the same key. */
  lemma SeparatorCollision(x: string, y: string, z: string)
    ensures Join([x + Separator + y, z], Separator) == Join([x, y + Separator + z], Separator)
  {
    assert [x + Separator + y, z][1..] == [z];
    assert [x, y + Separator + z][1..] == [y + Separator + z];
  }

  /** Two colon-free fronts followed by a colon (or by nothing) are equal
      when the strings are. */
  lemma FrontEqual(a: string, s: string, b: string, t: string)
    requires ':' !in a && ':' !in b
    requires s == [] || s[0] == ':'
    requires t == [] || t[0] == ':'
    requires a + s == b + t
    ensures a == b && s == t
  {
    if |a| < |b| {
      if s == [] {
        assert false;
      } else {
        ColonInside(a, s, b, t);
        assert false;
      }
    } else if |b| < |a| {
      if t == [] {
        assert false;
      } else {
        ColonInside(b, t, a, s);
        assert false;
      }
    }
    assert a == (a + s)[..|a|];
    assert b == (b + t)[..|b|];
    assert s == (a + s)[|a|..];
    assert t == (b + t)[|b|..];
  }

  /** A shorter front followed by a colon puts that colon inside the
      longer front. */
  lemma ColonInside(a: string, s: string, b: string, t: string)
    requires a + s == b + t && |a| < |b|
    requires s != [] && s[0] == ':'
    ensures ':' in b
  {
    assert (a + s)[|a|] == s[0];
    assert b[|a|] == (b + t)[|a|];
  }

  /** Without colons in the parts, the key determines the tuple. */
  lemma {:induction false} JoinInjective(ps: seq<string>, qs: seq<string>)
    requires |ps| == |qs| && ColonFreeParts(ps) && ColonFreeParts(qs)
    requires Join(ps, Separator) == Join(qs, Separator)
    ensures ps == qs
  {
    if |ps| == 1 {
      assert ':' !in ps[0] && ':' !in qs[0];
      FrontEqual(ps[0], [], qs[0], []);
    } else if |ps| > 1 {
      var x := Separator + Join(ps[1..], Separator);
      var y := Separator + Join(qs[1..], Separator);
      assert ':' !in ps[0] && ':' !in qs[0];
      assert Join(ps, Separator) == ps[0] + x;
      assert Join(qs, Separator) == qs[0] + y;
      FrontEqual(ps[0], x, qs[0], y);
      assert x[3..] == Join(ps[1..], Separator);
      assert y[3..] == Join(qs[1..], Separator);
      JoinInjective(ps[1..], qs[1..]);
      assert ps == [ps[0]] + ps[1..];
      assert qs == [qs[0]] + qs[1..];
    }
  }

  /** The parts of a row of colon-free cells are colon-free. */
  lemma PartsColonFree(row: Row, columns: seq<string>, toLowercase: bool)
    requires RowColonFree(row, columns)
    requires Parts(row, columns, toLowercase).Some?
    ensures ColonFreeParts(Parts(row, columns, toLowercase).value)
  {
    var os := PartList(row, columns, toLowercase);
    GatherShape(os);
    var ps := Parts(row, columns, toLowercase).value;
    forall j | 0 <= j < |ps| ensures ':' !in ps[j] {
      assert os[j] == Part(row, columns[j], toLowercase);
      PartColonFree(row, columns[j], toLowercase);
    }
  }

  lemma PartColonFree(row: Row, column: string, toLowercase: bool)
    requires column in row.cells ==> ':' !in CellText(row.cells[column])
    ensures Part(row, column, toLowercase).Some? ==> ':' !in Part(row, column, toLowercase).value
  {
    if column in row.cells {
      var text := CellText(row.cells[column]);
      TrimChars(text);
      TrimChars(StripParenGroups(Trim(text)));
      NormalizeAvoids(Trim(StripParenGroups(Trim(text))), toLowercase, ':');
    }
  }

  /** Two valid colon-free rows have the same key exactly when they have the
      same parts. */
  lemma SameKeySameParts(r1: Row, r2: Row, columns: seq<string>, toLowercase: bool)
    requires RowColonFree(r1, columns) && RowColonFree(r2, columns)
    requires Parts(r1, columns, toLowercase).Some? && Parts(r2, columns, toLowercase).Some?
    ensures RowKey(r1, columns, toLowercase) == RowKey(r2, columns, toLowercase)
        <==> Parts(r1, columns, toLowercase) == Parts(r2, columns, toLowercase)
  {
    var ps := Parts(r1, columns, toLowercase).value;
    var qs := Parts(r2, columns, toLowercase).value;
    if Join(ps, Separator) == Join(qs, Separator) {
      GatherShape(PartList(r1, columns, toLowercase));
      GatherShape(PartList(r2, columns, toLowercase));
      PartsColonFree(r1, columns, toLowercase);
      PartsColonFree(r2, columns, toLowercase);
      JoinInjective(ps, qs);
    }
  }

  /** When no cell under the columns holds a colon, the count is the number
      of distinct tuples of normalised values. */
  lemma CountsTuples(data: Dataset, columns: seq<string>, toLowercase: bool)
    requires forall i :: 0 <= i < |data| ==> RowColonFree(data[i], columns)
    ensures |Combinations(data, columns, toLowercase)| == |Tuples(data, columns, toLowercase)|
  {
    var key1 := KeyOf(columns, toLowercase);
    var key2 := TupleOf(columns, toLowercase);
    forall i | 0 <= i < |data| ensures key1(data[i]).Some? <==> key2(data[i]).Some? {
    }
    forall i, j | 0 <= i < |data| && 0 <= j < |data| && key1(data[i]).Some? && key1(data[j]).Some?
      ensures key1(data[i]) == key1(data[j]) <==> key2(data[i]) == key2(data[j])
    {
      SameKeySameParts(data[i], data[j], columns, toLowercase);
    }
    CollectSameSize(data, key1, key2);
  }

  /** A cell made only of a `(...)` group is not blank, so the row stays
      valid, but its part is the empty string. */
  lemma GroupOnlyPart(row: Row, column: string, toLowercase: bool)
    requires column in row.cells && row.cells[column] == Str("(x)")
    ensures Part(row, column, toLowercase) == Some("")
  {
    GroupOnlyCell(row, column);
    GroupOnlyStripped();
    NormalizeEmpty(toLowercase);
  }

  lemma GroupOnlyCell(row: Row, column: string)
    requires column in row.cells && row.cells[column] == Str("(x)")
    ensures CellOf(row, column) == Some("(x)")
  {
    TrimShape("(x)");
  }

  lemma GroupOnlyStripped()
    ensures Trim(StripParenGroups("(x)")) == ""
  {
    assert "(x)"[1..] == "x)";
    assert IndexOf("x)", ')') == 1;
    assert "x)"[2..] == "";
    assert StripParenGroups("(x)") == "";
    TrimShape("");
  }

  lemma NormalizeEmpty(toLowercase: bool)
    ensures NormalizeName("", toLowercase) == ""
  {
    TrimShape("");
    assert Nfd("") == "";
    assert DropMarks("") == "";
    assert ToLower("") == "";
    assert CollapseSpaces("") == "";
  }
}
