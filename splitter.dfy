/**
  The multi-value cell splitter every aggregator inlines: a delimiter string
  is turned into a regular-expression character class, each of its
  characters escaped to a literal, and a cell is split at any of them into
  trimmed, non-empty pieces.
 */
module Splitter {
  import opened Wrappers
  import opened JsText

  /** The characters `rawDelimiter.replace(/[-\/\\^$*+?.()|[\]{}]/g, "\\$&")`
      puts a backslash in front of. */
  predicate IsRegexSpecial(c: char) {
    c in {'-', '/', '\\', '^', '$', '*', '+', '?', '.', '(', ')', '|', '[', ']', '{', '}'}
  }

  /** The escaping step: a backslash before every special character. */
  function EscapeRegex(s: string): (r: string)
    ensures |r| >= |s|
  {
    if s == [] then ""
    else (if IsRegexSpecial(s[0]) then ['\\', s[0]] else [s[0]]) + EscapeRegex(s[1..])
  }

  /** The members of the character class `[body]`, for bodies made of plain
      characters and of escapes `\x` of special characters; `None` for any
      other class syntax (ranges, negation, class escapes), which the
      escaping step never produces. */
  function ClassMembers(body: string): Option<set<char>> {
    if body == [] then Some({})
    else if body[0] == '\\' then
      if |body| >= 2 && IsRegexSpecial(body[1]) then
        match ClassMembers(body[2..])
        case None => None
        case Some(rest) => Some({body[1]} + rest)
      else None
    else if IsRegexSpecial(body[0]) then None
    else
      match ClassMembers(body[1..])
      case None => None
      case Some(rest) => Some({body[0]} + rest)
  }

  /** The class built from an escaped delimiter holds exactly the delimiter's
      characters: each of them is a literal alternative separator. */
  lemma {:induction false} EscapedClass(s: string)
    ensures ClassMembers(EscapeRegex(s)) == Some(Chars(s))
  {
    if s != [] {
      EscapedClass(s[1..]);
      var e := EscapeRegex(s);
      var tail := EscapeRegex(s[1..]);
      assert Chars(s) == {s[0]} + Chars(s[1..]);
      if IsRegexSpecial(s[0]) {
        assert e == ['\\', s[0]] + tail;
        assert e[0] == '\\' && e[1] == s[0];
        assert e[2..] == tail;
      } else {
        assert e == [s[0]] + tail;
        assert e[0] == s[0] && e[0] != '\\';
        assert e[1..] == tail;
      }
    } else {
      assert Chars(s) == {};
    }
  }

  /** `splitPattern`: no pattern when the delimiter is null, empty or only
      white space; otherwise the class of its escaped characters. */
  function SplitPattern(rawDelimiter: Option<string>): (r: Option<set<char>>)
    ensures r.None? <==> rawDelimiter.None? || AllWhiteSpace(rawDelimiter.value)
    ensures r.Some? ==> forall c :: c in r.value <==> c in rawDelimiter.value
  {
    if rawDelimiter.None? then None
    else
      TrimShape(rawDelimiter.value);
      if Trim(rawDelimiter.value) == "" then None
      else
        EscapedClass(rawDelimiter.value);
        ClassMembers(EscapeRegex(rawDelimiter.value))
  }

  /** `.map((v) => v.trim()).filter((v) => v.length > 0)`. */
  function TrimmedNonEmpty(parts: seq<string>): (r: seq<string>)
    ensures forall i :: 0 <= i < |r| ==> r[i] != [] && Trimmed(r[i])
  {
    if parts == [] then []
    else
      var t := Trim(parts[0]);
      var rest := TrimmedNonEmpty(parts[1..]);
      if t == [] then rest else [t] + rest
  }

  /** Trimming and dropping keeps only characters the parts already have. */
  lemma {:induction false} TrimmedNonEmptyChars(parts: seq<string>, cell: string, d: set<char>)
    requires forall i, c :: 0 <= i < |parts| && c in parts[i] ==> c in cell && c !in d
    ensures forall i, c :: 0 <= i < |TrimmedNonEmpty(parts)| && c in TrimmedNonEmpty(parts)[i] ==> c in cell && c !in d
  {
    if parts != [] {
      TrimmedNonEmptyChars(parts[1..], cell, d);
      TrimChars(parts[0]);
    }
  }

  /** `valuesToProcess` for a cell that is already trimmed and not empty:
      the cell itself without a pattern, the trimmed non-empty pieces
      between separator characters with one. */
  function Pieces(cell: string, pattern: Option<set<char>>): (r: seq<string>)
    ensures pattern.None? ==> r == [cell]
    ensures pattern.Some? ==> forall i :: 0 <= i < |r| ==> r[i] != [] && Trimmed(r[i])
    ensures pattern.Some? ==> forall i, c :: 0 <= i < |r| && c in r[i] ==> c in cell && c !in pattern.value
  {
    match pattern
    case None => [cell]
    case Some(d) =>
      TrimmedNonEmptyChars(Split(cell, d), cell, d);
      TrimmedNonEmpty(Split(cell, d))
  }

  /** Whatever the pattern, the pieces of a non-empty trimmed cell are
      non-empty, trimmed, and made of the cell's characters. */
  lemma PiecesShape(cell: string, pattern: Option<set<char>>)
    requires cell != [] && Trimmed(cell)
    ensures forall i :: 0 <= i < |Pieces(cell, pattern)| ==>
      Pieces(cell, pattern)[i] != [] && Trimmed(Pieces(cell, pattern)[i])
      && forall c :: c in Pieces(cell, pattern)[i] ==> c in cell
  {
  }

  lemma {:induction false} TrimmedNonEmptyKeeps(parts: seq<string>)
    requires forall i :: 0 <= i < |parts| ==> parts[i] != [] && Trimmed(parts[i])
    ensures TrimmedNonEmpty(parts) == parts
  {
    if parts != [] {
      TrimShape(parts[0]);
      TrimmedNonEmptyKeeps(parts[1..]);
      assert [parts[0]] + parts[1..] == parts;
    }
  }

  /** Joining non-empty, trimmed, separator-free values with any one
      separator character and splitting again recovers the values. */
  lemma SplitRoundTrip(values: seq<string>, d: set<char>, sep: char)
    requires |values| >= 1 && sep in d
    requires forall i :: 0 <= i < |values| ==> values[i] != [] && Trimmed(values[i])
    requires forall i :: 0 <= i < |values| ==> forall c :: c in values[i] ==> c !in d
    ensures Pieces(Join(values, [sep]), Some(d)) == values
  {
    SplitJoin(values, sep, d);
    TrimmedNonEmptyKeeps(values);
  }

  /** With the delimiter ",-", the cell "a, b-c" holds three values. */
  lemma PiecesExample()
    ensures Pieces("a, b-c", SplitPattern(Some(",-"))) == ["a", "b", "c"]
  {
    PatternExample();
    SplitExample();
    TrimmedExample();
  }

  lemma PatternExample()
    ensures SplitPattern(Some(",-")) == Some({',', '-'})
  {
    var e := EscapeRegex(",-");
    assert EscapeRegex("-") == ['\\', '-'] by {
      assert "-"[1..] == "";
    }
    assert e == [',', '\\', '-'] by {
      assert ",-"[1..] == "-";
    }
    assert ClassMembers(e[1..]) == Some({'-'}) by {
      assert e[1..][2..] == [];
      assert {'-'} + {} == {'-'};
    }
    assert ClassMembers(e) == Some({',', '-'}) by {
      assert !IsRegexSpecial(',');
      assert {','} + {'-'} == {',', '-'};
    }
    assert Trim(",-") != [] by {
      TrimShape(",-");
      assert !IsWhiteSpace(",-"[0]);
    }
  }

  lemma SplitExample()
    ensures Split("a, b-c", {',', '-'}) == ["a", " b", "c"]
  {
    SplitPiece("c", "", {',', '-'});
    assert "c" + "" == "c";
    assert "-c"[1..] == "c";
    SplitStep(" b", "-c", ["c"]);
    assert ", b-c"[1..] == " b" + "-c";
    SplitStep("a", ", b-c", [" b", "c"]);
    assert "a" + ", b-c" == "a, b-c";
  }

  /** One step of the example: a separator-free front and a separator. */
  lemma SplitStep(p: string, t: string, rest: seq<string>)
    requires forall x :: x in p ==> x !in {',', '-'}
    requires t != [] && t[0] in {',', '-'}
    requires Split(t[1..], {',', '-'}) == rest
    ensures Split(p + t, {',', '-'}) == [p] + rest
  {
    SplitPiece(p, t, {',', '-'});
  }

  lemma TrimmedExample()
    ensures TrimmedNonEmpty(["a", " b", "c"]) == ["a", "b", "c"]
  {
    TrimSingle('a');
    TrimSingle('c');
    TrimSpaceB();
    TrimmedCons("c", []);
    TrimmedCons(" b", ["c"]);
    TrimmedCons("a", [" b", "c"]);
  }

  lemma TrimmedCons(p: string, rest: seq<string>)
    ensures TrimmedNonEmpty([p] + rest) ==
      (if Trim(p) == [] then [] else [Trim(p)]) + TrimmedNonEmpty(rest)
  {
    assert ([p] + rest)[1..] == rest;
  }

  lemma TrimSingle(c: char)
    requires !IsWhiteSpace(c)
    ensures Trim([c]) == [c]
  {
    TrimShape([c]);
  }

  lemma TrimSpaceB()
    ensures Trim(" b") == "b"
  {
    assert " b"[1..] == "b";
    TrimShape("b");
  }
}
