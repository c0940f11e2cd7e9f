/**
  `normalizeName` of the analysis service: trim, canonical decomposition with
  the combining marks U+0300..U+036F dropped, optional lower-casing, and
  every run of white space collapsed to one space; and the removal of
  `(...)` groups that some aggregators apply before it.

  Canonical decomposition and lower-casing are modelled for Latin-1: the
  precomposed letters U+00C0..U+00FF decompose into an ASCII letter and one
  combining mark, and the upper-case letters of ASCII and Latin-1 map to
  their lower-case forms.
 */
module Normalize {
  import opened JsText

  predicate IsCombiningMark(c: char) {
    '\U{0300}' <= c <= '\U{036F}'
  }

  const Grave: char := '\U{0300}'
  const Acute: char := '\U{0301}'
  const Circumflex: char := '\U{0302}'
  const Tilde: char := '\U{0303}'
  const Diaeresis: char := '\U{0308}'
  const RingAbove: char := '\U{030A}'
  const Cedilla: char := '\U{0327}'

  predicate IsAsciiLetter(c: char) {
    ('A' <= c <= 'Z') || ('a' <= c <= 'z')
  }

  /** The base letter and the mark of an upper-case precomposed Latin-1
      letter (the row U+00C0..U+00DD), or `[]` for any other character. */
  function UpperDecomposition(u: char): (r: seq<char>)
    ensures r == [] || (|r| == 2 && 'A' <= r[0] <= 'Z' && IsCombiningMark(r[1]))
  {
    if '\U{00C0}' <= u <= '\U{00C5}' then
      ['A', [Grave, Acute, Circumflex, Tilde, Diaeresis, RingAbove][u as int - 0xC0]]
    else if u == '\U{00C7}' then ['C', Cedilla]
    else if '\U{00C8}' <= u <= '\U{00CB}' then ['E', [Grave, Acute, Circumflex, Diaeresis][u as int - 0xC8]]
    else if '\U{00CC}' <= u <= '\U{00CF}' then ['I', [Grave, Acute, Circumflex, Diaeresis][u as int - 0xCC]]
    else if u == '\U{00D1}' then ['N', Tilde]
    else if '\U{00D2}' <= u <= '\U{00D6}' then ['O', [Grave, Acute, Circumflex, Tilde, Diaeresis][u as int - 0xD2]]
    else if '\U{00D9}' <= u <= '\U{00DC}' then ['U', [Grave, Acute, Circumflex, Diaeresis][u as int - 0xD9]]
    else if u == '\U{00DD}' then ['Y', Acute]
    else []
  }

  /** The canonical decomposition of one character: a precomposed Latin-1
      letter becomes its ASCII letter and its mark; the lower-case row
      U+00E0..U+00FD mirrors the upper-case one 0x20 below it. */
  function Decompose(c: char): (r: seq<char>)
    ensures r == [c] || (|r| == 2 && IsAsciiLetter(r[0]) && IsCombiningMark(r[1]))
  {
    if c == '\U{00FF}' then ['y', Diaeresis]
    else if '\U{00E0}' <= c <= '\U{00FD}' then
      var d := UpperDecomposition((c as int - 0x20) as char);
      if d == [] then [c] else [(d[0] as int + 0x20) as char, d[1]]
    else
      var d := UpperDecomposition(c);
      if d == [] then [c] else d
  }

  /** `s.normalize("NFD")`. */
  function Nfd(s: string): string {
    if s == [] then "" else Decompose(s[0]) + Nfd(s[1..])
  }

  /** `s.replace(/[\u0300-\u036f]/g, "")`: drop the combining marks. */
  function DropMarks(s: string): (r: string)
    ensures forall i :: 0 <= i < |r| ==> !IsCombiningMark(r[i])
  {
    if s == [] then ""
    else (if IsCombiningMark(s[0]) then "" else [s[0]]) + DropMarks(s[1..])
  }

  /** `toLowerCase` of one character, for ASCII and Latin-1. */
  function ToLowerChar(c: char): char {
    if ('A' <= c <= 'Z') || ('\U{00C0}' <= c <= '\U{00DE}' && c != '\U{00D7}') then
      (c as int + 0x20) as char
    else c
  }

  /** `s.toLowerCase()`. */
  function ToLower(s: string): (r: string)
    ensures |r| == |s|
    ensures forall i :: 0 <= i < |s| ==> r[i] == ToLowerChar(s[i])
  {
    if s == [] then "" else [ToLowerChar(s[0])] + ToLower(s[1..])
  }

  /** `s.replace(/\s+/g, " ")`: each maximal run of white space becomes one
      space. */
  function CollapseSpaces(s: string): (r: string)
    decreases |s|
  {
    if s == [] then ""
    else if IsWhiteSpace(s[0]) then " " + CollapseSpaces(TrimStart(s[1..]))
    else [s[0]] + CollapseSpaces(s[1..])
  }

  /** `normalizeName(text, toLowercase)`. */
  function NormalizeName(text: string, toLowercase: bool): string {
    var stripped := DropMarks(Nfd(Trim(text)));
    var cased := if toLowercase then ToLower(stripped) else stripped;
    Trim(CollapseSpaces(cased))
  }

  /** What `normalizeName` guarantees of every result: no white space at
      either end, no run of white space and no other white space than the
      plain space, no combining mark and no character that would decompose;
      all lower-case when asked. */
  lemma NormalizeNameShape(text: string, toLowercase: bool)
    ensures Canonical(NormalizeName(text, toLowercase))
    ensures toLowercase ==> LowerCased(NormalizeName(text, toLowercase))
  {
    NormalizedChars(text, toLowercase);
  }

  /** A character that decomposition leaves alone and that is no mark. */
  predicate Stable(c: char) {
    Decompose(c) == [c] && !IsCombiningMark(c)
  }

  /** The only white space is single spaces between other characters. */
  predicate SingleSpaced(s: string) {
    && (forall i :: 0 <= i < |s| && IsWhiteSpace(s[i]) ==> s[i] == ' ')
    && (forall i :: 0 <= i < |s| - 1 ==> !(IsWhiteSpace(s[i]) && IsWhiteSpace(s[i + 1])))
  }

  /** The shape of every normalised name: no white space at either end, no
      run of two white-space characters, no tab or other white space than
      the plain space, and neither a combining mark nor a character that
      would decompose. */
  predicate Canonical(s: string) {
    Trimmed(s) && SingleSpaced(s) && forall i :: 0 <= i < |s| ==> Stable(s[i])
  }

  predicate LowerCased(s: string) {
    forall i :: 0 <= i < |s| ==> ToLowerChar(s[i]) == s[i]
  }

  predicate AllStable(s: string) {
    forall i :: 0 <= i < |s| ==> Stable(s[i])
  }

  /** The character facts behind `Canonical`, step by step. */
  lemma NormalizedChars(text: string, toLowercase: bool)
    ensures var stripped := DropMarks(Nfd(Trim(text)));
            var cased := if toLowercase then ToLower(stripped) else stripped;
            var r := Trim(CollapseSpaces(cased));
            Canonical(r) && (toLowercase ==> LowerCased(r))
  {
    var stripped := DropMarks(Nfd(Trim(text)));
    StripAccentsStable(Trim(text));
    var cased := if toLowercase then ToLower(stripped) else stripped;
    if toLowercase {
      LowerStable(stripped);
    }
    var collapsed := CollapseSpaces(cased);
    CollapseSpacing(cased);
    CollapseChars(cased);
    TrimSpacing(collapsed);
    TrimChars(collapsed);
    var r := Trim(collapsed);
    StableFromChars(r, cased);
    if toLowercase {
      LowerFromChars(r, cased);
    }
  }

  /** A string made of spaces and stable characters is stable. */
  lemma StableFromChars(r: string, src: string)
    requires AllStable(src)
    requires forall c :: c in r ==> c == ' ' || c in src
    ensures AllStable(r)
  {
    forall i | 0 <= i < |r| ensures Stable(r[i]) {
      assert r[i] in r;
    }
  }

  /** A string made of spaces and lower-case characters is lower-case. */
  lemma LowerFromChars(r: string, src: string)
    requires LowerCased(src)
    requires forall c :: c in r ==> c == ' ' || c in src
    ensures LowerCased(r)
  {
    forall i | 0 <= i < |r| ensures ToLowerChar(r[i]) == r[i] {
      assert r[i] in r;
    }
  }

  /** Decomposing and dropping the marks leaves only stable characters. */
  lemma {:induction false} StripAccentsStable(s: string)
    ensures AllStable(DropMarks(Nfd(s)))
  {
    if s != [] {
      StripAccentsStable(s[1..]);
      DropMarksAppend(Decompose(s[0]), Nfd(s[1..]));
      DecomposedStable(s[0]);
      AllStableAppend(DropMarks(Decompose(s[0])), DropMarks(Nfd(s[1..])));
    }
  }

  /** One character, decomposed and without its mark, is stable. */
  lemma DecomposedStable(c: char)
    ensures AllStable(DropMarks(Decompose(c)))
  {
    var d := Decompose(c);
    if |d| == 2 {
      AsciiStable(d[0]);
      assert DropMarks(d) == [d[0]] by {
        assert d[1..][1..] == [];
      }
    } else {
      assert DropMarks(d) == (if IsCombiningMark(c) then "" else [c]) by {
        assert d[1..] == [];
      }
    }
  }

  lemma AsciiStable(c: char)
    requires IsAsciiLetter(c)
    ensures Stable(c)
  {
    assert UpperDecomposition(c) == [];
  }

  lemma AllStableAppend(a: string, b: string)
    requires AllStable(a) && AllStable(b)
    ensures AllStable(a + b)
  {
    forall i | 0 <= i < |a + b| ensures Stable((a + b)[i]) {
      if i < |a| {
        assert (a + b)[i] == a[i];
      } else {
        assert (a + b)[i] == b[i - |a|];
      }
    }
  }

  lemma {:induction false} DropMarksAppend(a: string, b: string)
    ensures DropMarks(a + b) == DropMarks(a) + DropMarks(b)
  {
    if a == [] {
      assert a + b == b;
    } else {
      assert (a + b)[1..] == a[1..] + b;
      DropMarksAppend(a[1..], b);
    }
  }

  /** Lower-casing keeps characters stable and is idempotent. */
  lemma LowerStable(s: string)
    requires AllStable(s)
    ensures AllStable(ToLower(s)) && LowerCased(ToLower(s))
  {
    forall i | 0 <= i < |s| ensures Stable(ToLowerChar(s[i])) && ToLowerChar(ToLowerChar(s[i])) == ToLowerChar(s[i]) {
      LowerCharStable(s[i]);
    }
  }

  lemma LowerCharStable(c: char)
    requires Stable(c)
    ensures Stable(ToLowerChar(c))
    ensures ToLowerChar(ToLowerChar(c)) == ToLowerChar(c)
    ensures IsWhiteSpace(ToLowerChar(c)) <==> IsWhiteSpace(c)
  {
  }

  /** Collapsing yields single spacing, and its first character is white
      space exactly when the input's is. */
  lemma {:induction false} CollapseSpacing(s: string)
    ensures SingleSpaced(CollapseSpaces(s))
    ensures CollapseSpaces(s) != [] ==> |s| > 0 && (IsWhiteSpace(CollapseSpaces(s)[0]) <==> IsWhiteSpace(s[0]))
    decreases |s|
  {
    if s != [] {
      var r := CollapseSpaces(s);
      if IsWhiteSpace(s[0]) {
        var t := TrimStart(s[1..]);
        TrimStartFacts(s[1..]);
        CollapseSpacing(t);
        assert r == " " + CollapseSpaces(t);
      } else {
        CollapseSpacing(s[1..]);
        assert r == [s[0]] + CollapseSpaces(s[1..]);
      }
    }
  }

  /** Every character collapsing leaves is a space or a character of the
      input that is not white space. */
  lemma {:induction false} CollapseChars(s: string)
    ensures forall c :: c in CollapseSpaces(s) ==> c == ' ' || (c in s && !IsWhiteSpace(c))
    decreases |s|
  {
    if s != [] {
      if IsWhiteSpace(s[0]) {
        var t := TrimStart(s[1..]);
        TrimStartFacts(s[1..]);
        CollapseChars(t);
        assert forall c :: c in t ==> c in s by {
          assert t == s[|s| - |t|..];
        }
      } else {
        CollapseChars(s[1..]);
      }
    }
  }

  /** A slice of a single-spaced string is single-spaced. */
  lemma SliceSpacing(s: string, i: nat, j: nat)
    requires i <= j <= |s| && SingleSpaced(s)
    ensures SingleSpaced(s[i..j])
  {
    var t := s[i..j];
    forall k | 0 <= k < |t| && IsWhiteSpace(t[k]) ensures t[k] == ' ' {
      assert t[k] == s[i + k];
    }
    forall k | 0 <= k < |t| - 1 ensures !(IsWhiteSpace(t[k]) && IsWhiteSpace(t[k + 1])) {
      assert t[k] == s[i + k] && t[k + 1] == s[i + k + 1];
    }
  }

  /** Trimming keeps single spacing. */
  lemma TrimSpacing(s: string)
    requires SingleSpaced(s)
    ensures SingleSpaced(Trim(s))
  {
    var t := TrimStart(s);
    TrimStartFacts(s);
    TrimEndFacts(t);
    SliceSpacing(s, |s| - |t|, |s|);
    SliceSpacing(t, 0, |TrimEnd(t)|);
  }

  /** Normalising a canonical name changes nothing (lower-casing included,
      when the name is already lower-case). */
  lemma NormalizeFixedPoint(s: string, toLowercase: bool)
    requires Canonical(s)
    requires toLowercase ==> LowerCased(s)
    ensures NormalizeName(s, toLowercase) == s
  {
    TrimShape(s);
    NfdStable(s);
    DropMarksNone(s);
    if toLowercase {
      ToLowerIdentity(s);
    }
    CollapseIdentity(s);
    TrimShape(s);
  }

  lemma {:induction false} NfdStable(s: string)
    requires AllStable(s)
    ensures Nfd(s) == s
  {
    if s != [] {
      assert Stable(s[0]);
      assert AllStable(s[1..]) by {
        forall i | 0 <= i < |s| - 1 ensures Stable(s[1..][i]) {
          assert s[1..][i] == s[i + 1];
        }
      }
      NfdStable(s[1..]);
      assert [s[0]] + s[1..] == s;
    }
  }

  lemma {:induction false} DropMarksNone(s: string)
    requires forall i :: 0 <= i < |s| ==> !IsCombiningMark(s[i])
    ensures DropMarks(s) == s
  {
    if s != [] {
      DropMarksNone(s[1..]);
      assert [s[0]] + s[1..] == s;
    }
  }

  lemma ToLowerIdentity(s: string)
    requires LowerCased(s)
    ensures ToLower(s) == s
  {
  }

  lemma {:induction false} CollapseIdentity(s: string)
    requires SingleSpaced(s)
    requires |s| > 0 ==> !IsWhiteSpace(s[0])
    ensures CollapseSpaces(s) == s
    decreases |s|
  {
    if s != [] {
      var rest := s[1..];
      assert SingleSpaced(rest) by {
        forall i | 0 <= i < |rest| ensures rest[i] == s[i + 1] {}
      }
      if |rest| > 0 && IsWhiteSpace(rest[0]) {
        assert rest[0] == ' ';
        var after := rest[1..];
        assert |after| > 0 ==> !IsWhiteSpace(after[0]) by {
          if |after| > 0 {
            assert after[0] == s[2];
          }
        }
        assert SingleSpaced(after) by {
          forall i | 0 <= i < |after| ensures after[i] == s[i + 2] {}
        }
        assert TrimStart(after) == after;
        CollapseIdentity(after);
        assert CollapseSpaces(rest) == " " + after;
        assert [s[0]] + (" " + after) == s;
      } else {
        CollapseIdentity(rest);
        assert [s[0]] + rest == s;
      }
    }
  }

  /** The output of `normalizeName` is a fixed point of it. */
  lemma NormalizeIdempotent(text: string, toLowercase: bool)
    ensures NormalizeName(NormalizeName(text, toLowercase), toLowercase) == NormalizeName(text, toLowercase)
  {
    NormalizeNameShape(text, toLowercase);
    NormalizeFixedPoint(NormalizeName(text, toLowercase), toLowercase);
  }

  /** A character below the letters that is not white space (a digit or
      punctuation such as `:`) appears in a normalised name only when it
      appears in the text: no step of `normalizeName` produces it. */
  lemma NormalizeAvoids(text: string, toLowercase: bool, c: char)
    requires c < 'A' && !IsWhiteSpace(c)
    requires c !in text
    ensures c !in NormalizeName(text, toLowercase)
  {
    TrimChars(text);
    var stripped := DropMarks(Nfd(Trim(text)));
    NfdAvoids(Trim(text), c);
    DropMarksAvoids(Nfd(Trim(text)), c);
    var cased := if toLowercase then ToLower(stripped) else stripped;
    assert c !in cased;
    CollapseChars(cased);
    TrimChars(CollapseSpaces(cased));
  }

  lemma {:induction false} NfdAvoids(s: string, c: char)
    requires c < 'A' && c !in s
    ensures c !in Nfd(s)
  {
    if s != [] {
      NfdAvoids(s[1..], c);
      assert c !in Decompose(s[0]);
    }
  }

  lemma {:induction false} DropMarksAvoids(s: string, c: char)
    requires c !in s
    ensures c !in DropMarks(s)
  {
    if s != [] {
      DropMarksAvoids(s[1..], c);
    }
  }

  /** A `(...)` group does not join across a remaining `(`: after every `(`
      there is no `)`. */
  predicate NoParenGroup(s: string) {
    forall i, j :: 0 <= i < j < |s| && s[i] == '(' ==> s[j] != ')'
  }

  function IndexOf(s: string, c: char): (k: nat)
    requires c in s
    ensures k < |s| && s[k] == c && c !in s[..k]
  {
    if s[0] == c then 0
    else
      var k := 1 + IndexOf(s[1..], c);
      assert s[..k] == [s[0]] + s[1..][..k - 1];
      k
  }

  /** `s.replace(/\([^)]*\)/g, "")`: from left to right, each `(` that has a
      `)` somewhere after it is removed together with everything up to and
      including the first such `)`. */
  function StripParenGroups(s: string): (r: string)
    ensures forall c :: c in r ==> c in s
    ensures '(' !in s ==> r == s
    decreases |s|
  {
    if s == [] then ""
    else if s[0] == '(' && ')' in s[1..] then
      StripParenGroups(s[1..][IndexOf(s[1..], ')') + 1..])
    else
      assert '(' !in s ==> s == [s[0]] + s[1..];
      [s[0]] + StripParenGroups(s[1..])
  }

  /** After the removal no `(` is followed by a `)`: every group that could
      be matched has been. */
  lemma {:induction false} NoGroupsLeft(s: string)
    ensures NoParenGroup(StripParenGroups(s))
    decreases |s|
  {
    if s != [] {
      if s[0] == '(' && ')' in s[1..] {
        NoGroupsLeft(s[1..][IndexOf(s[1..], ')') + 1..]);
      } else {
        var rest := StripParenGroups(s[1..]);
        NoGroupsLeft(s[1..]);
        var r := [s[0]] + rest;
        forall i, j | 0 <= i < j < |r| && r[i] == '(' ensures r[j] != ')' {
          assert r[j] == rest[j - 1];
          if i == 0 {
            assert rest[j - 1] in rest;
          } else {
            assert r[i] == rest[i - 1];
          }
        }
      }
    }
  }
}
