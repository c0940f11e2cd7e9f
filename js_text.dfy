/**
  The few JavaScript string built-ins the engine relies on, as they behave on
  sequences of characters: `String.prototype.trim`, the regular-expression
  class `\s`, `\d`, `String.prototype.split` with a one-character separator
  or a character class, `Array.prototype.join`, and the character-wise
  `replace` calls the engine makes.
 */
module JsText {

  /** The characters `trim` removes and `\s` matches: WhiteSpace and
      LineTerminator of ECMAScript (both sets are the same). */
  predicate IsWhiteSpace(c: char) {
    || c == '\t' || c == '\n' || c == '\U{000B}' || c == '\U{000C}' || c == '\r'
    || c == ' ' || c == '\U{00A0}' || c == '\U{1680}'
    || ('\U{2000}' <= c <= '\U{200A}')
    || c == '\U{2028}' || c == '\U{2029}' || c == '\U{202F}' || c == '\U{205F}'
    || c == '\U{3000}' || c == '\U{FEFF}'
  }

  /** The regular-expression class `\d`: ASCII digits only. */
  predicate IsDigit(c: char) {
    '0' <= c <= '9'
  }

  predicate AllDigits(s: string) {
    forall i :: 0 <= i < |s| ==> IsDigit(s[i])
  }

  /** No white space at either end: what `trim` leaves. */
  predicate Trimmed(s: string) {
    |s| == 0 || (!IsWhiteSpace(s[0]) && !IsWhiteSpace(s[|s| - 1]))
  }

  predicate AllWhiteSpace(s: string) {
    forall i :: 0 <= i < |s| ==> IsWhiteSpace(s[i])
  }

  /** `s` with its leading white space removed. */
  function TrimStart(s: string): (r: string)
    ensures |r| <= |s|
  {
    if |s| > 0 && IsWhiteSpace(s[0]) then TrimStart(s[1..]) else s
  }

  /** `TrimStart` cuts a white-space prefix, up to a character that is not
      white space. */
  lemma {:induction false} TrimStartFacts(s: string)
    ensures TrimStart(s) == s[|s| - |TrimStart(s)|..]
    ensures |TrimStart(s)| == 0 || !IsWhiteSpace(TrimStart(s)[0])
    ensures AllWhiteSpace(s[..|s| - |TrimStart(s)|])
  {
    if |s| > 0 && IsWhiteSpace(s[0]) {
      TrimStartFacts(s[1..]);
      var k := |s| - |TrimStart(s)|;
      assert s[1..][k - 1..] == s[k..];
      forall i | 0 <= i < k ensures IsWhiteSpace(s[i]) {
        if i > 0 {
          assert s[i] == s[1..][..k - 1][i - 1];
        }
      }
    }
  }

  /** `s` with its trailing white space removed. */
  function TrimEnd(s: string): (r: string)
    ensures |r| <= |s|
  {
    if |s| > 0 && IsWhiteSpace(s[|s| - 1]) then TrimEnd(s[..|s| - 1]) else s
  }

  /** `TrimEnd` cuts a white-space suffix, back to a character that is not
      white space. */
  lemma {:induction false} TrimEndFacts(s: string)
    ensures TrimEnd(s) == s[..|TrimEnd(s)|]
    ensures |TrimEnd(s)| == 0 || !IsWhiteSpace(TrimEnd(s)[|TrimEnd(s)| - 1])
    ensures AllWhiteSpace(s[|TrimEnd(s)|..])
  {
    if |s| > 0 && IsWhiteSpace(s[|s| - 1]) {
      var p := s[..|s| - 1];
      TrimEndFacts(p);
      var k := |TrimEnd(s)|;
      assert p[..k] == s[..k];
      forall i | k <= i < |s| ensures IsWhiteSpace(s[i]) {
        if i < |s| - 1 {
          assert s[i] == p[k..][i - k];
        }
      }
    }
  }

  /** The set of characters of `s`. */
  function Chars(s: string): set<char> {
    set c | c in s
  }

  /** `String.prototype.trim`. */
  function Trim(s: string): (r: string)
    ensures Trimmed(r)
  {
    TrimStartFacts(s);
    TrimEndFacts(TrimStart(s));
    TrimEnd(TrimStart(s))
  }

  /** `trim` cuts a white-space prefix and a white-space suffix and nothing
      else; it leaves a trimmed string alone, and it yields the empty string
      exactly on strings made of white space. */
  lemma TrimShape(s: string)
    ensures exists i, j :: 0 <= i <= j <= |s| && Trim(s) == s[i..j]
                         && AllWhiteSpace(s[..i]) && AllWhiteSpace(s[j..])
    ensures Trimmed(s) ==> Trim(s) == s
    ensures Trim(s) == [] <==> AllWhiteSpace(s)
  {
    var t := TrimStart(s);
    TrimStartFacts(s);
    TrimEndFacts(t);
    var i := |s| - |t|;
    var j := i + |TrimEnd(t)|;
    assert t == s[i..];
    assert Trim(s) == s[i..j];
    assert s[j..] == t[|TrimEnd(t)|..];
    if Trim(s) == [] {
      assert s[..i] == s;
    }
  }

  lemma TrimIdempotent(s: string)
    ensures Trim(Trim(s)) == Trim(s)
  {
    TrimShape(Trim(s));
  }

  /** Every character of `Trim(s)` occurs in `s`. */
  lemma TrimChars(s: string)
    ensures forall c :: c in Trim(s) ==> c in s
  {
    TrimShape(s);
  }

  /** `s.split(sep)` where `sep` is a one-character string, or
      `s.split(/[...]/)` where the class holds exactly the characters of `d`:
      the pieces between separator characters, empty pieces included. */
  function Split(s: string, d: set<char>): (r: seq<string>)
    ensures |r| >= 1
    ensures forall i :: 0 <= i < |r| ==> forall c :: c in r[i] ==> c !in d && c in s
  {
    if s == [] then [""]
    else
      var rest := Split(s[1..], d);
      if s[0] in d then [""] + rest
      else [[s[0]] + rest[0]] + rest[1..]
  }

  /** `Array.prototype.join(sep)` on strings. */
  function Join(parts: seq<string>, sep: string): (r: string)
  {
    if |parts| == 0 then ""
    else if |parts| == 1 then parts[0]
    else parts[0] + sep + Join(parts[1..], sep)
  }

  /** The number of characters of `s` that belong to `d`. */
  function CountIn(s: string, d: set<char>): nat {
    if s == [] then 0 else (if s[0] in d then 1 else 0) + CountIn(s[1..], d)
  }

  /** Splitting yields one piece more than there are separator characters. */
  lemma {:induction false} SplitCount(s: string, d: set<char>)
    ensures |Split(s, d)| == CountIn(s, d) + 1
  {
    if s != [] {
      SplitCount(s[1..], d);
    }
  }

  /** Joining the pieces back with a single separator character restores
      the string, when that character is the only separator it contains. */
  lemma {:induction false} JoinSplit(s: string, c: char)
    ensures Join(Split(s, {c}), [c]) == s
  {
    if s != [] {
      JoinSplit(s[1..], c);
      var rest := Split(s[1..], {c});
      if s[0] != c {
        if |rest| == 1 {
          assert Split(s, {c}) == [[s[0]] + rest[0]];
        } else {
          assert Split(s, {c})[1..] == rest[1..];
        }
      }
    }
  }

  /** Splitting a join of separator-free pieces, at any class that holds the
      joining character, gives those pieces back. */
  lemma {:induction false} SplitJoin(parts: seq<string>, c: char, d: set<char>)
    requires |parts| >= 1 && c in d
    requires forall i :: 0 <= i < |parts| ==> forall x :: x in parts[i] ==> x !in d
    ensures Split(Join(parts, [c]), d) == parts
  {
    if |parts| == 1 {
      SplitPiece(parts[0], [], d);
      assert parts[0] + [] == parts[0];
    } else {
      SplitJoin(parts[1..], c, d);
      assert Join(parts, [c]) == parts[0] + ([c] + Join(parts[1..], [c]));
      SplitPiece(parts[0], [c] + Join(parts[1..], [c]), d);
      assert ([c] + Join(parts[1..], [c]))[1..] == Join(parts[1..], [c]);
      assert [parts[0]] + parts[1..] == parts;
    }
  }

  /** A separator-free prefix becomes the front of the first piece. */
  lemma {:induction false} SplitPiece(p: string, t: string, d: set<char>)
    requires forall x :: x in p ==> x !in d
    requires t == [] || t[0] in d
    ensures t == [] ==> Split(p + t, d) == [p]
    ensures t != [] ==> Split(p + t, d) == [p] + Split(t[1..], d)
  {
    if p == [] {
      assert p + t == t;
    } else {
      assert (p + t)[1..] == p[1..] + t;
      SplitPiece(p[1..], t, d);
      assert [p[0]] + p[1..] == p;
    }
  }

  /** `s.replace(/[...]/g, "")` for a class of characters `d`: drop them. */
  function RemoveChars(s: string, d: set<char>): (r: string)
    ensures |r| <= |s|
  {
    if s == [] then ""
    else (if s[0] in d then "" else [s[0]]) + RemoveChars(s[1..], d)
  }

  /** What is left is exactly the characters of `s` outside `d`. */
  lemma {:induction false} RemoveCharsMembers(s: string, d: set<char>)
    ensures forall c :: c in RemoveChars(s, d) <==> c in s && c !in d
  {
    if s != [] {
      RemoveCharsMembers(s[1..], d);
      assert s == [s[0]] + s[1..];
    }
  }

  /** A string that holds none of the characters is left alone. */
  lemma {:induction false} RemoveCharsNone(s: string, d: set<char>)
    requires forall c :: c in s ==> c !in d
    ensures RemoveChars(s, d) == s
  {
    if s != [] {
      assert s[0] in s;
      assert forall c :: c in s[1..] ==> c in s;
      RemoveCharsNone(s[1..], d);
      assert [s[0]] + s[1..] == s;
    }
  }

  /** Removing characters works piece by piece. */
  lemma {:induction false} RemoveCharsAppend(a: string, b: string, d: set<char>)
    ensures RemoveChars(a + b, d) == RemoveChars(a, d) + RemoveChars(b, d)
  {
    if a != [] {
      assert (a + b)[1..] == a[1..] + b;
      RemoveCharsAppend(a[1..], b, d);
    } else {
      assert a + b == b;
    }
  }

  /** `s.replace(/[^...]+/g, "")` for a class of characters `keep`: keep only them. */
  function KeepChars(s: string, keep: set<char>): (r: string)
    ensures |r| <= |s|
  {
    if s == [] then ""
    else (if s[0] in keep then [s[0]] else "") + KeepChars(s[1..], keep)
  }

  /** What is kept is exactly the characters of `s` inside `keep`. */
  lemma {:induction false} KeepCharsMembers(s: string, keep: set<char>)
    ensures forall c :: c in KeepChars(s, keep) <==> c in s && c in keep
  {
    if s != [] {
      KeepCharsMembers(s[1..], keep);
      assert s == [s[0]] + s[1..];
    }
  }

  /** Characters that are not kept, then characters that all are: exactly
      the second part is kept. */
  lemma {:induction false} KeepAfterJunk(junk: string, v: string, keep: set<char>)
    requires forall c :: c in junk ==> c !in keep
    requires forall c :: c in v ==> c in keep
    ensures KeepChars(junk + v, keep) == v
  {
    if junk != [] {
      assert junk[0] in junk;
      assert forall c :: c in junk[1..] ==> c in junk;
      assert (junk + v)[1..] == junk[1..] + v;
      KeepAfterJunk(junk[1..], v, keep);
    } else if v != [] {
      assert v[0] in v;
      assert forall c :: c in v[1..] ==> c in v;
      assert junk + v == v;
      KeepAfterJunk([], v[1..], keep);
      assert [] + v[1..] == v[1..];
      assert KeepChars(v, keep) == [v[0]] + KeepChars(v[1..], keep);
      assert [v[0]] + v[1..] == v;
    }
  }

  /** `s.replace(/a/g, b)` for single characters. */
  function ReplaceAll(s: string, a: char, b: char): (r: string)
    ensures |r| == |s|
    ensures forall i :: 0 <= i < |s| ==> r[i] == (if s[i] == a then b else s[i])
  {
    if s == [] then ""
    else [if s[0] == a then b else s[0]] + ReplaceAll(s[1..], a, b)
  }

  /** The first occurrence lies after a prefix that does not hold it. */
  lemma {:induction false} ReplaceFirstAfter(p: string, s: string, a: char, b: char)
    requires a !in p
    ensures ReplaceFirst(p + s, a, b) == p + ReplaceFirst(s, a, b)
  {
    if p != [] {
      assert (p + s)[1..] == p[1..] + s;
      ReplaceFirstAfter(p[1..], s, a, b);
      assert [p[0]] + (p[1..] + ReplaceFirst(s, a, b)) == p + ReplaceFirst(s, a, b);
    } else {
      assert p + s == s;
    }
  }

  /** `s.replace(a, b)` with a one-character string pattern: only the first
      occurrence is replaced. */
  function ReplaceFirst(s: string, a: char, b: char): (r: string)
    ensures |r| == |s|
    ensures a !in s ==> r == s
  {
    if s == [] then ""
    else if s[0] == a then [b] + s[1..]
    else [s[0]] + ReplaceFirst(s[1..], a, b)
  }
}
