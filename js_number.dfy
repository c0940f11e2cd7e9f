/**
  The JavaScript number built-ins the engine relies on, over exact reals:
  `parseFloat`, `String(n)` for a number, and `Number(x.toFixed(2))`.
 */
module JsNumber {
  import opened Wrappers
  import opened JsText

  function Pow10(n: nat): (r: nat)
    ensures r >= 1
  {
    if n == 0 then 1 else 10 * Pow10(n - 1)
  }

  function DigitValue(c: char): (d: nat)
    requires IsDigit(c)
    ensures d <= 9
  {
    c as int - '0' as int
  }

  function DigitChar(d: nat): (c: char)
    requires d <= 9
    ensures IsDigit(c) && DigitValue(c) == d
  {
    ('0' as int + d) as char
  }

  /** The value of a string of decimal digits. */
  function DigitsValue(s: string): nat
    requires AllDigits(s)
  {
    if s == [] then 0 else DigitsValue(s[..|s| - 1]) * 10 + DigitValue(s[|s| - 1])
  }

  /** The length of the longest prefix of `s` made of digits. */
  function DigitRun(s: string): (n: nat)
    ensures n <= |s| && AllDigits(s[..n])
    ensures n == |s| || !IsDigit(s[n])
  {
    if s != [] && IsDigit(s[0]) then
      var n := 1 + DigitRun(s[1..]);
      assert s[..n] == [s[0]] + s[1..][..n - 1];
      n
    else 0
  }

  /** What `parseFloat` reads after the mantissa: `e` or `E`, an optional
      sign and at least one digit; anything else adds no exponent. */
  function ExponentPart(s: string): int {
    if |s| >= 2 && (s[0] == 'e' || s[0] == 'E') then
      var u := if s[1] == '-' || s[1] == '+' then s[2..] else s[1..];
      var n := DigitRun(u);
      if n == 0 then 0
      else if s[1] == '-' then -(DigitsValue(u[..n]) as int)
      else DigitsValue(u[..n])
    else 0
  }

  function Scale(m: real, e: int): real {
    if e >= 0 then m * Pow10(e) as real else m / Pow10(-e) as real
  }

  /** The text can start a decimal literal: after the optional sign comes a
      digit, or a point followed by a digit. */
  predicate StartsDecimal(t: string) {
    var u := if |t| > 0 && (t[0] == '-' || t[0] == '+') then t[1..] else t;
    (|u| > 0 && IsDigit(u[0])) || (|u| > 1 && u[0] == '.' && IsDigit(u[1]))
  }

  /** The parts of the decimal literal `parseFloat` reads. */
  datatype Literal = Literal(negative: bool, whole: string, fraction: string, exponent: int)

  predicate ValidLiteral(l: Literal) {
    AllDigits(l.whole) && AllDigits(l.fraction) && |l.whole| + |l.fraction| > 0
  }

  /** Splits an unsigned decimal literal off the front of `u`: its whole
      digits, its fraction digits and what follows it. */
  function ReadUnsigned(u: string): (r: Option<(string, string, string)>)
    ensures r.Some? <==> ((|u| > 0 && IsDigit(u[0])) || (|u| > 1 && u[0] == '.' && IsDigit(u[1])))
    ensures r.Some? ==> AllDigits(r.value.0) && AllDigits(r.value.1) && |r.value.0| + |r.value.1| > 0
  {
    var a := DigitRun(u);
    var rest := u[a..];
    if |rest| > 0 && rest[0] == '.' then
      var b := DigitRun(rest[1..]);
      if a + b == 0 then None else Some((u[..a], rest[1..][..b], rest[1..][b..]))
    else if a == 0 then None
    else Some((u[..a], "", rest))
  }

  /** The longest prefix of `s`, after its leading white space, that is a
      decimal literal: sign, digits, optional point and fraction digits,
      optional exponent; `None` when there is none. */
  function ReadLiteral(s: string): (r: Option<Literal>)
    ensures r.Some? <==> StartsDecimal(TrimStart(s))
    ensures r.Some? ==> ValidLiteral(r.value)
  {
    var t := TrimStart(s);
    var signed := |t| > 0 && (t[0] == '-' || t[0] == '+');
    var u := if signed then t[1..] else t;
    match ReadUnsigned(u)
    case None => None
    case Some((whole, fraction, after)) =>
      Some(Literal(signed && t[0] == '-', whole, fraction, ExponentPart(after)))
  }

  /** The exact value a literal denotes. */
  function LiteralValue(l: Literal): real
    requires ValidLiteral(l)
  {
    var m := DigitsValue(l.whole) as real + DigitsValue(l.fraction) as real / Pow10(|l.fraction|) as real;
    var x := Scale(m, l.exponent);
    if l.negative then -x else x
  }

  /** `parseFloat(s)`, `None` standing for `NaN`: the value of the literal
      prefix; the rest of the string is ignored. */
  function ParseFloat(s: string): (r: Option<real>)
    ensures r.Some? <==> StartsDecimal(TrimStart(s))
  {
    match ReadLiteral(s)
    case None => None
    case Some(l) => Some(LiteralValue(l))
  }

  /** The decimal digits of a natural number, as `String(n)` writes it. */
  function NatText(n: nat): (r: string)
    ensures |r| >= 1 && AllDigits(r) && DigitsValue(r) == n
    ensures n > 0 ==> r[0] != '0'
  {
    if n < 10 then [DigitChar(n)]
    else
      var r := NatText(n / 10) + [DigitChar(n % 10)];
      assert r[..|r| - 1] == NatText(n / 10);
      r
  }

  /** Up to `digits` decimal digits of a fraction in [0, 1). */
  function FractionText(f: real, digits: nat): (r: string)
    requires 0.0 <= f < 1.0
    ensures |r| <= digits && AllDigits(r)
    decreases digits
  {
    if digits == 0 || f == 0.0 then ""
    else
      var d := (f * 10.0).Floor;
      [DigitChar(d)] + FractionText(f * 10.0 - d as real, digits - 1)
  }

  function MagnitudeText(x: real): string
    requires x >= 0.0
  {
    var w := x.Floor;
    var f := x - w as real;
    NatText(w) + (if f == 0.0 then "" else "." + FractionText(f, 20))
  }

  /** `String(n)` for a number: digits, a point and fraction digits when the
      number is not whole, a minus sign when it is negative. */
  function NumberText(x: real): string {
    if x < 0.0 then "-" + MagnitudeText(-x) else MagnitudeText(x)
  }

  /** Reading a number's text back gives the number, for whole numbers. */
  lemma ParseWholeNumberText(x: real)
    requires x == x.Floor as real
    ensures ParseFloat(NumberText(x)) == Some(x)
  {
    var k := x.Floor;
    if x < 0.0 {
      assert x == -((-k) as real);
      ParseNegativeWhole(-k);
    } else {
      ParseNonNegativeWhole(k);
    }
  }

  lemma ParseNonNegativeWhole(w: nat)
    ensures ParseFloat(NumberText(w as real)) == Some(w as real)
  {
    WholeMagnitudeText(w);
    assert NumberText(w as real) == NatText(w);
    ParseDigits(NatText(w), "");
    assert NatText(w) + "" == NatText(w);
  }

  lemma ParseNegativeWhole(w: nat)
    requires w > 0
    ensures ParseFloat(NumberText(-(w as real))) == Some(-(w as real))
  {
    NegativeWholeText(w);
    NegatedDigits(NatText(w));
  }

  lemma NegativeWholeText(w: nat)
    requires w > 0
    ensures NumberText(-(w as real)) == "-" + NatText(w)
  {
    assert -(-(w as real)) == w as real;
    WholeMagnitudeText(w);
  }

  lemma WholeMagnitudeText(w: nat)
    ensures MagnitudeText(w as real) == NatText(w)
  {
    assert (w as real).Floor == w;
  }

  /** A minus sign in front of digits reads as the negated digits. */
  lemma NegatedDigits(digits: string)
    requires |digits| > 0 && AllDigits(digits)
    ensures ParseFloat("-" + digits) == Some(-(DigitsValue(digits) as real))
  {
    ReadNegatedDigits(digits);
    WholeLiteralValue(true, digits);
    ParseOfLiteral("-" + digits, Literal(true, digits, "", 0));
  }

  lemma ReadNegatedDigits(digits: string)
    requires |digits| > 0 && AllDigits(digits)
    ensures ReadLiteral("-" + digits) == Some(Literal(true, digits, "", 0))
  {
    ReadDigits(digits, "");
    assert digits + "" == digits;
    assert digits[0] != '-' && digits[0] != '+' && !IsWhiteSpace(digits[0]);
    ReadSignedStart('-', digits);
    assert ExponentPart("") == 0;
  }

  /** A text that starts with neither white space nor a sign holds a
      positive literal, the unsigned one at its front. */
  lemma ReadUnsignedStart(s: string)
    requires |s| > 0 && !IsWhiteSpace(s[0]) && s[0] != '-' && s[0] != '+'
    ensures ReadLiteral(s) ==
      match ReadUnsigned(s)
      case None => None
      case Some((w, f, after)) => Some(Literal(false, w, f, ExponentPart(after)))
  {
    NoLeadingSpace(s);
  }

  /** A sign in front of such a text signs its literal. */
  lemma ReadSignedStart(sign: char, s: string)
    requires sign == '-' || sign == '+'
    requires |s| > 0 && !IsWhiteSpace(s[0]) && s[0] != '-' && s[0] != '+'
    ensures ReadLiteral([sign] + s) ==
      match ReadUnsigned(s)
      case None => None
      case Some((w, f, after)) => Some(Literal(sign == '-', w, f, ExponentPart(after)))
  {
    assert ([sign] + s)[1..] == s;
    NoLeadingSpace([sign] + s);
  }

  lemma NoLeadingSpace(s: string)
    requires |s| > 0 && !IsWhiteSpace(s[0])
    ensures TrimStart(s) == s
  {
  }

  /** A run of digits followed by anything that cannot continue a decimal
      literal is read as those digits alone. */
  lemma ReadDigits(digits: string, junk: string)
    requires |digits| > 0 && AllDigits(digits)
    requires junk == [] || (!IsDigit(junk[0]) && junk[0] != '.')
    ensures ReadUnsigned(digits + junk) == Some((digits, "", junk))
  {
    var s := digits + junk;
    DigitRunPrefix(digits, junk);
    assert s[..|digits|] == digits;
    assert s[|digits|..] == junk;
  }

  lemma WholeLiteralValue(negative: bool, digits: string)
    requires |digits| > 0 && AllDigits(digits)
    ensures LiteralValue(Literal(negative, digits, "", 0)) ==
      if negative then -(DigitsValue(digits) as real) else DigitsValue(digits) as real
  {
    assert DigitsValue("") == 0;
    assert Pow10(0) == 1;
  }

  /** The prefix rule of `parseFloat`: digits followed by anything that
      cannot continue a decimal literal read as the value of the digits. */
  lemma ParseDigits(digits: string, junk: string)
    requires |digits| > 0 && AllDigits(digits)
    requires junk == [] || (!IsDigit(junk[0]) && junk[0] != '.' && junk[0] != 'e' && junk[0] != 'E')
    ensures ParseFloat(digits + junk) == Some(DigitsValue(digits) as real)
  {
    ReadDigitsLiteral(digits, junk);
    WholeLiteralValue(false, digits);
    ParseOfLiteral(digits + junk, Literal(false, digits, "", 0));
  }

  lemma ReadDigitsLiteral(digits: string, junk: string)
    requires |digits| > 0 && AllDigits(digits)
    requires junk == [] || (!IsDigit(junk[0]) && junk[0] != '.' && junk[0] != 'e' && junk[0] != 'E')
    ensures ReadLiteral(digits + junk) == Some(Literal(false, digits, "", 0))
  {
    ReadDigits(digits, junk);
    assert ExponentPart(junk) == 0;
    assert (digits + junk)[0] == digits[0];
    ReadUnsignedStart(digits + junk);
  }

  lemma ParseOfLiteral(s: string, l: Literal)
    requires ReadLiteral(s) == Some(l)
    ensures ParseFloat(s) == Some(LiteralValue(l))
  {
  }

  lemma {:induction false} DigitRunPrefix(digits: string, junk: string)
    requires AllDigits(digits)
    requires junk == [] || !IsDigit(junk[0])
    ensures DigitRun(digits + junk) == |digits|
  {
    if digits != [] {
      assert (digits + junk)[1..] == digits[1..] + junk;
      DigitRunPrefix(digits[1..], junk);
    } else {
      assert digits + junk == junk;
    }
  }

  /** `parseFloat("12ab")` is 12. */
  lemma ParseFloatPrefixExample()
    ensures ParseFloat("12ab") == Some(12.0)
  {
    ParseDigits("12", "ab");
    assert "12" + "ab" == "12ab";
    assert DigitsValue("12") == 12 by {
      assert "12"[..1] == "1";
    }
  }

  /** The value of the decimal numeral `whole.frac`. */
  function DecimalValue(whole: string, frac: string): real
    requires AllDigits(whole) && AllDigits(frac)
  {
    DigitsValue(whole) as real + DigitsValue(frac) as real / Pow10(|frac|) as real
  }

  /** The text `-?whole(.frac)?`, the fraction part present when `frac` is
      not empty. */
  function DecimalText(negative: bool, whole: string, frac: string): string {
    (if negative then "-" else "") + whole + (if frac == [] then "" else "." + frac)
  }

  /** `parseFloat` reads a complete signed decimal numeral as its exact value. */
  lemma ParseDecimalText(negative: bool, whole: string, frac: string)
    requires |whole| > 0 && AllDigits(whole) && AllDigits(frac)
    ensures ParseFloat(DecimalText(negative, whole, frac)) ==
      Some(if negative then -DecimalValue(whole, frac) else DecimalValue(whole, frac))
  {
    ReadDecimalLiteral(negative, whole, frac);
    DecimalLiteralValue(negative, whole, frac);
    ParseOfLiteral(DecimalText(negative, whole, frac), Literal(negative, whole, frac, 0));
  }

  lemma DecimalLiteralValue(negative: bool, whole: string, frac: string)
    requires AllDigits(whole) && AllDigits(frac) && |whole| > 0
    ensures LiteralValue(Literal(negative, whole, frac, 0)) ==
      if negative then -DecimalValue(whole, frac) else DecimalValue(whole, frac)
  {
    assert Pow10(0) == 1;
  }

  lemma ReadDecimalLiteral(negative: bool, whole: string, frac: string)
    requires |whole| > 0 && AllDigits(whole) && AllDigits(frac)
    ensures ReadLiteral(DecimalText(negative, whole, frac)) == Some(Literal(negative, whole, frac, 0))
  {
    var u := whole + (if frac == [] then "" else "." + frac);
    ReadUnsignedDecimal(whole, frac);
    assert ExponentPart("") == 0;
    assert u[0] == whole[0];
    if negative {
      assert DecimalText(negative, whole, frac) == ['-'] + u;
      ReadSignedStart('-', u);
    } else {
      assert DecimalText(negative, whole, frac) == u;
      ReadUnsignedStart(u);
    }
  }

  lemma ReadUnsignedDecimal(whole: string, frac: string)
    requires |whole| > 0 && AllDigits(whole) && AllDigits(frac)
    ensures ReadUnsigned(whole + (if frac == [] then "" else "." + frac)) == Some((whole, frac, ""))
  {
    if frac == [] {
      ReadDigits(whole, "");
      assert whole + "" == whole;
    } else {
      ReadFraction(whole, frac);
    }
  }

  lemma ReadFraction(whole: string, frac: string)
    requires |whole| > 0 && AllDigits(whole) && AllDigits(frac) && |frac| > 0
    ensures ReadUnsigned(whole + ("." + frac)) == Some((whole, frac, ""))
  {
    var s := whole + ("." + frac);
    DigitRunPrefix(whole, "." + frac);
    assert s[..|whole|] == whole;
    assert s[|whole|..] == "." + frac;
    assert ("." + frac)[1..] == frac;
    DigitRunPrefix(frac, "");
    assert frac + "" == frac;
  }

  /** `Number(x.toFixed(2))`: the nearest multiple of 1/100, a tie going
      away from zero. */
  function ToFixed2(x: real): real {
    if x < 0.0 then -RoundHundredths(-x) else RoundHundredths(x)
  }

  function RoundHundredths(y: real): real {
    (y * 100.0 + 0.5).Floor as real / 100.0
  }

  /** The rounded sum is a whole number of hundredths within half a
      hundredth of the exact sum, and rounding it again changes nothing. */
  lemma ToFixed2Properties(x: real)
    ensures (ToFixed2(x) * 100.0).Floor as real == ToFixed2(x) * 100.0
    ensures -0.005 <= ToFixed2(x) - x <= 0.005
    ensures ToFixed2(ToFixed2(x)) == ToFixed2(x)
  {
    if x < 0.0 {
      var n := RoundHundredthsBounds(-x);
      RoundWholeHundredths(n);
      if n == 0 {
        assert ToFixed2(x) == 0.0;
        RoundWholeHundredths(0);
      } else {
        assert ToFixed2(x) == -(n as real / 100.0);
        assert ToFixed2(ToFixed2(x)) == -RoundHundredths(n as real / 100.0);
      }
      NegatedHundredths(n);
    } else {
      var n := RoundHundredthsBounds(x);
      RoundWholeHundredths(n);
    }
  }

  lemma RoundHundredthsBounds(y: real) returns (n: int)
    requires y >= 0.0
    ensures n >= 0 && RoundHundredths(y) == n as real / 100.0
    ensures -0.005 <= n as real / 100.0 - y <= 0.005
  {
    n := (y * 100.0 + 0.5).Floor;
  }

  lemma RoundWholeHundredths(n: int)
    requires n >= 0
    ensures RoundHundredths(n as real / 100.0) == n as real / 100.0
    ensures ((n as real / 100.0) * 100.0).Floor == n
  {
    var z := n as real / 100.0;
    assert z * 100.0 == n as real;
    assert (z * 100.0 + 0.5).Floor == n;
  }

  lemma NegatedHundredths(n: int)
    ensures ((-(n as real / 100.0)) * 100.0).Floor == -n
  {
    assert (-(n as real / 100.0)) * 100.0 == -(n as real);
  }
}
