/**
 * The values an openpyxl worksheet yields with `values_only=True`, and the
 * Python built-ins the import applies to them: truth value, `str`, and the
 * string grammar shared by `float()` and `decimal.Decimal()`.
 */
module Cells {
  import opened Wrappers
  import opened Text
  import opened Calendar

  type ValidDate = d: Date | Valid(d) witness Date(1, 1, 1)

  /**
   * One cell. A float keeps its value (a `real`) and the text `repr` gives for
   * it, which is what `str()` returns; the model takes that text as given.
   */
  datatype Cell =
    | Empty
    | IntCell(i: int)
    | FloatCell(value: real, repr: string)
    | BoolCell(b: bool)
    | StrCell(s: string)
    | DateCell(date: ValidDate)
    | DateTimeCell(date: ValidDate, hour: nat, minute: nat, second: nat)

  /** Python's truth value of the cell (`bool(value)`); a date is always true. */
  predicate Truthy(c: Cell) {
    match c
    case Empty => false
    case IntCell(i) => i != 0
    case FloatCell(v, _) => v != 0.0
    case BoolCell(b) => b
    case StrCell(s) => s != ""
    case DateCell(_) => true
    case DateTimeCell(_, _, _, _) => true
  }

  /** `any(row)`. */
  predicate AnyTruthy(row: seq<Cell>) {
    exists k :: 0 <= k < |row| && Truthy(row[k])
  }

  /** Python's `str(value)`; note that `str(None)` is the text `None`. */
  function Str(c: Cell): string {
    match c
    case Empty => "None"
    case IntCell(i) => IntToString(i)
    case FloatCell(_, r) => r
    case BoolCell(b) => if b then "True" else "False"
    case StrCell(s) => s
    case DateCell(d) => IsoFormat(d)
    case DateTimeCell(d, h, m, s) =>
      IsoFormat(d) + " " + PadDigits(h, 2) + ":" + PadDigits(m, 2) + ":" + PadDigits(s, 2)
  }

  /**
   * A float cell whose `repr` reads back to its value under `Decimal` and
   * `float`, as the `repr` of every finite Python float does.
   */
  predicate FloatText(c: Cell) {
    c.FloatCell? && ParseDecimal(c.repr) == Some(c.value) && ParseFloat(c.repr) == Some(c.value)
  }

  // ---------------------------------------------------------------------------
  // Numeric strings: optional surrounding whitespace, optional sign, digits with
  // an optional decimal point (at least one digit), optional exponent.

  predicate IsExpMark(c: char) {
    c == 'e' || c == 'E'
  }

  /** The index of the first exponent mark in `s`, or `|s|`. */
  function ExpIndex(s: string): (k: nat)
    ensures k <= |s|
    ensures forall j :: 0 <= j < k ==> !IsExpMark(s[j])
    ensures k < |s| ==> IsExpMark(s[k])
  {
    if s == [] then 0
    else if IsExpMark(s[0]) then 0
    else 1 + ExpIndex(s[1..])
  }

  /** The index of the first `.` in `s`, or `|s|`. */
  function PointIndex(s: string): (k: nat)
    ensures k <= |s|
    ensures forall j :: 0 <= j < k ==> s[j] != '.'
    ensures k < |s| ==> s[k] == '.'
  {
    if s == [] then 0
    else if s[0] == '.' then 0
    else 1 + PointIndex(s[1..])
  }

  function Scale(r: real, e: int): real
    decreases if e < 0 then -e else e
  {
    if e == 0 then r
    else if e > 0 then Scale(r * 10.0, e - 1)
    else Scale(r / 10.0, e + 1)
  }

  /** A signed digit string: `+12`, `-3`, `7`. */
  function ParseSignedDigits(s: string): Option<int> {
    if |s| > 0 && (s[0] == '+' || s[0] == '-') then
      var body := s[1..];
      if |body| > 0 && AllDigits(body) then
        var v: int := DigitsValue(body);
        Some(if s[0] == '-' then -v else v)
      else None
    else if |s| > 0 && AllDigits(s) then Some(DigitsValue(s))
    else None
  }

  /** The value of the digits after a decimal point: `FracValue("25") == 0.25`. */
  function FracValue(s: string): (r: real)
    requires AllDigits(s)
    ensures 0.0 <= r < 1.0
  {
    if s == [] then 0.0 else (DigitValue(s[0]) as real + FracValue(s[1..])) / 10.0
  }

  /** `12`, `12.`, `12.5`, `.5`: digits around at most one point, at least one digit. */
  function ParseMantissa(s: string): Option<real> {
    var p := PointIndex(s);
    var whole := s[..p];
    if p == |s| then
      if AllDigits(whole) && |whole| > 0 then Some(DigitsValue(whole) as real) else None
    else
      var frac := s[p + 1..];
      if AllDigits(whole) && AllDigits(frac) && |whole| + |frac| > 0 then
        Some(DigitsValue(whole) as real + FracValue(frac))
      else None
  }

  /** The unsigned part: a mantissa and an optional exponent. */
  function ParseUnsigned(u: string): Option<real> {
    var e := ExpIndex(u);
    var mantissa := ParseMantissa(u[..e]);
    if mantissa.None? then None
    else if e == |u| then mantissa
    else
      var exponent := ParseSignedDigits(u[e + 1..]);
      if exponent.None? then None else Some(Scale(mantissa.value, exponent.value))
  }

  /**
   * The grammar `Decimal` and `float` share, on a text without underscores:
   * surrounding whitespace, an optional sign, then the unsigned part.
   */
  function ParseNumber(s: string): Option<real> {
    ParseSigned(Strip(s))
  }

  /**
   * `decimal.Decimal(s)` on a string, for a finite number: the surrounding
   * whitespace is dropped, then every underscore, wherever it stands; the
   * result is the value written, or `None` where `Decimal` raises
   * `InvalidOperation`. The texts of the non-finite values (`NaN`, `sNaN`,
   * `Infinity`, `Inf`) give `None` too.
   */
  function ParseDecimal(s: string): Option<real> {
    ParseSigned(RemoveChar(Strip(s), '_'))
  }

  /** Every underscore of `t` stands between two digits, as `float` demands. */
  predicate GroupingUnderscores(t: string) {
    forall k :: 0 <= k < |t| && t[k] == '_' ==> 0 < k < |t| - 1 && IsDigit(t[k - 1]) && IsDigit(t[k + 1])
  }

  /**
   * The whitespace `float()` strips: ASCII space, tab, line feed, vertical
   * tab, form feed and carriage return, and the non-ASCII `str.isspace`
   * characters. Unlike `str.strip()` it keeps the information separators.
   */
  predicate IsFloatSpace(c: char) {
    IsSpace(c) && !IsSeparator(c)
  }

  /** The first index at or after `i` that does not hold `float` whitespace (or `|s|`). */
  function SkipFloatSpaces(s: string, i: nat): (j: nat)
    requires i <= |s|
    ensures i <= j <= |s|
    ensures forall k :: i <= k < j ==> IsFloatSpace(s[k])
    ensures j == |s| || !IsFloatSpace(s[j])
    decreases |s| - i
  {
    if i < |s| && IsFloatSpace(s[i]) then SkipFloatSpaces(s, i + 1) else i
  }

  /** The end of `s[lo..j]` once its trailing `float` whitespace is dropped. */
  function TrimFloatEnd(s: string, lo: nat, j: nat): (e: nat)
    requires lo <= j <= |s|
    ensures lo <= e <= j
    ensures forall k :: e <= k < j ==> IsFloatSpace(s[k])
    ensures e == lo || !IsFloatSpace(s[e - 1])
    decreases j
  {
    if j > lo && IsFloatSpace(s[j - 1]) then TrimFloatEnd(s, lo, j - 1) else j
  }

  /** The text `float()` parses once it has dropped the surrounding whitespace it knows. */
  function FloatStrip(s: string): (r: string)
    ensures r == [] || (!IsFloatSpace(r[0]) && !IsFloatSpace(r[|r| - 1]))
  {
    var i := SkipFloatSpaces(s, 0);
    s[i..TrimFloatEnd(s, i, |s|)]
  }

  /**
   * `float(s)` on a string, for a finite number: the surrounding `float`
   * whitespace is dropped, an underscore must stand between two digits and
   * is then ignored; the result is the value written, or `None` where
   * `float` raises `ValueError`. The texts of the non-finite values (`nan`,
   * `inf`, `infinity`) give `None` too, and no value is rounded to a binary
   * float.
   */
  function ParseFloat(s: string): Option<real> {
    var t := FloatStrip(s);
    if GroupingUnderscores(t) then ParseSigned(RemoveChar(t, '_')) else None
  }

  /** An optional sign, then the unsigned part. */
  function ParseSigned(t: string): Option<real> {
    if |t| > 0 && (t[0] == '+' || t[0] == '-') then
      Negate(ParseUnsigned(t[1..]), t[0] == '-')
    else ParseUnsigned(t)
  }

  function Negate(u: Option<real>, negative: bool): Option<real> {
    if u.None? then None else Some(if negative then -u.value else u.value)
  }

  /** `int(x)` on a float: truncation toward zero. */
  function Trunc(r: real): (i: int)
    ensures r >= 0.0 ==> i as real <= r < i as real + 1.0
    ensures r < 0.0 ==> i as real - 1.0 < r <= i as real
  {
    if r >= 0.0 then r.Floor else -((-r).Floor)
  }

  // ---------------------------------------------------------------------------
  // `Decimal` and `float`

  /**
   * A text without underscores and without information separators reads the
   * same under `Decimal`, `float` and the shared grammar.
   */
  lemma NoUnderscoreReadsAlike(s: string)
    requires forall k :: 0 <= k < |s| ==> s[k] != '_' && !IsSeparator(s[k])
    ensures ParseDecimal(s) == ParseNumber(s) && ParseFloat(s) == ParseNumber(s)
  {
    var t := Strip(s);
    NoUnderscoreStripped(s);
    assert RemoveChar(t, '_') == t;
    assert GroupingUnderscores(t);
    var i := SkipFloatSpaces(s, 0);
    assert FloatStrip(s) == s[i..TrimFloatEnd(s, i, |s|)];
    FloatStripIsStrip(s);
  }

  /**
   * Where what `float` keeps neither starts nor ends with an information
   * separator, `float` and `str.strip()` drop the same whitespace.
   */
  lemma FloatStripIsStrip(s: string)
    requires var t := FloatStrip(s); t == [] || (!IsSeparator(t[0]) && !IsSeparator(t[|t| - 1]))
    ensures FloatStrip(s) == Strip(s)
  {
    var i := SkipFloatSpaces(s, 0);
    var e := TrimFloatEnd(s, i, |s|);
    var j := SkipSpaces(s, 0);
    if i == e {
      assert i == |s|;
      assert j == |s|;
    } else {
      assert !IsSpace(s[i]) && !IsSpace(s[e - 1]);
      assert j == i;
      assert TrimEnd(s, i, |s|) == e;
    }
  }

  /** A text that starts or ends with an information separator is not a number. */
  lemma SeparatorEdgeNotNumber(u: string)
    requires |u| > 0 && (IsSeparator(u[0]) || IsSeparator(u[|u| - 1]))
    ensures ParseSigned(u).None?
  {
    if IsSeparator(u[0]) {
      SeparatorHeadNotUnsigned(u);
    } else if u[0] == '+' || u[0] == '-' {
      var v := u[1..];
      if |v| > 0 {
        assert v[|v| - 1] == u[|u| - 1];
        SeparatorLastNotUnsigned(v);
      }
    } else {
      SeparatorLastNotUnsigned(u);
    }
  }

  lemma SeparatorHeadNotUnsigned(v: string)
    requires |v| > 0 && IsSeparator(v[0])
    ensures ParseUnsigned(v).None?
  {
    var e := ExpIndex(v);
    if e > 0 {
      var m := v[..e];
      var p := PointIndex(m);
      assert p > 0;
      SeparatorNotDigits(m[..p], 0);
    }
  }

  lemma SeparatorLastNotUnsigned(v: string)
    requires |v| > 0 && IsSeparator(v[|v| - 1])
    ensures ParseUnsigned(v).None?
  {
    var e := ExpIndex(v);
    if e == |v| {
      assert v[..e] == v;
      SeparatorLastNotMantissa(v);
    } else {
      assert e + 1 < |v|;
      var x := v[e + 1..];
      assert x[|x| - 1] == v[|v| - 1];
      SeparatorNotDigits(x, |x| - 1);
      if |x| > 1 {
        SeparatorNotDigits(x[1..], |x| - 2);
      }
    }
  }

  lemma SeparatorLastNotMantissa(m: string)
    requires |m| > 0 && IsSeparator(m[|m| - 1])
    ensures ParseMantissa(m).None?
  {
    var p := PointIndex(m);
    if p == |m| {
      SeparatorNotDigits(m[..p], |m| - 1);
    } else {
      assert p < |m| - 1;
      SeparatorNotDigits(m[p + 1..], |m| - p - 2);
    }
  }

  lemma SeparatorNotDigits(s: string, k: int)
    requires 0 <= k < |s| && IsSeparator(s[k])
    ensures !AllDigits(s)
  {
    if IsDigit(s[k]) {
      DigitNotSpace(s[k]);
    }
  }

  lemma NoUnderscoreStripped(s: string)
    requires forall k :: 0 <= k < |s| ==> s[k] != '_'
    ensures forall k :: 0 <= k < |Strip(s)| ==> Strip(s)[k] != '_'
  {
    StripIsInfix(s);
    var t := Strip(s);
    var i :| StrippedAt(s, t, i);
    assert forall k :: 0 <= k < |t| ==> t[k] == s[i + k];
  }

  /** Whatever `float` reads, `Decimal` reads to the same value. */
  lemma FloatReadsAsDecimal(s: string)
    ensures ParseFloat(s).Some? ==> ParseDecimal(s) == ParseFloat(s)
  {
    var t := FloatStrip(s);
    if ParseFloat(s).Some? {
      var u := RemoveChar(t, '_');
      if t != [] {
        var n := |t| - 1;
        assert t[0] != '_' && t[n] != '_';
        assert u[0] == t[0] by {
          assert t == [t[0]] + t[1..];
          RemoveCharAppend([t[0]], t[1..], '_');
          RemoveCharOne(t[0], '_');
        }
        assert u[|u| - 1] == t[n] by {
          assert t == t[..n] + [t[n]];
          RemoveCharAppend(t[..n], [t[n]], '_');
          RemoveCharOne(t[n], '_');
        }
        if IsSeparator(t[0]) || IsSeparator(t[n]) {
          SeparatorEdgeNotNumber(u);
        }
      }
      FloatStripIsStrip(s);
    }
  }

  /**
   * A leading information separator: `str.strip()` drops it, so `Decimal`
   * reads the number, while `float` keeps it and raises.
   */
  lemma SeparatorSplitsReadings()
    ensures ParseDecimal("\U{1C}5") == Some(5.0)
    ensures ParseFloat("\U{1C}5") == None
  {
    var s := "\U{1C}5";
    assert SkipSpaces(s, 0) == 1 by {
      assert IsSpace(s[0]) && !IsSpace(s[1]);
    }
    assert Strip(s) == "5";
    assert RemoveChar("5", '_') == "5";
    assert ParseNumber("5") == Some(5.0) by {
      DigitsParse("5");
      UnsignedDigits("5");
    }
    assert FloatStrip(s) == s by {
      assert !IsFloatSpace(s[0]) && !IsFloatSpace(s[1]);
    }
    assert GroupingUnderscores(s);
    assert RemoveChar(s, '_') == s;
    SeparatorEdgeNotNumber(s);
  }

  // ---------------------------------------------------------------------------
  // What the parser accepts

  lemma DigitsMantissa(s: string)
    requires |s| > 0 && AllDigits(s)
    ensures ParseMantissa(s) == Some(DigitsValue(s) as real)
  {
    NoPointInDigits(s);
    assert s[..|s|] == s;
  }

  lemma {:induction false} NoPointInDigits(s: string)
    requires AllDigits(s)
    ensures PointIndex(s) == |s|
  {
    if s != [] {
      assert IsDigit(s[0]);
      assert AllDigits(s[1..]) by {
        assert forall k :: 0 <= k < |s| - 1 ==> s[1..][k] == s[k + 1];
      }
      NoPointInDigits(s[1..]);
    }
  }

  lemma DigitsParse(s: string)
    requires |s| > 0 && AllDigits(s)
    ensures ParseUnsigned(s) == Some(DigitsValue(s) as real)
  {
    assert forall j :: 0 <= j < |s| ==> !IsExpMark(s[j]);
    var e := ExpIndex(s);
    assert e == |s|;
    assert s[..e] == s;
    DigitsMantissa(s);
  }

  lemma ParsePlain(t: string)
    requires |t| > 0 && !IsSpace(t[0]) && !IsSpace(t[|t| - 1]) && t[0] != '+' && t[0] != '-'
    ensures ParseNumber(t) == ParseUnsigned(t)
  {
    StripUnchanged(t);
  }

  lemma ParseNegated(d: string)
    requires |d| > 0 && !IsSpace(d[|d| - 1])
    ensures ParseNumber("-" + d) == Negate(ParseUnsigned(d), true)
  {
    var t := "-" + d;
    StripUnchanged(t);
    assert t[1..] == d;
    assert ParseSigned(t) == Negate(ParseUnsigned(d), true);
  }

  /** A digit string neither starts nor ends with a space or a sign. */
  lemma DigitEnds(d: string)
    requires |d| > 0 && AllDigits(d)
    ensures !IsSpace(d[0]) && !IsSpace(d[|d| - 1]) && d[0] != '+' && d[0] != '-'
  {
    assert IsDigit(d[0]) && IsDigit(d[|d| - 1]);
  }

  /** A digit string, alone or after a minus sign, reaches the unsigned parser unchanged. */
  lemma UnsignedDigits(d: string)
    requires |d| > 0 && AllDigits(d)
    ensures ParseNumber(d) == ParseUnsigned(d)
  {
    DigitEnds(d);
    ParsePlain(d);
  }

  lemma NegatedDigits(d: string, x: real)
    requires |d| > 0 && AllDigits(d) && ParseUnsigned(d) == Some(x)
    ensures ParseNumber("-" + d) == Some(-x)
  {
    DigitEnds(d);
    ParseNegated(d);
  }

  /** The decimal spelling of a natural number parses back to it. */
  lemma NatDigitsParse(n: nat)
    ensures |NatToString(n)| > 0 && AllDigits(NatToString(n))
    ensures ParseUnsigned(NatToString(n)) == Some(n as real)
  {
    DigitsParse(NatToString(n));
  }

  /** `Decimal(str(i))` and `float(str(i))` give the integer back. */
  lemma ParseIntToString(i: int)
    ensures ParseNumber(IntToString(i)) == Some(i as real)
    ensures ParseDecimal(IntToString(i)) == Some(i as real)
    ensures ParseFloat(IntToString(i)) == Some(i as real)
  {
    if i < 0 {
      NegativeIntParse(i);
    } else {
      NatIntParse(i);
    }
    IntTextChars(i);
    NoUnderscoreReadsAlike(IntToString(i));
  }

  /** `str(i)` holds ASCII digits and, for a negative `i`, a leading minus sign. */
  lemma IntTextChars(i: int)
    ensures forall k :: 0 <= k < |IntToString(i)| ==> IsAsciiDigit(IntToString(i)[k]) || IntToString(i)[k] == '-'
  {
    var d := NatToString(if i < 0 then -i else i);
    if i < 0 {
      assert IntToString(i) == "-" + d;
      assert forall k :: 1 <= k < |IntToString(i)| ==> IntToString(i)[k] == d[k - 1];
    }
  }

  /** A string of decimal digits, in any script, reads as its value under both `Decimal` and `float`. */
  lemma DigitTextReads(d: string)
    requires |d| > 0 && AllDigits(d)
    ensures ParseDecimal(d) == Some(DigitsValue(d) as real)
    ensures ParseFloat(d) == Some(DigitsValue(d) as real)
  {
    assert forall k :: 0 <= k < |d| ==> d[k] != '_' by {
      forall k | 0 <= k < |d| ensures d[k] != '_' {
        assert IsDigit(d[k]);
      }
    }
    NoUnderscoreReadsAlike(d);
    UnsignedDigits(d);
    DigitsParse(d);
  }

  /** Arabic-Indic digits are digits: "١٠٠٠" reads as 1000. */
  lemma ArabicIndicThousand()
    ensures ParseDecimal("١٠٠٠") == Some(1000.0)
    ensures ParseFloat("١٠٠٠") == Some(1000.0)
  {
    ArabicIndicThousandValue();
    DigitTextReads("١٠٠٠");
  }

  lemma ArabicIndicThousandValue()
    ensures AllDigits("١٠٠٠") && DigitsValue("١٠٠٠") == 1000
  {
    var s := "١٠٠٠";
    assert OtherDigitZeros[|OtherDigitZeros| - 1] == 0x660;
    assert ZeroAmong(0x660, |OtherDigitZeros|) == 0x660;
    assert ZeroAmong(0x661, |OtherDigitZeros|) == 0x660;
    assert forall k :: 0 <= k < |s| ==> s[k] == '٠' || s[k] == '١';
    assert DigitValue('١') == 1 && DigitValue('٠') == 0;
    assert s[..1][..0] == [];
    assert DigitsValue(s[..1]) == 1;
    assert s[..2][..1] == s[..1];
    assert DigitsValue(s[..2]) == 10;
    assert s[..3][..2] == s[..2];
    assert DigitsValue(s[..3]) == 100;
    assert s[..|s| - 1] == s[..3];
  }

  /** `str` of a negative integer is a minus sign and the digits of its magnitude. */
  lemma NegativeIntParse(i: int)
    requires i < 0
    ensures ParseNumber(IntToString(i)) == Some(i as real)
  {
    NegatedMagnitudeParse(i);
  }

  lemma NegatedMagnitudeParse(i: int)
    requires i < 0
    ensures ParseNumber("-" + NatToString(-i)) == Some(i as real)
  {
    NatDigitsParse(-i);
    NegatedDigits(NatToString(-i), (-i) as real);
  }

  lemma NatIntParse(i: int)
    requires i >= 0
    ensures ParseNumber(IntToString(i)) == Some(i as real)
  {
    NatDigitsParse(i);
    UnsignedDigits(NatToString(i));
  }

  /** Python accepts grouping commas in neither `Decimal` nor `float`. */
  lemma CommaRejected()
    ensures ParseNumber("1,000") == None
    ensures ParseDecimal("1,000") == None && ParseFloat("1,000") == None
  {
    CommaTextNotNumber();
    NoUnderscoreReadsAlike("1,000");
  }

  lemma CommaTextNotNumber()
    ensures ParseNumber("1,000") == None
  {
    var s := "1,000";
    StripUnchanged(s);
    assert forall j :: 0 <= j < |s| ==> !IsExpMark(s[j]) && s[j] != '.';
    assert ExpIndex(s) == |s| && PointIndex(s) == |s|;
    assert !IsDigit(s[1]);
  }

  lemma ThousandParsed()
    ensures ParseNumber("1000") == Some(1000.0)
    ensures ParseDecimal("1000") == Some(1000.0) && ParseFloat("1000") == Some(1000.0)
  {
    assert "1000" == IntToString(1000) by {
      assert NatToString(1000) == NatToString(100) + "0";
      assert NatToString(100) == NatToString(10) + "0";
      assert NatToString(10) == "1" + "0";
    }
    ParseIntToString(1000);
  }

  /**
   * Underscores: `float` takes one only between two digits, `Decimal` drops
   * every one, so "1_000" reads as 1000 under both, while "1__000" and
   * "_1000" read only under `Decimal`.
   */
  lemma UnderscoreGrouping()
    ensures ParseFloat("1_000") == Some(1000.0) && ParseDecimal("1_000") == Some(1000.0)
    ensures ParseFloat("1__000") == None && ParseDecimal("1__000") == Some(1000.0)
    ensures ParseFloat("_1000") == None && ParseDecimal("_1000") == Some(1000.0)
  {
    GroupedThousand();
    DoubledUnderscore();
    LeadingUnderscore();
  }

  /** "1000" is its own `strip()` and reads as 1000 once it gets there. */
  lemma PlainThousand()
    ensures ParseSigned("1000") == Some(1000.0)
  {
    ThousandParsed();
    StripUnchanged("1000");
  }

  lemma GroupedThousand()
    ensures ParseFloat("1_000") == Some(1000.0) && ParseDecimal("1_000") == Some(1000.0)
  {
    var a := "1_000";
    StripUnchanged(a);
    assert RemoveChar(a, '_') == "1000" by {
      assert RemoveChar("000", '_') == "000";
      assert a[1..] == "_000" && a[1..][1..] == "000";
    }
    assert GroupingUnderscores(a) by {
      assert forall k :: 0 <= k < |a| && a[k] == '_' ==> k == 1;
    }
    PlainThousand();
  }

  lemma DoubledUnderscore()
    ensures ParseFloat("1__000") == None && ParseDecimal("1__000") == Some(1000.0)
  {
    var b := "1__000";
    StripUnchanged(b);
    assert RemoveChar(b, '_') == "1000" by {
      assert RemoveChar("000", '_') == "000";
      assert b[1..] == "__000" && b[1..][1..] == "_000" && b[1..][1..][1..] == "000";
    }
    assert !GroupingUnderscores(b) by {
      assert b[1] == '_' && !IsDigit(b[2]);
    }
    PlainThousand();
  }

  lemma LeadingUnderscore()
    ensures ParseFloat("_1000") == None && ParseDecimal("_1000") == Some(1000.0)
  {
    var c := "_1000";
    StripUnchanged(c);
    assert RemoveChar(c, '_') == "1000" by {
      assert c[1..] == "1000";
      assert RemoveChar("1000", '_') == "1000";
    }
    assert !GroupingUnderscores(c) by {
      assert c[0] == '_';
    }
    PlainThousand();
  }

  /** `FloatCell(2.5, "2.5")`, the cell openpyxl gives for 2.5, reads back to its value. */
  lemma HalfCellText()
    ensures FloatText(FloatCell(2.5, "2.5"))
  {
    HalfNumber();
    assert forall k :: 0 <= k < |"2.5"| ==> "2.5"[k] != '_';
    NoUnderscoreReadsAlike("2.5");
  }

  lemma HalfNumber()
    ensures ParseNumber("2.5") == Some(2.5)
  {
    ParsePlain("2.5");
    HalfParsed();
  }

  lemma HalfParsed()
    ensures ParseUnsigned("2.5") == Some(2.5)
  {
    var t := "2.5";
    assert ExpIndex(t) == 3 by {
      assert t[1..] == ".5" && t[1..][1..] == "5" && t[1..][1..][1..] == [];
    }
    assert t[..3] == t;
    HalfMantissa();
  }

  lemma HalfMantissa()
    ensures ParseMantissa("2.5") == Some(2.5)
  {
    var t := "2.5";
    assert PointIndex(t) == 1 by {
      assert t[1..] == ".5";
    }
    assert t[..1] == "2" && t[2..] == "5";
    assert DigitsValue("2") == 2 by {
      assert "2"[..0] == [];
    }
    assert FracValue("5") == 0.5 by {
      assert "5"[1..] == [];
    }
  }
}
