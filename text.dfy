/**
 * Character and string helpers that stand for the Python string methods the
 * import code calls: `str.strip`, `str.lower`, `in` on strings, `str.replace`
 * with a one-character pattern, `str.split`, and decimal digit strings.
 */
module Text {

  /** Python's `str.isspace`, which is also what `\s` matches in a `re` pattern on `str`. */
  predicate IsSpace(c: char) {
    var n := c as int;
    n == 0x20 || 0x09 <= n <= 0x0D || 0x1C <= n <= 0x1F || n == 0x85 || n == 0xA0
    || n == 0x1680 || 0x2000 <= n <= 0x200A || n == 0x2028 || n == 0x2029
    || n == 0x202F || n == 0x205F || n == 0x3000
  }

  /**
   * The ASCII information separators U+001C..U+001F: `str.isspace` counts
   * them as whitespace, but `float()` does not strip them.
   */
  predicate IsSeparator(c: char) {
    0x1C <= c as int <= 0x1F
  }

  /** The first index at or after `i` that does not hold whitespace (or `|s|`). */
  function SkipSpaces(s: string, i: nat): (j: nat)
    requires i <= |s|
    ensures i <= j <= |s|
    ensures forall k :: i <= k < j ==> IsSpace(s[k])
    ensures j == |s| || !IsSpace(s[j])
    decreases |s| - i
  {
    if i < |s| && IsSpace(s[i]) then SkipSpaces(s, i + 1) else i
  }

  /** The end of `s[lo..j]` once its trailing whitespace is dropped. */
  function TrimEnd(s: string, lo: nat, j: nat): (e: nat)
    requires lo <= j <= |s|
    ensures lo <= e <= j
    ensures forall k :: e <= k < j ==> IsSpace(s[k])
    ensures e == lo || !IsSpace(s[e - 1])
    decreases j
  {
    if j > lo && IsSpace(s[j - 1]) then TrimEnd(s, lo, j - 1) else j
  }

  /** `r` sits at position `i` of `s` with only whitespace around it. */
  predicate StrippedAt(s: string, r: string, i: int) {
    && 0 <= i <= |s| - |r|
    && s[i..i + |r|] == r
    && (forall k :: 0 <= k < i ==> IsSpace(s[k]))
    && (forall k :: i + |r| <= k < |s| ==> IsSpace(s[k]))
  }

  /**
   * `s.strip()`: the result is the infix of `s` left once the leading and the
   * trailing whitespace runs are removed; it neither starts nor ends with whitespace.
   */
  function Strip(s: string): (r: string)
    ensures r == [] || (!IsSpace(r[0]) && !IsSpace(r[|r| - 1]))
  {
    var i := SkipSpaces(s, 0);
    s[i..TrimEnd(s, i, |s|)]
  }

  /** What `strip()` keeps is an infix of the string with only whitespace around it. */
  lemma StripIsInfix(s: string)
    ensures exists i :: StrippedAt(s, Strip(s), i)
  {
    var i := SkipSpaces(s, 0);
    assert StrippedAt(s, Strip(s), i);
  }

  /** A string that has no whitespace at either end is its own `strip()`. */
  lemma StripUnchanged(s: string)
    requires s == [] || (!IsSpace(s[0]) && !IsSpace(s[|s| - 1]))
    ensures Strip(s) == s
  {
  }

  /** `c.lower()` for the ASCII letters; every other character is kept. */
  function LowerChar(c: char): char {
    if 'A' <= c <= 'Z' then (c as int + 32) as char else c
  }

  function Lower(s: string): (r: string)
    ensures |r| == |s|
    ensures forall k :: 0 <= k < |s| ==> r[k] == LowerChar(s[k])
  {
    seq(|s|, k requires 0 <= k < |s| => LowerChar(s[k]))
  }

  /** `sub` occurs in `s` at position `i`. */
  predicate MatchesAt(s: string, sub: string, i: nat) {
    i + |sub| <= |s| && s[i..i + |sub|] == sub
  }

  predicate ContainsFrom(s: string, sub: string, i: nat)
    decreases |s| - i
  {
    i + |sub| <= |s| && (MatchesAt(s, sub, i) || ContainsFrom(s, sub, i + 1))
  }

  /** Python's `sub in s` for two strings. */
  predicate Contains(s: string, sub: string) {
    ContainsFrom(s, sub, 0)
  }

  /** `any(k in s for k in keywords)`. */
  predicate ContainsAny(s: string, keywords: seq<string>) {
    exists k :: 0 <= k < |keywords| && Contains(s, keywords[k])
  }

  lemma {:induction false} ContainsFromWitness(s: string, sub: string, i: nat, j: nat)
    requires i <= j && MatchesAt(s, sub, j)
    ensures ContainsFrom(s, sub, i)
    decreases j - i
  {
    if i < j {
      ContainsFromWitness(s, sub, i + 1, j);
    }
  }

  /** An occurrence at any position makes `sub in s` true. */
  lemma MatchMakesContains(s: string, sub: string, j: nat)
    ensures MatchesAt(s, sub, j) ==> Contains(s, sub)
  {
    if MatchesAt(s, sub, j) {
      ContainsFromWitness(s, sub, 0, j);
    }
  }

  lemma {:induction false} ContainsFromMatch(s: string, sub: string, i: nat)
    requires ContainsFrom(s, sub, i)
    ensures exists j: nat :: i <= j && MatchesAt(s, sub, j)
    decreases |s| - i
  {
    if !MatchesAt(s, sub, i) {
      ContainsFromMatch(s, sub, i + 1);
    }
  }

  /** `sub in s` holds exactly when `sub` occurs at some position of `s`. */
  lemma ContainsIffMatch(s: string, sub: string)
    ensures Contains(s, sub) <==> exists j: nat :: MatchesAt(s, sub, j)
  {
    if Contains(s, sub) {
      ContainsFromMatch(s, sub, 0);
    }
    forall j: nat | MatchesAt(s, sub, j) ensures Contains(s, sub) {
      MatchMakesContains(s, sub, j);
    }
  }

  lemma {:induction false} AbsentHeadFrom(s: string, sub: string, i: nat)
    requires |sub| > 0 && forall k :: 0 <= k < |s| ==> s[k] != sub[0]
    ensures !ContainsFrom(s, sub, i)
    decreases |s| - i
  {
    if i + |sub| <= |s| {
      assert s[i..i + |sub|][0] == s[i];
      AbsentHeadFrom(s, sub, i + 1);
    }
  }

  /** A non-empty pattern whose first character never occurs in `s` is not in `s`. */
  lemma AbsentHead(s: string, sub: string)
    requires |sub| > 0 && forall k :: 0 <= k < |s| ==> s[k] != sub[0]
    ensures !Contains(s, sub)
  {
    AbsentHeadFrom(s, sub, 0);
  }

  /** `s.replace(c, '')` for a single character `c`. */
  function RemoveChar(s: string, c: char): (r: string)
    ensures |r| <= |s|
    ensures forall k :: 0 <= k < |r| ==> r[k] != c
    ensures (forall k :: 0 <= k < |s| ==> s[k] != c) ==> r == s
  {
    if s == [] then []
    else if s[0] == c then RemoveChar(s[1..], c)
    else [s[0]] + RemoveChar(s[1..], c)
  }

  /** Every other character is kept as often as it occurs. */
  lemma {:induction false} RemoveCharCounts(s: string, c: char)
    ensures multiset(RemoveChar(s, c)) == multiset(s)[c := 0]
  {
    if s != [] {
      assert s == [s[0]] + s[1..];
      RemoveCharCounts(s[1..], c);
    }
  }

  /** Removal works piece by piece, so the kept characters stay in their order. */
  lemma {:induction false} RemoveCharAppend(a: string, b: string, c: char)
    ensures RemoveChar(a + b, c) == RemoveChar(a, c) + RemoveChar(b, c)
  {
    if a == [] {
      assert a + b == b;
    } else {
      assert (a + b)[0] == a[0] && (a + b)[1..] == a[1..] + b;
      RemoveCharAppend(a[1..], b, c);
    }
  }

  /** One character is dropped when it is `c` and kept otherwise. */
  lemma RemoveCharOne(x: char, c: char)
    ensures RemoveChar([x], c) == if x == c then [] else [x]
  {
    assert [x][1..] == [];
  }

  /** `s.split(c)`: the pieces between occurrences of `c`, at least one piece. */
  function Split(s: string, c: char): (r: seq<string>)
    ensures |r| >= 1
    ensures forall p :: 0 <= p < |r| ==> forall k :: 0 <= k < |r[p]| ==> r[p][k] != c
  {
    if s == [] then [[]]
    else
      var rest := Split(s[1..], c);
      if s[0] == c then [[]] + rest else [[s[0]] + rest[0]] + rest[1..]
  }

  /** Joining the pieces with `c` gives the string back. */
  function Join(pieces: seq<string>, c: char): string
    requires |pieces| >= 1
  {
    if |pieces| == 1 then pieces[0] else pieces[0] + [c] + Join(pieces[1..], c)
  }

  lemma {:induction false} SplitJoin(s: string, c: char)
    ensures Join(Split(s, c), c) == s
  {
    if s != [] {
      SplitJoin(s[1..], c);
      var rest := Split(s[1..], c);
      if s[0] != c {
        if |rest| == 1 {
          assert Split(s, c) == [[s[0]] + rest[0]];
        } else {
          calc {
            Join(Split(s, c), c);
            ([s[0]] + rest[0]) + [c] + Join(rest[1..], c);
            [s[0]] + (rest[0] + [c] + Join(rest[1..], c));
            [s[0]] + Join(rest, c);
          }
        }
      }
    }
  }

  /** Splitting a join of separator-free pieces gives the pieces back. */
  lemma {:induction false} JoinSplit(pieces: seq<string>, c: char)
    requires |pieces| >= 1
    requires forall p :: 0 <= p < |pieces| ==> forall k :: 0 <= k < |pieces[p]| ==> pieces[p][k] != c
    ensures Split(Join(pieces, c), c) == pieces
  {
    if |pieces| == 1 {
      SplitNoSeparator(pieces[0], c);
    } else {
      JoinSplit(pieces[1..], c);
      SplitPrefix(pieces[0], Join(pieces[1..], c), c);
      assert pieces == [pieces[0]] + pieces[1..];
    }
  }

  lemma {:induction false} SplitNoSeparator(s: string, c: char)
    requires forall k :: 0 <= k < |s| ==> s[k] != c
    ensures Split(s, c) == [s]
  {
    if s != [] {
      SplitNoSeparator(s[1..], c);
      assert [s[0]] + s[1..] == s;
    }
  }

  lemma {:induction false} SplitPrefix(a: string, b: string, c: char)
    requires forall k :: 0 <= k < |a| ==> a[k] != c
    ensures Split(a + [c] + b, c) == [a] + Split(b, c)
  {
    if a == [] {
      assert a + [c] + b == [c] + b;
      assert ([c] + b)[1..] == b;
    } else {
      var t := a + [c] + b;
      assert t[1..] == a[1..] + [c] + b;
      SplitPrefix(a[1..], b, c);
      assert [a[0]] + a[1..] == a;
    }
  }

  // ---------------------------------------------------------------------------
  // Decimal digits

  /** An ASCII digit, `0` to `9`. */
  predicate IsAsciiDigit(c: char) {
    '0' <= c <= '9'
  }

  /**
   * The code points that start, beyond ASCII, a run of ten decimal digits
   * (from the digit zero to the digit nine), in decreasing order. Together
   * with `0` to `9` these runs are the Unicode 15.0 characters of category
   * `Nd`: what `\d` matches in a `re` pattern on `str`, and what `int`,
   * `float` and `decimal.Decimal` read as digits.
   */
  const OtherDigitZeros: seq<int> := [
    0x1FBF0, 0x1E950, 0x1E4F0, 0x1E2F0, 0x1E140, 0x1D7F6, 0x1D7EC, 0x1D7E2,
    0x1D7D8, 0x1D7CE, 0x16B50, 0x16AC0, 0x16A60, 0x11F50, 0x11DA0, 0x11D50,
    0x11C50, 0x11950, 0x118E0, 0x11730, 0x116C0, 0x11650, 0x114D0, 0x11450,
    0x112F0, 0x111D0, 0x11136, 0x110F0, 0x11066, 0x10D30, 0x104A0, 0xFF10,
    0xABF0, 0xAA50, 0xA9F0, 0xA9D0, 0xA900, 0xA8D0, 0xA620, 0x1C50,
    0x1C40, 0x1BB0, 0x1B50, 0x1A90, 0x1A80, 0x19D0, 0x1946, 0x1810,
    0x17E0, 0x1090, 0x1040, 0xF20, 0xED0, 0xE50, 0xDE6, 0xD66,
    0xCE6, 0xC66, 0xBE6, 0xB66, 0xAE6, 0xA66, 0x9E6, 0x966,
    0x7C0, 0x6F0, 0x660
  ]

  /** The run among the first `k` that holds code point `n`: its zero, or -1. */
  function ZeroAmong(n: int, k: nat): (z: int)
    requires k <= |OtherDigitZeros|
    ensures z == -1 || z <= n < z + 10
  {
    if k == 0 then -1
    else if OtherDigitZeros[k - 1] <= n < OtherDigitZeros[k - 1] + 10 then OtherDigitZeros[k - 1]
    else ZeroAmong(n, k - 1)
  }

  /**
   * The whitespace beyond the first digit run, `U+0660`: no run holds any of
   * these code points.
   */
  predicate HighSpace(n: int) {
    n == 0x1680 || 0x2000 <= n <= 0x205F || n == 0x3000
  }

  /**
   * For a character beyond ASCII, the zero of the run of digits it belongs to,
   * or -1.
   */
  function OtherDigitZero(c: char): (z: int)
    ensures z < 0 ==> z == -1
    ensures z >= 0 ==> 0x660 <= c as int && z <= c as int < z + 10 && !HighSpace(c as int)
  {
    if c as int < 0x660 || HighSpace(c as int) then -1 else ZeroAmong(c as int, |OtherDigitZeros|)
  }

  /** No whitespace character is a digit. */
  lemma DigitNotSpace(c: char)
    requires IsDigit(c)
    ensures !IsSpace(c)
  {
  }

  /** `str.isdecimal` on one character: a Unicode decimal digit. */
  predicate IsDigit(c: char) {
    IsAsciiDigit(c) || OtherDigitZero(c) >= 0
  }

  predicate AllDigits(s: string) {
    forall k :: 0 <= k < |s| ==> IsDigit(s[k])
  }

  predicate AllAsciiDigits(s: string) {
    forall k :: 0 <= k < |s| ==> IsAsciiDigit(s[k])
  }

  /** The value of a decimal digit, `unicodedata.decimal(c)`. */
  function DigitValue(c: char): (d: nat)
    requires IsDigit(c)
    ensures d < 10
  {
    if IsAsciiDigit(c) then c as int - '0' as int else c as int - OtherDigitZero(c)
  }

  function DigitChar(d: nat): (c: char)
    requires d < 10
    ensures IsAsciiDigit(c) && IsDigit(c) && DigitValue(c) == d
  {
    ('0' as int + d) as char
  }

  /** The number written by a string of decimal digits (Python's `int` on such a string). */
  function DigitsValue(s: string): nat
    requires AllDigits(s)
  {
    if s == [] then 0 else DigitsValue(s[..|s| - 1]) * 10 + DigitValue(s[|s| - 1])
  }

  function Pow10(k: nat): (r: nat)
    ensures r >= 1
  {
    if k == 0 then 1 else 10 * Pow10(k - 1)
  }

  /** The shortest decimal spelling of `n` (Python's `str` on a non-negative `int`). */
  function NatToString(n: nat): (r: string)
    ensures |r| >= 1 && AllDigits(r) && AllAsciiDigits(r)
    ensures DigitsValue(r) == n
    ensures n < Pow10(|r|)
    decreases n
  {
    if n < 10 then [DigitChar(n)]
    else
      var r := NatToString(n / 10) + [DigitChar(n % 10)];
      assert r[..|r| - 1] == NatToString(n / 10);
      r
  }

  /** Python's `str` on an `int`. */
  function IntToString(i: int): string {
    if i < 0 then "-" + NatToString(-i) else NatToString(i)
  }

  function Zeros(k: nat): (r: string)
    ensures |r| == k && AllDigits(r) && AllAsciiDigits(r)
  {
    if k == 0 then [] else "0" + Zeros(k - 1)
  }

  /** `'%0*d' % (width, n)`: `n` in decimal, padded on the left with zeros up to `width`. */
  function PadDigits(n: nat, width: nat): (r: string)
    ensures AllDigits(r) && AllAsciiDigits(r)
    ensures 1 <= width && n < Pow10(width) ==> |r| == width
    ensures DigitsValue(r) == n
  {
    var d := NatToString(n);
    var r := if |d| < width then Zeros(width - |d|) + d else d;
    LeadingZeros(if |d| < width then width - |d| else 0, d);
    ShortestFits(n, width);
    assert |d| >= width ==> r == Zeros(0) + d;
    r
  }

  lemma {:induction false} ShortestFits(n: nat, width: nat)
    ensures 1 <= width && n < Pow10(width) ==> |NatToString(n)| <= width
    decreases n
  {
    if n >= 10 && 1 <= width && n < Pow10(width) {
      assert width >= 1;
      assert n / 10 < Pow10(width - 1);
      ShortestFits(n / 10, width - 1);
      assert |NatToString(n)| == |NatToString(n / 10)| + 1;
    }
  }

  lemma {:induction false} DigitsValueAppend(a: string, b: string)
    requires AllDigits(a) && AllDigits(b)
    ensures AllDigits(a + b)
    ensures DigitsValue(a + b) == DigitsValue(a) * Pow10(|b|) + DigitsValue(b)
    decreases |b|
  {
    if b == [] {
      assert a + b == a;
    } else {
      var n := |b| - 1;
      var b' := b[..n];
      assert (a + b)[..|a + b| - 1] == a + b';
      assert (a + b)[|a + b| - 1] == b[n];
      DigitsValueAppend(a, b');
      ShiftDigit(DigitsValue(a), Pow10(n), DigitsValue(b'), DigitValue(b[n]));
    }
  }

  /** Appending a digit to `x * p + y` multiplies both parts by ten. */
  lemma ShiftDigit(x: int, p: int, y: int, d: int)
    ensures (x * p + y) * 10 + d == x * (10 * p) + (y * 10 + d)
  {
  }

  lemma LeadingZeros(k: nat, d: string)
    requires AllDigits(d)
    ensures DigitsValue(Zeros(k) + d) == DigitsValue(d)
  {
    DigitsValueAppend(Zeros(k), d);
    ZerosValue(k);
  }

  lemma {:induction false} ZerosValue(k: nat)
    ensures DigitsValue(Zeros(k)) == 0
  {
    if k > 0 {
      assert Zeros(k)[..k - 1] == Zeros(k - 1) by {
        ZerosShape(k);
      }
      ZerosValue(k - 1);
    }
  }

  lemma ZerosShape(k: nat)
    requires k > 0
    ensures Zeros(k) == Zeros(k - 1) + "0"
  {
    if k > 1 {
      ZerosShape(k - 1);
    }
  }
}
