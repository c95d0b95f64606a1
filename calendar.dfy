/**
 * Calendar dates as Python's `datetime.date` holds them: comparison, `str(date)`
 * and the two `datetime.strptime` formats the spreadsheet import tries.
 */
module Calendar {
  import opened Wrappers
  import opened Text

  datatype Date = Date(year: int, month: int, day: int)

  predicate IsLeapYear(y: int) {
    y % 4 == 0 && (y % 100 != 0 || y % 400 == 0)
  }

  function DaysInMonth(y: int, m: int): int
    requires 1 <= m <= 12
  {
    if m == 2 then (if IsLeapYear(y) then 29 else 28)
    else if m == 4 || m == 6 || m == 9 || m == 11 then 30
    else 31
  }

  /** The dates `datetime.date` accepts (MINYEAR 1 to MAXYEAR 9999). */
  predicate Valid(d: Date) {
    1 <= d.year <= 9999 && 1 <= d.month <= 12 && 1 <= d.day <= DaysInMonth(d.year, d.month)
  }

  /** `a < b` on dates: year, then month, then day. */
  predicate Before(a: Date, b: Date) {
    a.year < b.year
    || (a.year == b.year && (a.month < b.month || (a.month == b.month && a.day < b.day)))
  }

  predicate OnOrBefore(a: Date, b: Date) {
    !Before(b, a)
  }

  /** `str(d)` for a `date`: `YYYY-MM-DD`, zero padded. */
  function IsoFormat(d: Date): string
    requires Valid(d)
  {
    PadDigits(d.year, 4) + "-" + PadDigits(d.month, 2) + "-" + PadDigits(d.day, 2)
  }

  // ---------------------------------------------------------------------------
  // `datetime.strptime`: the directives `%Y`, `%m` and `%d` stand for the
  // regular expressions `\d\d\d\d`, `1[0-2]|0[1-9]|[1-9]` and
  // `3[01]|[12]\d|0[1-9]|[1-9]| [1-9]`; the whole string must be consumed and
  // the fields must form a valid date. Separators never occur inside a field,
  // so the fields are exactly the pieces of the string split at the separator.

  predicate YearToken(t: string) {
    |t| == 4 && AllDigits(t)
  }

  predicate MonthToken(t: string) {
    || (|t| == 1 && '1' <= t[0] <= '9')
    || (|t| == 2 && t[0] == '1' && '0' <= t[1] <= '2')
    || (|t| == 2 && t[0] == '0' && '1' <= t[1] <= '9')
  }

  predicate DayToken(t: string) {
    || (|t| == 1 && '1' <= t[0] <= '9')
    || (|t| == 2 && t[0] == ' ' && '1' <= t[1] <= '9')
    || (|t| == 2 && t[0] == '3' && '0' <= t[1] <= '1')
    || (|t| == 2 && '1' <= t[0] <= '2' && IsDigit(t[1]))
    || (|t| == 2 && t[0] == '0' && '1' <= t[1] <= '9')
  }

  /** `int(t)` for a month or day field (`int` ignores the blank of `' 5'`). */
  function FieldValue(t: string): int
    requires MonthToken(t) || DayToken(t)
  {
    if t[0] == ' ' then DigitValue(t[1]) else DigitsValue(t)
  }

  function FromFields(y: string, m: string, d: string): (r: Option<Date>)
    ensures r.Some? ==> Valid(r.value)
  {
    if YearToken(y) && MonthToken(m) && DayToken(d) then
      var date := Date(DigitsValue(y), FieldValue(m), FieldValue(d));
      if Valid(date) then Some(date) else None
    else None
  }

  /** `datetime.strptime(s, '%Y-%m-%d').date()`, or `None` where it raises `ValueError`. */
  function ParseIso(s: string): (r: Option<Date>)
    ensures r.Some? ==> Valid(r.value)
  {
    var p := Split(s, '-');
    if |p| == 3 then FromFields(p[0], p[1], p[2]) else None
  }

  /** `datetime.strptime(s, '%d/%m/%Y').date()`, or `None` where it raises `ValueError`. */
  function ParseDayFirst(s: string): (r: Option<Date>)
    ensures r.Some? ==> Valid(r.value)
  {
    var p := Split(s, '/');
    if |p| == 3 then FromFields(p[2], p[1], p[0]) else None
  }

  // ---------------------------------------------------------------------------
  // Round trips

  lemma TwoDigits(t: string)
    requires |t| == 2 && AllDigits(t)
    ensures DigitsValue(t) == 10 * DigitValue(t[0]) + DigitValue(t[1])
  {
    var h := t[..1];
    assert h[..0] == [] && h[0] == t[0];
    assert DigitsValue(h) == DigitValue(t[0]);
    assert t[..|t| - 1] == h;
  }

  lemma FourDigits(t: string)
    requires |t| == 4 && AllDigits(t)
    ensures DigitsValue(t) == 100 * DigitsValue(t[..2]) + DigitsValue(t[2..])
  {
    assert t == t[..2] + t[2..];
    DigitsValueAppend(t[..2], t[2..]);
    assert Pow10(2) == 100;
  }

  lemma PaddedMonth(m: int)
    requires 1 <= m <= 12
    ensures MonthToken(PadDigits(m, 2)) && FieldValue(PadDigits(m, 2)) == m
  {
    var t := PadDigits(m, 2);
    assert Pow10(2) == 100;
    TwoDigits(t);
  }

  lemma PaddedDay(d: int)
    requires 1 <= d <= 31
    ensures DayToken(PadDigits(d, 2)) && FieldValue(PadDigits(d, 2)) == d
  {
    var t := PadDigits(d, 2);
    assert Pow10(2) == 100;
    TwoDigits(t);
  }

  lemma PaddedYear(y: int)
    requires 1 <= y <= 9999
    ensures YearToken(PadDigits(y, 4)) && DigitsValue(PadDigits(y, 4)) == y
  {
    assert Pow10(4) == 10000;
  }

  lemma ThreePieces(a: string, b: string, c: string, sep: char)
    requires IsDigit(sep) == false && sep != ' '
    requires AllDigits(a) && AllDigits(b) && AllDigits(c)
    ensures Split(a + [sep] + b + [sep] + c, sep) == [a, b, c]
  {
    var pieces := [a, b, c];
    assert Join(pieces, sep) == a + [sep] + b + [sep] + c by {
      assert Join(pieces[1..], sep) == b + [sep] + c by {
        assert pieces[1..][1..] == [c];
      }
    }
    forall p | 0 <= p < 3
      ensures forall k :: 0 <= k < |pieces[p]| ==> pieces[p][k] != sep
    {
    }
    JoinSplit(pieces, sep);
  }

  /** Parsing `str(d)` with `'%Y-%m-%d'` gives `d` back. */
  lemma ParseIsoOfIsoFormat(d: Date)
    requires Valid(d)
    ensures ParseIso(IsoFormat(d)) == Some(d)
  {
    var y, m, dd := PadDigits(d.year, 4), PadDigits(d.month, 2), PadDigits(d.day, 2);
    PaddedYear(d.year);
    PaddedMonth(d.month);
    PaddedDay(d.day);
    ThreePieces(y, m, dd, '-');
  }

  /** Parsing `DD/MM/YYYY` with `'%d/%m/%Y'` gives the date back. */
  lemma ParseDayFirstOfPadded(d: Date)
    requires Valid(d)
    ensures ParseDayFirst(PadDigits(d.day, 2) + "/" + PadDigits(d.month, 2) + "/" + PadDigits(d.year, 4)) == Some(d)
  {
    var y, m, dd := PadDigits(d.year, 4), PadDigits(d.month, 2), PadDigits(d.day, 2);
    PaddedYear(d.year);
    PaddedMonth(d.month);
    PaddedDay(d.day);
    ThreePieces(dd, m, y, '/');
  }

  lemma Year2024()
    ensures DigitsValue("2024") == 2024
  {
    FourDigits("2024");
    TwoDigits("20");
    TwoDigits("24");
    assert "2024"[..2] == "20" && "2024"[2..] == "24";
  }

  lemma Year2023()
    ensures DigitsValue("2023") == 2023
  {
    FourDigits("2023");
    TwoDigits("20");
    TwoDigits("23");
    assert "2023"[..2] == "20" && "2023"[2..] == "23";
  }

  lemma SplitThree(s: string, a: string, b: string, c: string, sep: char)
    requires sep != ' ' && !IsDigit(sep)
    requires AllDigits(a) && AllDigits(b) && AllDigits(c)
    requires s == a + [sep] + b + [sep] + c
    ensures Split(s, sep) == [a, b, c]
  {
    ThreePieces(a, b, c, sep);
  }

  lemma UnpaddedFields()
    ensures FromFields("2024", "1", "5") == Some(Date(2024, 1, 5))
  {
    Year2024();
    assert DigitsValue("5") == 5 && DigitsValue("1") == 1;
  }

  lemma MissingDayFields()
    ensures FromFields("2023", "02", "29") == None
  {
    Year2023();
    TwoDigits("02");
    TwoDigits("29");
    assert !IsLeapYear(2023);
  }

  /** `'%Y-%m-%d'` accepts unpadded months and days. */
  lemma ParseIsoUnpadded()
    ensures ParseIso("2024-1-5") == Some(Date(2024, 1, 5))
  {
    SplitThree("2024-1-5", "2024", "1", "5", '-');
    UnpaddedFields();
  }

  /** `'%Y-%m-%d'` rejects a day the month does not have. */
  lemma ParseIsoRejectsMissingDay()
    ensures ParseIso("2023-02-29") == None
  {
    SplitThree("2023-02-29", "2023", "02", "29", '-');
    MissingDayFields();
  }

  /** The Arabic-Indic digits from zero to five are digits with their values. */
  lemma ArabicIndicDigits()
    ensures IsDigit('٠') && DigitValue('٠') == 0 && IsDigit('١') && DigitValue('١') == 1
    ensures IsDigit('٢') && DigitValue('٢') == 2 && IsDigit('٤') && DigitValue('٤') == 4
    ensures IsDigit('٥') && DigitValue('٥') == 5
  {
    assert OtherDigitZeros[|OtherDigitZeros| - 1] == 0x660;
    assert ZeroAmong(0x660, |OtherDigitZeros|) == 0x660;
    assert ZeroAmong(0x661, |OtherDigitZeros|) == 0x660;
    assert ZeroAmong(0x662, |OtherDigitZeros|) == 0x660;
    assert ZeroAmong(0x664, |OtherDigitZeros|) == 0x660;
    assert ZeroAmong(0x665, |OtherDigitZeros|) == 0x660;
  }

  lemma ArabicIndicYearValue()
    ensures AllDigits("٢٠٢٤") && DigitsValue("٢٠٢٤") == 2024
  {
    var t := "٢٠٢٤";
    ArabicIndicDigits();
    assert forall k :: 0 <= k < |t| ==> t[k] == '٢' || t[k] == '٠' || t[k] == '٤';
    FourDigits(t);
    assert t[..2] == "٢٠" && t[2..] == "٢٤";
    TwoDigits("٢٠");
    TwoDigits("٢٤");
  }

  /**
   * `%Y` is four `\d`, so an Arabic-Indic year reads; `%m` only takes the
   * ASCII digits of `1[0-2]|0[1-9]|[1-9]`, so an Arabic-Indic month does not.
   */
  lemma ArabicIndicIsoDates()
    ensures ParseIso("٢٠٢٤-01-15") == Some(Date(2024, 1, 15))
    ensures ParseIso("٢٠٢٤-٠١-١٥") == None
  {
    ArabicIndicYearRead();
    ArabicIndicMonthRejected();
  }

  lemma ArabicIndicYearRead()
    ensures ParseIso("٢٠٢٤-01-15") == Some(Date(2024, 1, 15))
  {
    ArabicIndicYearValue();
    SplitThree("٢٠٢٤-01-15", "٢٠٢٤", "01", "15", '-');
    ArabicIndicYearFields();
  }

  lemma ArabicIndicYearFields()
    ensures FromFields("٢٠٢٤", "01", "15") == Some(Date(2024, 1, 15))
  {
    ArabicIndicYearValue();
    TwoDigits("01");
    TwoDigits("15");
  }

  lemma ArabicIndicMonthRejected()
    ensures ParseIso("٢٠٢٤-٠١-١٥") == None
  {
    ArabicIndicYearValue();
    ArabicIndicDigits();
    SplitThree("٢٠٢٤-٠١-١٥", "٢٠٢٤", "٠١", "١٥", '-');
    assert !MonthToken("٠١");
  }

  /**
   * In `%d/%m/%Y` the year and the second digit of a day `[12]\d` take any
   * decimal digit; a day's first digit is always ASCII.
   */
  lemma ArabicIndicDayFirst()
    ensures ParseDayFirst("1٥/01/٢٠٢٤") == Some(Date(2024, 1, 15))
    ensures ParseDayFirst("١٥/01/2024") == None
  {
    ArabicIndicDayFirstRead();
    ArabicIndicDayRejected();
  }

  lemma ArabicIndicDayFirstRead()
    ensures ParseDayFirst("1٥/01/٢٠٢٤") == Some(Date(2024, 1, 15))
  {
    ArabicIndicYearValue();
    SplitThree("1٥/01/٢٠٢٤", "1٥", "01", "٢٠٢٤", '/');
    ArabicIndicDayFields();
  }

  lemma ArabicIndicDayFields()
    ensures FromFields("٢٠٢٤", "01", "1٥") == Some(Date(2024, 1, 15))
  {
    ArabicIndicYearValue();
    ArabicIndicDigits();
    TwoDigits("01");
    TwoDigits("1٥");
  }

  lemma ArabicIndicDayRejected()
    ensures ParseDayFirst("١٥/01/2024") == None
  {
    ArabicIndicDigits();
    Year2024();
    assert AllDigits("١٥");
    SplitThree("١٥/01/2024", "١٥", "01", "2024", '/');
    assert !DayToken("١٥");
  }
}
