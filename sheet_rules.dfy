/**
 * What the two spreadsheet-import variants share: the employee fields a
 * column can set and the value each field holds, the keyword rules that pick
 * out allowance columns and infer an allowance's frequency and kind, the
 * insurance labels, and the two loops that find the allowance columns and
 * collect the allowance records of a row.
 */
module SheetRules {
  import opened Wrappers
  import opened Text
  import opened Calendar
  import opened Cells
  import opened Payroll

  /** The employee fields the import can set. */
  datatype Field =
    | EmployeeNumber | Name | Nationality | HireDate | IdNumber | Category
    | BasicSalary | InsuranceType | NumWives | NumChildren
    | RecruitmentCost | TrainingCost | IsActive

  /**
   * A field's value. A category is the name of the `EmployeeCategory` row that
   * was found, or `None` when the lookup found none.
   */
  datatype FieldValue =
    | TextValue(text: string)
    | DayValue(day: ValidDate)
    | AmountValue(amount: real)
    | CountValue(count: int)
    | CategoryValue(category: Option<string>)
    | FlagValue(flag: bool)

  /** The dictionary of employee data an extraction builds. */
  type Record = map<Field, FieldValue>

  /** The exceptions that end the handling of a row, or of one allowance of a row. */
  datatype Failure =
    | MissingEmployeeNumber   // `employee_data['employee_number']` raises `KeyError`
    | CategoryModelUndefined  // the category lookup names a model that is not imported: `NameError`
    | NotStorable             // the employee row violates a column constraint on save: `IntegrityError`
    | TypeNameTaken           // a new allowance type would repeat a unique `name`: `IntegrityError`
    | AmbiguousType           // several allowance types share the Arabic name: `MultipleObjectsReturned`

  /** The kind of value each field carries. */
  predicate FitsField(f: Field, v: FieldValue) {
    match f
    case HireDate => v.DayValue?
    case BasicSalary | RecruitmentCost | TrainingCost => v.AmountValue?
    case NumWives | NumChildren => v.CountValue?
    case Category => v.CategoryValue?
    case IsActive => v.FlagValue?
    case _ => v.TextValue?
  }

  predicate WellTyped(r: Record) {
    forall f :: f in r ==> FitsField(f, r[f])
  }

  // ---------------------------------------------------------------------------
  // The column loop's dictionary

  /** A dictionary built by applying the updates in order: a later update of a key overwrites an earlier one. */
  function Overlay(us: seq<Option<(Field, FieldValue)>>): Record {
    if us == [] then map[]
    else
      var i := |us| - 1;
      var m := Overlay(us[..i]);
      match us[i]
      case Some((f, v)) => m[f := v]
      case None => m
  }

  /** Every key of the dictionary, with its value, comes from one of the updates. */
  lemma {:induction false} OverlaySources(us: seq<Option<(Field, FieldValue)>>)
    ensures forall f :: f in Overlay(us) ==> exists i :: 0 <= i < |us| && us[i] == Some((f, Overlay(us)[f]))
  {
    if us != [] {
      var n := |us| - 1;
      var p := us[..n];
      OverlaySources(p);
      forall f | f in Overlay(us) ensures exists i :: 0 <= i < |us| && us[i] == Some((f, Overlay(us)[f])) {
        if us[n].Some? && us[n].value.0 == f {
          assert us[n] == Some((f, Overlay(us)[f]));
        } else {
          assert f in Overlay(p) && Overlay(us)[f] == Overlay(p)[f];
          var i :| 0 <= i < n && p[i] == Some((f, Overlay(p)[f]));
          assert us[i] == p[i];
        }
      }
    }
  }

  /** One more update: the dictionary so far, with that update applied. */
  lemma OverlayStep(us: seq<Option<(Field, FieldValue)>>, i: nat)
    requires i < |us|
    ensures Overlay(us[..i + 1]) ==
      if us[i].Some? then Overlay(us[..i])[us[i].value.0 := us[i].value.1] else Overlay(us[..i])
  {
    assert us[..i + 1][..i] == us[..i];
  }

  lemma {:induction false} OverlayWellTyped(us: seq<Option<(Field, FieldValue)>>)
    requires forall i :: 0 <= i < |us| && us[i].Some? ==> FitsField(us[i].value.0, us[i].value.1)
    ensures WellTyped(Overlay(us))
  {
    if us != [] {
      var i := |us| - 1;
      assert forall j :: 0 <= j < i ==> us[..i][j] == us[j];
      OverlayWellTyped(us[..i]);
    }
  }

  /** The last update of a key decides its value. */
  lemma {:induction false} OverlayLast(us: seq<Option<(Field, FieldValue)>>, i: nat, f: Field, v: FieldValue)
    requires i < |us| && us[i] == Some((f, v))
    requires forall j :: i < j < |us| ==> us[j].None? || us[j].value.0 != f
    ensures f in Overlay(us) && Overlay(us)[f] == v
  {
    var n := |us| - 1;
    var p := us[..n];
    var m := Overlay(p);
    if i < n {
      assert forall j :: i < j < n ==> p[j] == us[j];
      assert p[i] == us[i];
      OverlayLast(p, i, f, v);
      match us[n]
      case Some((g, w)) =>
        assert g != f;
        assert Overlay(us) == m[g := w];
      case None =>
        assert Overlay(us) == m;
    } else {
      assert Overlay(us) == m[f := v];
    }
  }

  // ---------------------------------------------------------------------------
  // Conversions both variants apply to a mapped cell

  /**
   * The hire-date conversion: a datetime cell gives its date; a string is read
   * as year-month-day, else as day/month/year; any other cell, and a string
   * neither format reads, sets nothing (`None`).
   */
  function HireDateValue(c: Cell): (r: Option<FieldValue>)
    ensures r.Some? ==> r.value.DayValue?
    ensures r.Some? <==> c.DateTimeCell? || (c.StrCell? && (ParseIso(c.s).Some? || ParseDayFirst(c.s).Some?))
  {
    match c
    case DateTimeCell(d, _, _, _) => Some(DayValue(d))
    case StrCell(s) =>
      if ParseIso(s).Some? then Some(DayValue(ParseIso(s).value))
      else if ParseDayFirst(s).Some? then Some(DayValue(ParseDayFirst(s).value))
      else None
    case _ => None
  }

  /** A date written the way `date.isoformat` writes it is read back as that date. */
  lemma HireDateOfIsoText(d: ValidDate)
    ensures HireDateValue(StrCell(IsoFormat(d))) == Some(DayValue(d))
  {
    ParseIsoOfIsoFormat(d);
  }

  /** A year in Arabic-Indic digits is read; the same date with Arabic-Indic month and day is not. */
  lemma ArabicIndicHireDate()
    ensures HireDateValue(StrCell("٢٠٢٤-01-15")) == Some(DayValue(Date(2024, 1, 15)))
    ensures ParseIso("٢٠٢٤-٠١-١٥").None?
  {
    ArabicIndicIsoDates();
  }

  /** A day/month/year text with two-digit day and month is read as that date. */
  lemma HireDateOfDayFirstText(d: ValidDate, s: string)
    requires s == PadDigits(d.day, 2) + "/" + PadDigits(d.month, 2) + "/" + PadDigits(d.year, 4)
    ensures HireDateValue(StrCell(s)) == Some(DayValue(d))
  {
    ParseDayFirstOfPadded(d);
    assert ParseIso(s).None? by {
      assert ParseDayFirst(s) == Some(d);
      NoDashInDayFirst(d, s);
    }
  }

  /** A day-first text holds no `-`, so the year-month-day reading rejects it. */
  lemma NoDashInDayFirst(d: ValidDate, s: string)
    requires s == PadDigits(d.day, 2) + "/" + PadDigits(d.month, 2) + "/" + PadDigits(d.year, 4)
    ensures ParseIso(s).None?
  {
    PaddedDay(d.day);
    PaddedMonth(d.month);
    var a, b, c := PadDigits(d.day, 2), PadDigits(d.month, 2), PadDigits(d.year, 4);
    assert forall k :: 0 <= k < |s| ==> s[k] != '-' by {
      forall k | 0 <= k < |s| ensures s[k] != '-' {
        if k < |a| {
          assert s[k] == a[k];
        } else if k == |a| {
        } else if k < |a| + 1 + |b| {
          assert s[k] == b[k - |a| - 1];
        } else if k == |a| + 1 + |b| {
        } else {
          assert s[k] == c[k - |a| - 2 - |b|];
        }
      }
    }
    SplitNoSeparator(s, '-');
  }

  /** A date cell that is not a datetime sets no hire date. */
  lemma PlainDateCellIgnored(d: ValidDate)
    ensures HireDateValue(DateCell(d)).None?
  {
  }

  /** A text field: the stripped `str` of a truthy cell, the empty text for a falsy one. */
  function TextFieldValue(c: Cell): (r: FieldValue)
    ensures r.TextValue?
    ensures !Truthy(c) ==> r.text == ""
    ensures Truthy(c) ==> r.text == Strip(Str(c))
  {
    TextValue(if Truthy(c) then Strip(Str(c)) else "")
  }

  /** The insurance labels of `Employee.INSURANCE_TYPE_CHOICES`, as (code, label). */
  const InsuranceChoices: seq<(string, string)> :=
    [("BASIC", "أساسي"), ("COMPREHENSIVE", "شامل"), ("PREMIUM", "ممتاز")]

  /** The label-to-code table of both extraction functions. */
  const InsuranceCodes: map<string, string> :=
    map["أساسي" := "BASIC", "شامل" := "COMPREHENSIVE", "ممتاز" := "PREMIUM"]

  /** The table is exactly the inverse of the model's insurance choices. */
  lemma InsuranceCodesInvertChoices()
    ensures forall i :: 0 <= i < |InsuranceChoices| ==>
      InsuranceChoices[i].1 in InsuranceCodes && InsuranceCodes[InsuranceChoices[i].1] == InsuranceChoices[i].0
    ensures forall t :: t in InsuranceCodes ==> exists i :: 0 <= i < |InsuranceChoices| && InsuranceChoices[i].1 == t
  {
    assert InsuranceCodes.Keys == {"أساسي", "شامل", "ممتاز"};
    assert InsuranceChoices[0].1 == "أساسي" && InsuranceChoices[1].1 == "شامل" && InsuranceChoices[2].1 == "ممتاز";
  }

  /** The insurance conversion of the column loop: a known label becomes its code, any other text passes through. */
  function InsuranceValue(c: Cell): (r: FieldValue)
    ensures r.TextValue?
    ensures Str(c) in InsuranceCodes ==> r.text == InsuranceCodes[Str(c)]
    ensures Str(c) !in InsuranceCodes ==> r.text == Str(c)
  {
    TextValue(if Str(c) in InsuranceCodes then InsuranceCodes[Str(c)] else Str(c))
  }

  /** Codes pass through the table unchanged, so a sheet may give the label or the code. */
  lemma InsuranceCodePassesThrough()
    ensures InsuranceValue(StrCell("PREMIUM")) == TextValue("PREMIUM")
    ensures InsuranceValue(StrCell("شامل")) == TextValue("COMPREHENSIVE")
  {
    assert "PREMIUM" !in InsuranceCodes;
  }

  // ---------------------------------------------------------------------------
  // Keyword rules

  const AllowanceKeywords: seq<string> := ["بدل", "allowance", "تعويض", "علاوة"]
  const AnnualKeywords: seq<string> := ["سنوي", "annual", "yearly"]
  const OneTimeKeywords: seq<string> := ["مرة", "one_time", "bonus"]
  const InKindKeywords: seq<string> := ["عيني", "in_kind", "benefit"]

  /** A column holds an allowance when its lower-cased header contains one of the allowance keywords. */
  predicate IsAllowanceColumn(header: string) {
    ContainsAny(Lower(header), AllowanceKeywords)
  }

  /** Annual when the name has an annual keyword, else one-time when it has a one-time keyword, else monthly. */
  function InferFrequency(name: string): (f: Frequency)
    ensures f in {Monthly, Annual, OneTime}
    ensures f == Annual <==> ContainsAny(Lower(name), AnnualKeywords)
    ensures f == OneTime <==> !ContainsAny(Lower(name), AnnualKeywords) && ContainsAny(Lower(name), OneTimeKeywords)
  {
    var lower := Lower(name);
    if ContainsAny(lower, AnnualKeywords) then Annual
    else if ContainsAny(lower, OneTimeKeywords) then OneTime
    else Monthly
  }

  /** In kind exactly when the name has an in-kind keyword; cash otherwise. */
  function InferKind(name: string): (k: AllowanceKind)
    ensures k == InKind <==> ContainsAny(Lower(name), InKindKeywords)
  {
    if ContainsAny(Lower(name), InKindKeywords) then InKind else Cash
  }

  /** `lower` leaves a text without ASCII capitals as it is. */
  lemma LowerKeeps(s: string)
    requires forall k :: 0 <= k < |s| ==> !('A' <= s[k] <= 'Z')
    ensures Lower(s) == s
  {
  }

  /** A name with both an annual and a one-time keyword is annual. */
  lemma AnnualBeatsOneTime()
    ensures InferFrequency("Annual Bonus") == Annual
  {
    LowerAnnualBonus();
    MatchMakesContains("annual bonus", "annual", 0);
    assert AnnualKeywords[1] == "annual";
  }

  lemma LowerAnnualBonus()
    ensures Lower("Annual Bonus") == "annual bonus"
  {
    var r := Lower("Annual Bonus");
    forall k | 0 <= k < |r| ensures r[k] == "annual bonus"[k] {
      assert r[k] == LowerChar("Annual Bonus"[k]);
    }
  }

  /** A one-time keyword alone makes the allowance one-time. */
  lemma BonusIsOneTime()
    ensures InferFrequency("Bonus") == OneTime
  {
    assert Lower("Bonus") == "bonus";
    MatchMakesContains("bonus", "bonus", 0);
    assert OneTimeKeywords[2] == "bonus";
    forall k | 0 <= k < |AnnualKeywords| ensures !Contains("bonus", AnnualKeywords[k]) {
      AbsentHead("bonus", AnnualKeywords[k]);
    }
  }

  /** A name with no frequency keyword is monthly. */
  lemma HousingIsMonthly()
    ensures InferFrequency("بدل السكن") == Monthly
  {
    var housing := "بدل السكن";
    LowerKeeps(housing);
    forall k | 0 <= k < |AnnualKeywords| ensures !Contains(housing, AnnualKeywords[k]) {
      if k == 0 {
        // "سنوي" needs a "ن" right after the "س", and the only "س" is followed by "ك"
        NoAnnualInHousing();
      } else {
        AbsentHead(housing, AnnualKeywords[k]);
      }
    }
    NoOneTimeInHousing();
  }

  lemma NoOneTimeInHousing()
    ensures forall k :: 0 <= k < |OneTimeKeywords| ==> !Contains("بدل السكن", OneTimeKeywords[k])
  {
    var housing := "بدل السكن";
    assert OneTimeKeywords[0][0] == 'م' && OneTimeKeywords[1][0] == 'o' && OneTimeKeywords[2][0] == 'b';
    forall k | 0 <= k < |OneTimeKeywords| ensures !Contains(housing, OneTimeKeywords[k]) {
      AbsentHead(housing, OneTimeKeywords[k]);
    }
  }

  lemma NoAnnualInHousing()
    ensures !Contains("بدل السكن", "سنوي")
  {
    var s, sub := "بدل السكن", "سنوي";
    forall i | 0 <= i && i + |sub| <= |s| ensures !MatchesAt(s, sub, i) {
      assert s[i..i + |sub|][0] == s[i] && s[i..i + |sub|][1] == s[i + 1];
    }
    NoMatchNoContains(s, sub, 0);
  }

  lemma {:induction false} NoMatchNoContains(s: string, sub: string, i: nat)
    requires forall j :: i <= j && j + |sub| <= |s| ==> !MatchesAt(s, sub, j)
    ensures !ContainsFrom(s, sub, i)
    decreases |s| - i
  {
    if i + |sub| <= |s| {
      NoMatchNoContains(s, sub, i + 1);
    }
  }

  /** The template's "annual bonus" column names no allowance keyword, so it is never read as an allowance. */
  lemma AnnualBonusColumnIgnored()
    ensures !IsAllowanceColumn("مكافأة سنوية")
  {
    var s := "مكافأة سنوية";
    LowerKeeps(s);
    forall k | 0 <= k < |AllowanceKeywords| ensures !Contains(s, AllowanceKeywords[k]) {
      AbsentHead(s, AllowanceKeywords[k]);
    }
  }

  // ---------------------------------------------------------------------------
  // Allowance records

  /** One allowance of a row, as the extraction hands it to the import. */
  datatype AllowanceData = AllowanceData(
    name: string,
    amount: real,
    frequency: Frequency,
    kind: AllowanceKind,
    notes: string)

  const ImportNotePrefix: string := "مستورد من Excel - "

  /** The record of a column named `name` with a positive `amount`. */
  function AllowanceFor(name: string, amount: real): AllowanceData {
    AllowanceData(name, amount, InferFrequency(name), InferKind(name), ImportNotePrefix + name)
  }

  /** The positions of the allowance columns, with their headers, in column order. */
  function AllowanceColumns(headers: seq<string>): (r: seq<(nat, string)>)
    ensures forall p :: 0 <= p < |r| ==> r[p].0 < |headers| && r[p].1 == headers[r[p].0] && IsAllowanceColumn(r[p].1)
  {
    if headers == [] then []
    else
      var i := |headers| - 1;
      var init := AllowanceColumns(headers[..i]);
      if IsAllowanceColumn(headers[i]) then init + [(i, headers[i])] else init
  }

  /** Every allowance column is listed. */
  lemma {:induction false} AllowanceColumnsComplete(headers: seq<string>, j: nat)
    requires j < |headers| && IsAllowanceColumn(headers[j])
    ensures exists p :: 0 <= p < |AllowanceColumns(headers)| && AllowanceColumns(headers)[p].0 == j
  {
    var i := |headers| - 1;
    var init := AllowanceColumns(headers[..i]);
    var r := AllowanceColumns(headers);
    if j < i {
      assert headers[..i][j] == headers[j];
      AllowanceColumnsComplete(headers[..i], j);
      var k :| 0 <= k < |init| && init[k].0 == j;
      assert r[k] == init[k];
    } else {
      assert r[|init|].0 == i;
    }
  }

  /** The list follows the column order. */
  lemma {:induction false} AllowanceColumnsOrdered(headers: seq<string>)
    ensures forall p, q :: 0 <= p < q < |AllowanceColumns(headers)| ==> AllowanceColumns(headers)[p].0 < AllowanceColumns(headers)[q].0
  {
    if headers != [] {
      var i := |headers| - 1;
      AllowanceColumnsOrdered(headers[..i]);
      var init := AllowanceColumns(headers[..i]);
      var r := AllowanceColumns(headers);
      assert forall p :: 0 <= p < |init| ==> r[p] == init[p] && init[p].0 < i;
    }
  }

  /** The `allowance_columns` loop. */
  method FindAllowanceColumns(headers: seq<string>) returns (columns: seq<(nat, string)>)
    ensures columns == AllowanceColumns(headers)
  {
    columns := [];
    for i := 0 to |headers|
      invariant columns == AllowanceColumns(headers[..i])
    {
      assert headers[..i + 1][..i] == headers[..i];
      if IsAllowanceColumn(headers[i]) {
        columns := columns + [(i, headers[i])];
      }
    }
    assert headers[..|headers|] == headers;
  }

  /** The column holds a cell that is not `None` and whose amount is positive. */
  predicate Yields(row: seq<Cell>, column: (nat, string), amountOf: Cell -> real) {
    column.0 < |row| && !row[column.0].Empty? && amountOf(row[column.0]) > 0.0
  }

  /**
   * The allowance records of a row: one per allowance column, in column order,
   * whose cell is not `None` and whose amount is positive.
   */
  function AllowanceRecords(row: seq<Cell>, columns: seq<(nat, string)>, amountOf: Cell -> real): (r: seq<AllowanceData>)
    ensures |r| <= |columns|
    ensures forall k :: 0 <= k < |r| ==> r[k].amount > 0.0
    ensures forall k :: 0 <= k < |r| ==>
      exists p :: 0 <= p < |columns| && Yields(row, columns[p], amountOf) &&
        r[k] == AllowanceFor(columns[p].1, amountOf(row[columns[p].0]))
    ensures forall p :: 0 <= p < |columns| && Yields(row, columns[p], amountOf) ==>
      AllowanceFor(columns[p].1, amountOf(row[columns[p].0])) in r
  {
    if columns == [] then []
    else
      var init := AllowanceRecords(row, columns[..|columns| - 1], amountOf);
      var c := columns[|columns| - 1];
      if Yields(row, c, amountOf) then init + [AllowanceFor(c.1, amountOf(row[c.0]))] else init
  }

  /** The allowance loop of the extraction. */
  method CollectAllowances(row: seq<Cell>, columns: seq<(nat, string)>, amountOf: Cell -> real)
    returns (records: seq<AllowanceData>)
    ensures records == AllowanceRecords(row, columns, amountOf)
  {
    records := [];
    for p := 0 to |columns|
      invariant records == AllowanceRecords(row, columns[..p], amountOf)
    {
      assert columns[..p + 1][..p] == columns[..p];
      var (col, name) := columns[p];
      if col < |row| && !row[col].Empty? {
        var amount := amountOf(row[col]);
        if amount > 0.0 {
          records := records + [AllowanceData(name, amount, InferFrequency(name), InferKind(name), ImportNotePrefix + name)];
        }
      }
    }
    assert columns[..|columns|] == columns;
  }
}
