/**
 * The first spreadsheet-import variant (`employees/utils.py`): header cleaning
 * with the pattern `\s*\(.*?\)`, the 24-entry header-to-field mapping, the
 * comma-tolerant number conversions, the two row extractions, and the
 * fourteen default allowance types.
 */
module SheetBasic {
  import opened Wrappers
  import opened Text
  import opened Calendar
  import opened Cells
  import opened Payroll
  import opened SheetRules

  // ---------------------------------------------------------------------------
  // `re.sub(r'\s*\(.*?\)', '', header).strip()`

  /**
   * The end of the lazy `.*?\)` started at `k`: the first `)` at or after `k`,
   * provided no newline comes first (`.` does not match a newline).
   */
  function CloseFrom(s: string, k: nat): (r: Option<nat>)
    requires k <= |s|
    ensures r.Some? ==> k <= r.value < |s| && s[r.value] == ')'
    ensures r.Some? ==> forall m :: k <= m < r.value ==> s[m] != ')' && s[m] != '\n'
    decreases |s| - k
  {
    if k == |s| || s[k] == '\n' then None
    else if s[k] == ')' then Some(k)
    else CloseFrom(s, k + 1)
  }

  /** Where a match of the pattern that starts at `i` ends, if one starts there. */
  function GroupEnd(s: string, i: nat): (r: Option<nat>)
    requires i < |s|
    ensures r.Some? ==> i < r.value <= |s|
  {
    var j := SkipSpaces(s, i);
    if j < |s| && s[j] == '(' then
      match CloseFrom(s, j + 1)
      case Some(k) => Some(k + 1)
      case None => None
    else None
  }

  /** The substitution from position `i` on: a match is dropped, otherwise one character is kept. */
  function RemoveGroupsFrom(s: string, i: nat): (r: string)
    requires i <= |s|
    ensures |r| <= |s| - i
    decreases |s| - i
  {
    if i == |s| then []
    else match GroupEnd(s, i)
      case Some(e) => RemoveGroupsFrom(s, e)
      case None => [s[i]] + RemoveGroupsFrom(s, i + 1)
  }

  function RemoveParenGroups(s: string): string {
    RemoveGroupsFrom(s, 0)
  }

  function CleanHeader(s: string): string {
    Strip(RemoveParenGroups(s))
  }

  /** No match starts at `m` when no `(` follows the whitespace run at `m` before `n`. */
  lemma NoGroupBefore(s: string, m: nat, n: nat)
    requires m < n <= |s|
    requires forall k :: m <= k < n ==> s[k] != '('
    requires n == |s| || !IsSpace(s[n - 1])
    ensures GroupEnd(s, m).None?
  {
    var j := SkipSpaces(s, m);
    assert j < n || j == |s|;
  }

  /**
   * Positions without a `(` are copied one by one, so long as the run ends
   * the text or ends in a character that is not whitespace.
   */
  lemma {:induction false} KeptRun(s: string, i: nat, n: nat)
    requires i <= n <= |s|
    requires forall k :: i <= k < n ==> s[k] != '('
    requires n == |s| || i == n || !IsSpace(s[n - 1])
    ensures RemoveGroupsFrom(s, i) == s[i..n] + RemoveGroupsFrom(s, n)
    decreases n - i
  {
    if i < n {
      NoGroupBefore(s, i, n);
      KeepOne(s, i);
      KeptRun(s, i + 1, n);
      var rest := RemoveGroupsFrom(s, n);
      calc {
        RemoveGroupsFrom(s, i);
        [s[i]] + (s[i + 1..n] + rest);
        { ConsAssoc(s[i], s[i + 1..n], rest); }
        [s[i]] + s[i + 1..n] + rest;
        { assert s[i..n] == [s[i]] + s[i + 1..n]; }
        s[i..n] + rest;
      }
    }
  }

  /** Where no match starts, the character is kept. */
  lemma KeepOne(s: string, i: nat)
    requires i < |s| && GroupEnd(s, i).None?
    ensures RemoveGroupsFrom(s, i) == [s[i]] + RemoveGroupsFrom(s, i + 1)
  {
  }

  lemma ConsAssoc(c: char, a: string, b: string)
    ensures [c] + a + b == [c] + (a + b)
  {
  }

  /** A text without `(` contains no match; the substitution leaves it as it is. */
  lemma NoParenKept(s: string)
    requires forall k :: 0 <= k < |s| ==> s[k] != '('
    ensures RemoveParenGroups(s) == s
  {
    KeptRun(s, 0, |s|);
  }

  lemma {:induction false} CloseAtFirst(s: string, k: nat, n: nat)
    requires k <= n < |s| && s[n] == ')'
    requires forall m :: k <= m < n ==> s[m] != ')' && s[m] != '\n'
    ensures CloseFrom(s, k) == Some(n)
    decreases n - k
  {
    if k < n {
      CloseAtFirst(s, k + 1, n);
    }
  }

  /**
   * A trailing group after one space is removed together with the space:
   * `a (b)` becomes `a` when `a` has no `(` and does not end in whitespace,
   * and `b` has no `)` and no newline.
   */
  lemma TrailingGroupRemoved(a: string, b: string)
    requires |a| > 0 && !IsSpace(a[|a| - 1])
    requires forall k :: 0 <= k < |a| ==> a[k] != '('
    requires forall k :: 0 <= k < |b| ==> b[k] != ')' && b[k] != '\n'
    ensures RemoveParenGroups(a + " (" + b + ")") == a
  {
    var s := a + " (" + b + ")";
    assert forall k :: 0 <= k < |a| ==> s[k] == a[k];
    KeptRun(s, 0, |a|);
    assert s[..|a|] == a;
    assert s[|a|] == ' ' && s[|a| + 1] == '(';
    assert SkipSpaces(s, |a|) == |a| + 1;
    forall m | |a| + 2 <= m < |s| - 1 ensures s[m] != ')' && s[m] != '\n' {
      assert s[m] == b[m - |a| - 2];
    }
    CloseAtFirst(s, |a| + 2, |s| - 1);
    assert GroupEnd(s, |a|) == Some(|s|);
  }

  // ---------------------------------------------------------------------------
  // The header-to-field mapping

  const FieldMapping: map<string, Field> := map[
    "رقم الموظف" := EmployeeNumber, "employee_number" := EmployeeNumber,
    "الاسم" := Name, "name" := Name,
    "الجنسية" := Nationality, "nationality" := Nationality,
    "تاريخ التوظيف" := HireDate, "hire_date" := HireDate,
    "رقم الهوية" := IdNumber, "id_number" := IdNumber,
    "الفئة" := Category, "category" := Category,
    "الراتب الأساسي" := BasicSalary, "basic_salary" := BasicSalary,
    "نوع التأمين" := InsuranceType, "insurance_type" := InsuranceType,
    "عدد الزوجات" := NumWives, "num_wives" := NumWives,
    "عدد الأبناء" := NumChildren, "num_children" := NumChildren,
    "تكلفة الاستقدام" := RecruitmentCost, "recruitment_cost" := RecruitmentCost,
    "تكلفة التدريب" := TrainingCost, "training_cost" := TrainingCost
  ]

  /** Every field but `is_active` has an Arabic and an English header. */
  lemma MappingCoversFields(f: Field)
    ensures f != IsActive <==> exists h :: h in FieldMapping && FieldMapping[h] == f
  {
    match f {
      case EmployeeNumber => assert FieldMapping["employee_number"] == f;
      case Name => assert FieldMapping["name"] == f;
      case Nationality => assert FieldMapping["nationality"] == f;
      case HireDate => assert FieldMapping["hire_date"] == f;
      case IdNumber => assert FieldMapping["id_number"] == f;
      case Category => assert FieldMapping["category"] == f;
      case BasicSalary => assert FieldMapping["basic_salary"] == f;
      case InsuranceType => assert FieldMapping["insurance_type"] == f;
      case NumWives => assert FieldMapping["num_wives"] == f;
      case NumChildren => assert FieldMapping["num_children"] == f;
      case RecruitmentCost => assert FieldMapping["recruitment_cost"] == f;
      case TrainingCost => assert FieldMapping["training_cost"] == f;
      case IsActive => MappingMissesIsActive();
    }
  }

  lemma MappingMissesIsActive()
    ensures StoredFields(FieldMapping)
  {
  }

  /** The fields the template's columns are meant for, in column order. */
  const TemplateFields: seq<Field> := [
    EmployeeNumber, Name, Nationality, BasicSalary, HireDate, IdNumber, Category,
    InsuranceType, NumWives, NumChildren, RecruitmentCost, TrainingCost
  ]

  /** The `(مطلوب)` ("required") mark is removed, leaving the bare header. */
  lemma RequiredMarkRemoved(a: string)
    requires |a| > 0 && !IsSpace(a[0]) && !IsSpace(a[|a| - 1])
    requires forall k :: 0 <= k < |a| ==> a[k] != '('
    ensures CleanHeader(a + " (مطلوب)") == a
    ensures CleanHeader(a) == a
  {
    assert a + " (مطلوب)" == a + " (" + "مطلوب" + ")";
    TrailingGroupRemoved(a, "مطلوب");
    StripUnchanged(a);
    NoParenKept(a);
  }

  /** The template's headers with the required mark taken off. */
  const TemplateKeys: seq<string> := [
    "رقم الموظف", "الاسم", "الجنسية", "الراتب الأساسي",
    "تاريخ التوظيف", "رقم الهوية", "الفئة", "نوع التأمين",
    "عدد الزوجات", "عدد الأبناء", "تكلفة الاستقدام", "تكلفة التدريب"
  ]

  /**
   * The twelve fixed columns of the downloadable template: the first four
   * carry the mark ` (مطلوب)` ("required").
   */
  const TemplateHeaders: seq<string> :=
    seq(|TemplateKeys|, i requires 0 <= i < |TemplateKeys| => if i < 4 then TemplateKeys[i] + " (مطلوب)" else TemplateKeys[i])

  lemma TemplateKeysPlain()
    ensures forall i :: 0 <= i < |TemplateKeys| ==>
      var a := TemplateKeys[i];
      |a| > 0 && !IsSpace(a[0]) && !IsSpace(a[|a| - 1]) && forall k :: 0 <= k < |a| ==> a[k] != '('
  {
  }

  /** Each bare template header is a key of the mapping, for the field its column is meant for. */
  lemma TemplateKeysMapped()
    ensures forall i :: 0 <= i < |TemplateKeys| ==> TemplateKeys[i] in FieldMapping && FieldMapping[TemplateKeys[i]] == TemplateFields[i]
  {
  }

  /** Template column `i`, with or without the required mark, cleans (twice) to its bare header. */
  lemma TemplateHeaderCleaned(i: nat, marked: bool)
    requires i < |TemplateHeaders| && TemplateHeaders[i] == if marked then TemplateKeys[i] + " (مطلوب)" else TemplateKeys[i]
    requires var a := TemplateKeys[i]; |a| > 0 && !IsSpace(a[0]) && !IsSpace(a[|a| - 1])
    requires forall k :: 0 <= k < |TemplateKeys[i]| ==> TemplateKeys[i][k] != '('
    ensures CleanHeader(CleanHeader(TemplateHeaders[i])) == TemplateKeys[i]
  {
    RequiredMarkRemoved(TemplateKeys[i]);
  }

  /**
   * Each template header, cleaned once when the header row is read and once
   * more in the field loop, names the field it is meant for.
   */
  lemma TemplateHeadersMapped()
    ensures forall i :: 0 <= i < |TemplateHeaders| ==>
      var h := CleanHeader(CleanHeader(TemplateHeaders[i]));
      h in FieldMapping && FieldMapping[h] == TemplateFields[i]
  {
    TemplateKeysMapped();
    TemplateKeysPlain();
    forall i | 0 <= i < |TemplateHeaders| ensures CleanHeader(CleanHeader(TemplateHeaders[i])) == TemplateKeys[i] {
      TemplateHeaderCleaned(i, i < 4);
    }
  }

  // ---------------------------------------------------------------------------
  // `safe_int` and `safe_decimal`

  /**
   * `safe_int`: a number is truncated (a bool is 0 or 1), a string loses its
   * commas and is read as a float and truncated; anything else, and a string
   * that does not read, gives the default.
   */
  function SafeInt(c: Cell, default: int): (r: int)
    ensures c.IntCell? ==> r == c.i
    ensures c.FloatCell? ==> r == Trunc(c.value)
    ensures c.BoolCell? ==> r == if c.b then 1 else 0
    ensures c.Empty? || c.DateCell? || c.DateTimeCell? ==> r == default
    ensures c.StrCell? ==> r == if ParseFloat(RemoveChar(c.s, ',')).Some? then Trunc(ParseFloat(RemoveChar(c.s, ',')).value) else default
  {
    match c
    case IntCell(i) => i
    case BoolCell(b) => if b then 1 else 0
    case FloatCell(v, _) => Trunc(v)
    case StrCell(s) =>
      var x := ParseFloat(RemoveChar(s, ','));
      if x.Some? then Trunc(x.value) else default
    case _ => default
  }

  /**
   * `safe_decimal`: a number (a bool included, as Python's bool is an int) is
   * converted through its `str`, a string loses its commas; anything else, and
   * a text `Decimal` rejects, gives the default.
   */
  function SafeDecimal(c: Cell, default: real): (r: real)
    ensures c.Empty? || c.DateCell? || c.DateTimeCell? ==> r == default
    ensures c.IntCell? ==> r == c.i as real
    ensures c.BoolCell? ==> r == default
    ensures c.StrCell? ==> r == ParseDecimal(RemoveChar(c.s, ',')).GetOr(default)
    ensures c.FloatCell? ==> r == ParseDecimal(c.repr).GetOr(default)
    ensures FloatText(c) ==> r == c.value
  {
    match c
    case IntCell(i) => ParseIntToString(i); ParseDecimal(Str(c)).GetOr(default)
    case FloatCell(_, _) => ParseDecimal(Str(c)).GetOr(default)
    case BoolCell(b) => BoolTextNotNumber(b); ParseDecimal(Str(c)).GetOr(default)
    case StrCell(s) => ParseDecimal(RemoveChar(s, ',')).GetOr(default)
    case _ => default
  }

  /** The amount conversion of an allowance cell. */
  function AllowanceAmount(c: Cell): real {
    SafeDecimal(c, 0.0)
  }

  /** `Decimal('True')` raises, so a bool cell gives the default amount (but counts as 1 or 0 for `safe_int`). */
  lemma BoolAmountIsDefault(b: bool, default: real)
    ensures SafeDecimal(BoolCell(b), default) == default
    ensures SafeInt(BoolCell(b), 0) == if b then 1 else 0
  {
    BoolTextNotNumber(b);
  }

  lemma BoolTextNotNumber(b: bool)
    ensures ParseNumber(Str(BoolCell(b))).None? && ParseDecimal(Str(BoolCell(b))).None?
  {
    BoolTextOutsideGrammar(b);
    NoUnderscoreReadsAlike(Str(BoolCell(b)));
  }

  lemma BoolTextOutsideGrammar(b: bool)
    ensures ParseNumber(Str(BoolCell(b))).None?
  {
    var t := Str(BoolCell(b));
    StripUnchanged(t);
    assert t[0] != '+' && t[0] != '-';
    var e := ExpIndex(t);
    var p := PointIndex(t[..e]);
    assert !IsDigit(t[0]);
    assert e > 0 ==> t[..e][0] == t[0];
    assert p > 0 ==> t[..e][..p][0] == t[0];
  }

  /** Grouping commas are dropped before parsing: "1,000" reads as 1000. */
  lemma CommasStripped()
    ensures SafeDecimal(StrCell("1,000"), 0.0) == 1000.0
    ensures SafeInt(StrCell("1,000"), 0) == 1000
  {
    assert RemoveChar("1,000", ',') == "1000";
    ThousandParsed();
  }

  /**
   * A count text led by an information separator: `float` keeps the
   * separator and raises, so `safe_int` gives the default, while `Decimal`
   * strips it and reads the amount.
   */
  lemma SeparatorTextConversions(d: int)
    ensures SafeInt(StrCell("\U{1C}5"), d) == d
    ensures SafeDecimal(StrCell("\U{1C}5"), 0.0) == 5.0
  {
    var s := "\U{1C}5";
    assert RemoveChar(s, ',') == s;
    SeparatorSplitsReadings();
  }

  /** The text of an integer converts back to that integer, whatever the default. */
  lemma IntegerTextRoundTrip(i: int, d: int, dr: real)
    ensures SafeInt(StrCell(IntToString(i)), d) == i
    ensures SafeDecimal(StrCell(IntToString(i)), dr) == i as real
  {
    IntTextHasNoComma(i);
    ParseIntToString(i);
  }

  /** Arabic-Indic digits read as digits: "١٠٠٠" is 1000 as an amount and as a count. */
  lemma ArabicIndicAmount()
    ensures AllowanceAmount(StrCell("١٠٠٠")) == 1000.0
    ensures SafeInt(StrCell("١٠٠٠"), 0) == 1000
  {
    var s := "١٠٠٠";
    assert RemoveChar(s, ',') == s by {
      assert forall k :: 0 <= k < |s| ==> s[k] != ',';
    }
    ArabicIndicThousand();
  }

  lemma IntTextHasNoComma(i: int)
    ensures forall k :: 0 <= k < |IntToString(i)| ==> IntToString(i)[k] != ','
  {
    var d := NatToString(if i < 0 then -i else i);
    assert forall k :: 0 <= k < |d| ==> IsDigit(d[k]);
    if i < 0 {
      assert IntToString(i) == "-" + d;
      assert forall k :: 1 <= k < |IntToString(i)| ==> IntToString(i)[k] == d[k - 1];
    }
  }

  // ---------------------------------------------------------------------------
  // `extract_employee_and_allowances_data`

  /**
   * The conversion of a mapped cell (`None` where the hire date is skipped).
   * `categories` holds the names of the `EmployeeCategory` rows.
   */
  function ConvertField(f: Field, c: Cell, categories: set<string>): (r: Option<FieldValue>)
    ensures f != HireDate ==> r.Some?
    ensures f != IsActive && r.Some? ==> FitsField(f, r.value)
  {
    match f
    case HireDate => HireDateValue(c)
    case BasicSalary | RecruitmentCost | TrainingCost => Some(AmountValue(SafeDecimal(c, 0.0)))
    case NumWives | NumChildren => Some(CountValue(SafeInt(c, 0)))
    case Category => Some(CategoryValue(if Str(c) in categories then Some(Str(c)) else None))
    case InsuranceType => Some(InsuranceValue(c))
    case _ => Some(TextFieldValue(c))
  }

  /** A header mapping that never targets `is_active`, which the import sets itself. */
  predicate StoredFields(mapping: map<string, Field>) {
    forall h :: h in mapping ==> mapping[h] != IsActive
  }

  /** What column `i`, under `header`, sets: the field its cleaned header maps to and the converted cell. */
  function ColumnUpdate(row: seq<Cell>, header: string, i: nat, categories: set<string>, mapping: map<string, Field>): (r: Option<(Field, FieldValue)>)
    requires StoredFields(mapping)
    ensures r.Some? ==> i < |row| && !row[i].Empty? && CleanHeader(header) in mapping
    ensures r.Some? ==> r.value.0 == mapping[CleanHeader(header)] && FitsField(r.value.0, r.value.1)
  {
    var h := CleanHeader(header);
    if i < |row| && !row[i].Empty? && h in mapping then
      var f := mapping[h];
      match ConvertField(f, row[i], categories)
      case Some(v) => Some((f, v))
      case None => None
    else None
  }

  /** The updates of the columns, in column order. */
  function ColumnUpdates(row: seq<Cell>, headers: seq<string>, categories: set<string>, mapping: map<string, Field>): (r: seq<Option<(Field, FieldValue)>>)
    requires StoredFields(mapping)
    ensures |r| == |headers|
    ensures forall j :: 0 <= j < |r| ==> r[j] == ColumnUpdate(row, headers[j], j, categories, mapping)
  {
    seq(|headers|, j requires 0 <= j < |headers| => ColumnUpdate(row, headers[j], j, categories, mapping))
  }

  /** The employee dictionary the column loop builds. */
  function EmployeeFields(row: seq<Cell>, headers: seq<string>, categories: set<string>, mapping: map<string, Field>): (r: Record)
    requires StoredFields(mapping)
    ensures WellTyped(r)
    ensures forall f :: f in r ==> exists i :: 0 <= i < |headers| && ColumnUpdate(row, headers[i], i, categories, mapping) == Some((f, r[f]))
  {
    var us := ColumnUpdates(row, headers, categories, mapping);
    OverlayWellTyped(us);
    OverlaySources(us);
    Overlay(us)
  }

  /** The last column that sets a field decides its value. */
  lemma LastColumnWins(row: seq<Cell>, headers: seq<string>, categories: set<string>, mapping: map<string, Field>, i: nat, f: Field, v: FieldValue)
    requires StoredFields(mapping)
    requires i < |headers| && ColumnUpdate(row, headers[i], i, categories, mapping) == Some((f, v))
    requires forall j :: i < j < |headers| ==> ColumnUpdate(row, headers[j], j, categories, mapping).None? || ColumnUpdate(row, headers[j], j, categories, mapping).value.0 != f
    ensures f in EmployeeFields(row, headers, categories, mapping) && EmployeeFields(row, headers, categories, mapping)[f] == v
  {
    OverlayLast(ColumnUpdates(row, headers, categories, mapping), i, f, v);
  }

  /** The column loop of `extract_employee_and_allowances_data`, over any header mapping. */
  method ApplyColumns(row: seq<Cell>, headers: seq<string>, categories: set<string>, mapping: map<string, Field>)
    returns (employeeData: Record)
    requires StoredFields(mapping)
    ensures employeeData == EmployeeFields(row, headers, categories, mapping)
  {
    ghost var us := ColumnUpdates(row, headers, categories, mapping);
    employeeData := map[];
    for i := 0 to |headers|
      invariant employeeData == Overlay(us[..i])
    {
      OverlayStep(us, i);
      assert us[i] == ColumnUpdate(row, headers[i], i, categories, mapping);
      if i < |row| && !row[i].Empty? {
        var cleanHeader := CleanHeader(headers[i]);
        if cleanHeader in mapping {
          var field := mapping[cleanHeader];
          var value := ConvertField(field, row[i], categories);
          if value.Some? {
            employeeData := employeeData[field := value.value];
          }
        }
      }
    }
    assert us[..|headers|] == us;
  }

  /** The employee dictionary and the allowance records of a row. */
  function Extraction(row: seq<Cell>, headers: seq<string>, categories: set<string>): (r: (Record, seq<AllowanceData>))
    ensures WellTyped(r.0)
    ensures r.1 == AllowanceRecords(row, AllowanceColumns(headers), AllowanceAmount)
  {
    MappingMissesIsActive();
    (EmployeeFields(row, headers, categories, FieldMapping), AllowanceRecords(row, AllowanceColumns(headers), AllowanceAmount))
  }

  /**
   * `extract_employee_and_allowances_data`: the column loop fills the
   * employee dictionary, the allowance columns come from the headers, and
   * each of them with a positive amount gives an allowance record.
   */
  method ExtractEmployeeAndAllowancesData(row: seq<Cell>, headers: seq<string>, categories: set<string>)
    returns (employeeData: Record, allowancesData: seq<AllowanceData>)
    ensures employeeData == EmployeeFields(row, headers, categories, FieldMapping)
    ensures allowancesData == AllowanceRecords(row, AllowanceColumns(headers), AllowanceAmount)
    ensures (employeeData, allowancesData) == Extraction(row, headers, categories)
  {
    var columns := FindAllowanceColumns(headers);
    MappingMissesIsActive();
    employeeData := ApplyColumns(row, headers, categories, FieldMapping);
    allowancesData := CollectAllowances(row, columns, AllowanceAmount);
  }

  // ---------------------------------------------------------------------------
  // `extract_employee_data_from_row`

  /** `row_data`: each header with the cell under it; a repeated header keeps its last cell. */
  function RowData(row: seq<Cell>, headers: seq<string>): (r: map<string, Cell>)
    ensures forall h :: h in r ==> exists i :: 0 <= i < |headers| && i < |row| && headers[i] == h && r[h] == row[i]
    ensures forall i :: 0 <= i < |headers| && i < |row| ==> headers[i] in r
  {
    if headers == [] then map[]
    else
      var i := |headers| - 1;
      var m := RowData(row, headers[..i]);
      assert forall j :: 0 <= j < i ==> headers[..i][j] == headers[j];
      if i < |row| then m[headers[i] := row[i]] else m
  }

  /** `row_data.get(key, default)`. */
  function Get(rowData: map<string, Cell>, key: string, default: Cell): Cell {
    if key in rowData then rowData[key] else default
  }

  /** The stripped text of a required column; a missing column reads as "". */
  function RequiredText(rowData: map<string, Cell>, key: string): string {
    Strip(Str(Get(rowData, key, StrCell(""))))
  }

  predicate RequiredMissing(rowData: map<string, Cell>) {
    RequiredText(rowData, "رقم الموظف") == "" || RequiredText(rowData, "الاسم") == "" || RequiredText(rowData, "الجنسية") == ""
  }

  /**
   * The basic salary, or `None` where `Decimal(str(value))` raises on a number
   * cell (a bool: `Decimal('True')`); a string loses its commas and falls back
   * to 0; any other cell gives 0.
   */
  function BasicSalaryOf(rowData: map<string, Cell>): (r: Option<real>)
    ensures r.None? ==> var c := Get(rowData, "الراتب الأساسي", IntCell(0)); c.IntCell? || c.FloatCell? || c.BoolCell?
    ensures var c := Get(rowData, "الراتب الأساسي", IntCell(0)); c.IntCell? ==> r == Some(c.i as real)
    ensures var c := Get(rowData, "الراتب الأساسي", IntCell(0)); c.BoolCell? ==> r.None?
    ensures var c := Get(rowData, "الراتب الأساسي", IntCell(0));
      c.StrCell? ==> r == Some(ParseDecimal(RemoveChar(c.s, ',')).GetOr(0.0))
    ensures var c := Get(rowData, "الراتب الأساسي", IntCell(0)); c.FloatCell? ==> r == ParseDecimal(c.repr)
    ensures var c := Get(rowData, "الراتب الأساسي", IntCell(0)); FloatText(c) ==> r == Some(c.value)
  {
    match Get(rowData, "الراتب الأساسي", IntCell(0))
    case IntCell(i) => ParseIntToString(i); ParseDecimal(IntToString(i))
    case FloatCell(_, repr) => ParseDecimal(repr)
    case BoolCell(b) => BoolTextNotNumber(b); ParseDecimal(if b then "True" else "False")
    case StrCell(s) => Some(ParseDecimal(RemoveChar(s, ',')).GetOr(0.0))
    case _ => Some(0.0)
  }

  /** A float salary whose text reads back, as every finite float's does, is kept as its value. */
  lemma FloatSalaryKept()
    ensures BasicSalaryOf(map["الراتب الأساسي" := FloatCell(2.5, "2.5")]) == Some(2.5)
    ensures AllowanceAmount(FloatCell(2.5, "2.5")) == 2.5
  {
    HalfCellText();
  }

  /** The hire date: a date or datetime cell, else a string in either format, else `today`. */
  function HireDateOf(rowData: map<string, Cell>, today: ValidDate): ValidDate {
    match Get(rowData, "تاريخ التوظيف", Empty)
    case DateTimeCell(d, _, _, _) => d
    case DateCell(d) => d
    case StrCell(s) =>
      if ParseIso(s).Some? then ParseIso(s).value
      else if ParseDayFirst(s).Some? then ParseDayFirst(s).value
      else today
    case _ => today
  }

  /**
   * The insurance code: a known Arabic label gives its code; anything else,
   * a code such as `PREMIUM` and a missing column included, gives `BASIC`.
   */
  function InsuranceOf(rowData: map<string, Cell>): (r: string)
    ensures r in {"BASIC", "COMPREHENSIVE", "PREMIUM"}
    ensures var t := Strip(Str(Get(rowData, "نوع التأمين", StrCell("BASIC"))));
      (t in InsuranceCodes ==> r == InsuranceCodes[t]) && (t !in InsuranceCodes ==> r == "BASIC")
  {
    var t := Strip(Str(Get(rowData, "نوع التأمين", StrCell("BASIC"))));
    if t in InsuranceCodes then InsuranceCodes[t] else "BASIC"
  }

  /**
   * A code in the insurance column becomes `BASIC` when the employee row is
   * read, while the column loop of the allowance reading keeps it.
   */
  lemma InsuranceCodeBecomesBasic()
    ensures InsuranceOf(map["نوع التأمين" := StrCell("PREMIUM")]) == "BASIC"
    ensures InsuranceValue(StrCell("PREMIUM")) == TextValue("PREMIUM")
  {
    StripUnchanged("PREMIUM");
    assert "PREMIUM" !in InsuranceCodes;
  }

  /** Each Arabic label gives its code when the employee row is read. */
  lemma InsuranceLabelsMapped()
    ensures InsuranceOf(map["نوع التأمين" := StrCell("أساسي")]) == "BASIC"
    ensures InsuranceOf(map["نوع التأمين" := StrCell("شامل")]) == "COMPREHENSIVE"
    ensures InsuranceOf(map["نوع التأمين" := StrCell(" ممتاز ")]) == "PREMIUM"
  {
    StripUnchanged("أساسي");
    StripUnchanged("شامل");
    StripUnchanged("ممتاز");
    var padded := " ممتاز ";
    assert SkipSpaces(padded, 0) == 1 by {
      assert IsSpace(padded[0]) && !IsSpace(padded[1]);
    }
    assert TrimEnd(padded, 1, 7) == 6 by {
      assert IsSpace(padded[6]) && !IsSpace(padded[5]);
    }
    assert Strip(padded) == padded[1..6] == "ممتاز";
  }

  /** The employee dictionary built from `row_data`, or `None`. */
  function FromRowData(rowData: map<string, Cell>, categories: set<string>, today: ValidDate): (r: Option<Record>)
    ensures r.None? <==> RequiredMissing(rowData) || BasicSalaryOf(rowData).None?
    ensures r.Some? ==> WellTyped(r.value) && forall f :: f in r.value
    ensures r.Some? ==> r.value[IsActive] == FlagValue(true)
    ensures r.Some? ==> r.value[EmployeeNumber] == TextValue(RequiredText(rowData, "رقم الموظف"))
    ensures r.Some? ==> r.value[Name] == TextValue(RequiredText(rowData, "الاسم"))
    ensures r.Some? ==> r.value[BasicSalary] == AmountValue(BasicSalaryOf(rowData).value)
  {
    if RequiredMissing(rowData) then None
    else match BasicSalaryOf(rowData)
      case None => None
      case Some(salary) => Some(RowRecord(rowData, salary, categories, today))
  }

  /** The thirteen entries of the dictionary, once the required fields and the salary are known. */
  function RowRecord(rowData: map<string, Cell>, salary: real, categories: set<string>, today: ValidDate): (r: Record)
    ensures WellTyped(r) && forall f :: f in r
    ensures r[IsActive] == FlagValue(true) && r[BasicSalary] == AmountValue(salary)
    ensures r[EmployeeNumber] == TextValue(RequiredText(rowData, "رقم الموظف"))
    ensures r[Name] == TextValue(RequiredText(rowData, "الاسم"))
    ensures r[InsuranceType] == TextValue(InsuranceOf(rowData))
  {
    var category := Strip(Str(Get(rowData, "الفئة", StrCell(""))));
    Assemble(
      RequiredText(rowData, "رقم الموظف"), RequiredText(rowData, "الاسم"), RequiredText(rowData, "الجنسية"),
      HireDateOf(rowData, today), RequiredText(rowData, "رقم الهوية"),
      if category in categories then Some(category) else None,
      salary, InsuranceOf(rowData),
      SafeInt(Get(rowData, "عدد الزوجات", IntCell(0)), 0), SafeInt(Get(rowData, "عدد الأبناء", IntCell(0)), 0),
      SafeDecimal(Get(rowData, "تكلفة الاستقدام", IntCell(0)), 0.0), SafeDecimal(Get(rowData, "تكلفة التدريب", IntCell(0)), 0.0))
  }

  /** A dictionary with every field, `is_active` set. */
  function Assemble(number: string, name: string, nationality: string, hireDate: ValidDate, idNumber: string,
                    category: Option<string>, salary: real, insurance: string, wives: int, children: int,
                    recruitment: real, training: real): (r: Record)
    ensures WellTyped(r) && forall f :: f in r
    ensures r[IsActive] == FlagValue(true) && r[BasicSalary] == AmountValue(salary)
    ensures r[EmployeeNumber] == TextValue(number) && r[Name] == TextValue(name)
    ensures r[InsuranceType] == TextValue(insurance)
  {
    var r: Record := map[
      EmployeeNumber := TextValue(number), Name := TextValue(name), Nationality := TextValue(nationality),
      HireDate := DayValue(hireDate), IdNumber := TextValue(idNumber), Category := CategoryValue(category),
      BasicSalary := AmountValue(salary), InsuranceType := TextValue(insurance),
      NumWives := CountValue(wives), NumChildren := CountValue(children),
      RecruitmentCost := AmountValue(recruitment), TrainingCost := AmountValue(training),
      IsActive := FlagValue(true)
    ];
    EveryField(r);
    r
  }

  lemma EveryField(r: Record)
    requires EmployeeNumber in r && r[EmployeeNumber].TextValue? && Name in r && r[Name].TextValue?
    requires Nationality in r && r[Nationality].TextValue? && HireDate in r && r[HireDate].DayValue?
    requires IdNumber in r && r[IdNumber].TextValue? && Category in r && r[Category].CategoryValue?
    requires BasicSalary in r && r[BasicSalary].AmountValue? && InsuranceType in r && r[InsuranceType].TextValue?
    requires NumWives in r && r[NumWives].CountValue? && NumChildren in r && r[NumChildren].CountValue?
    requires RecruitmentCost in r && r[RecruitmentCost].AmountValue? && TrainingCost in r && r[TrainingCost].AmountValue?
    requires IsActive in r && r[IsActive].FlagValue?
    ensures WellTyped(r) && forall f :: f in r
  {
    forall f ensures f in r && FitsField(f, r[f]) {
      match f {
        case EmployeeNumber => case Name => case Nationality => case HireDate => case IdNumber =>
        case Category => case BasicSalary => case InsuranceType => case NumWives => case NumChildren =>
        case RecruitmentCost => case TrainingCost => case IsActive =>
      }
    }
  }

  /** `extract_employee_data_from_row`; `today` stands for `date.today()`. */
  method ExtractEmployeeDataFromRow(row: seq<Cell>, headers: seq<string>, categories: set<string>, today: ValidDate)
    returns (data: Option<Record>)
    ensures data == FromRowData(RowData(row, headers), categories, today)
  {
    var rowData: map<string, Cell> := map[];
    for i := 0 to |headers|
      invariant rowData == RowData(row, headers[..i])
    {
      assert headers[..i + 1][..i] == headers[..i];
      assert headers[..i + 1][i] == headers[i];
      if i < |row| {
        rowData := rowData[headers[i] := row[i]];
      }
    }
    assert headers[..|headers|] == headers;
    data := FromRowData(rowData, categories, today);
  }

  /** A bool in the salary column makes the whole extraction fail. */
  lemma BoolSalaryRejectsRow(rowData: map<string, Cell>, categories: set<string>, today: ValidDate, b: bool)
    requires Get(rowData, "الراتب الأساسي", IntCell(0)) == BoolCell(b)
    ensures FromRowData(rowData, categories, today).None?
  {
    BoolTextNotNumber(b);
  }

  /**
   * An empty cell under a required header reads as the text "None", which is
   * not empty, so the row passes the required-field check with that name.
   */
  lemma EmptyNameCellPasses(rowData: map<string, Cell>, categories: set<string>, today: ValidDate)
    requires "الاسم" in rowData && rowData["الاسم"] == Empty
    requires RequiredText(rowData, "رقم الموظف") != "" && RequiredText(rowData, "الجنسية") != ""
    requires BasicSalaryOf(rowData).Some?
    ensures FromRowData(rowData, categories, today).Some?
    ensures FromRowData(rowData, categories, today).value[Name] == TextValue("None")
  {
    StripUnchanged("None");
  }

  // ---------------------------------------------------------------------------
  // `create_default_allowance_types`

  /** The default allowance types as (name, Arabic name, frequency); `name` is the lookup key. */
  const DefaultTypes: seq<(string, string, Frequency)> := [
    ("housing_allowance", "بدل السكن", Monthly),
    ("transportation_allowance", "بدل النقل", Monthly),
    ("food_allowance", "بدل الإعاشة", Monthly),
    ("risk_allowance", "بدل المخاطر", Monthly),
    ("phone_allowance", "قيمة الهاتف", Monthly),
    ("tickets", "التذاكر", Annual),
    ("medical_insurance", "التأمين الطبي", Annual),
    ("passport_fees", "رسوم الجوازات", Annual),
    ("work_permit_fees", "رسوم العمل", Annual),
    ("dependent_fees", "رسوم المرافقين", Annual),
    ("bonus", "مكافآت", Annual),
    ("vacation_allowance", "بدل الإجازة", Annual),
    ("training_cost", "تكلفة التدريب", OneTime),
    ("reentry_fees", "رسوم إعادة الدخول", Annual)
  ]

  /** The default names are pairwise distinct, and so are the Arabic names. */
  lemma DefaultTypesDistinct()
    ensures forall i, j :: 0 <= i < j < |DefaultTypes| ==> DefaultTypes[i].0 != DefaultTypes[j].0
    ensures forall i, j :: 0 <= i < j < |DefaultTypes| ==> DefaultTypes[i].1 != DefaultTypes[j].1
  {
  }
}
