/**
 * The enhanced variant of the spreadsheet import: headers are only stripped,
 * the mapping knows twenty header texts and no cost columns, the number
 * conversions do not drop grouping commas, and a category cell raises, since
 * the category model is not imported.
 */
module SheetEnhanced {
  import opened Wrappers
  import opened Text
  import opened Cells
  import opened Payroll
  import opened SheetRules
  import SheetBasic

  // ---------------------------------------------------------------------------
  // Headers

  /** A header cell's text: `str(value).strip()`, nothing removed. */
  function HeaderText(c: Cell): string {
    Strip(Str(c))
  }

  /** The header texts the column loop knows, Arabic and English. */
  const FieldMapping: map<string, Field> := map[
    "رقم الموظف" := EmployeeNumber, "employee_number" := EmployeeNumber,
    "الاسم" := Name, "name" := Name,
    "الجنسية" := Nationality, "nationality" := Nationality,
    "تاريخ التوظيف" := HireDate, "hire_date" := HireDate,
    "رقم الهوية" := IdNumber, "id_number" := IdNumber,
    "الفئة" := Category, "category" := Category,
    "الراتب الأساسي" := BasicSalary, "basic_salary" := BasicSalary,
    "نوع التأمين" := InsuranceType, "insurance_type" := InsuranceType,
    "عدد الزوجات" := NumWives, "num_wives" := NumWives,
    "عدد الأبناء" := NumChildren, "num_children" := NumChildren
  ]

  /** The mapping reaches exactly the fields other than the two costs and `is_active`. */
  lemma MappingCoversFields(f: Field)
    ensures f !in {RecruitmentCost, TrainingCost, IsActive} <==> exists h :: h in FieldMapping && FieldMapping[h] == f
  {
    match f {
      case EmployeeNumber => assert FieldMapping["employee_number"] == f;
      case Name => assert FieldMapping["name"] == f;
      case Nationality => assert FieldMapping["nationality"] == f;
      case HireDate => assert FieldMapping["hire_date"] == f;
      case IdNumber => assert FieldMapping["id_number"] == f;
      case Category => assert FieldMapping["category"] == f;
      case BasicSalary => assert FieldMapping["basic_salary"] == f;
      case InsuranceType => assert FieldMapping["insurance_type"] == f;
      case NumWives => assert FieldMapping["num_wives"] == f;
      case NumChildren => assert FieldMapping["num_children"] == f;
      case RecruitmentCost =>
      case TrainingCost =>
      case IsActive =>
    }
  }

  lemma MappingMissesIsActive()
    ensures SheetBasic.StoredFields(FieldMapping)
  {
  }

  /**
   * The template's headers that carry the "required" mark are not keys here,
   * while the other variant cleans the mark off and maps each of them to the
   * field its column is meant for.
   */
  lemma RequiredMarksNotRecognised()
    ensures forall i :: 0 <= i < 4 ==> SheetBasic.TemplateHeaders[i] !in FieldMapping
    ensures forall i :: 0 <= i < 4 ==>
      var h := SheetBasic.CleanHeader(SheetBasic.CleanHeader(SheetBasic.TemplateHeaders[i]));
      h in SheetBasic.FieldMapping && SheetBasic.FieldMapping[h] == SheetBasic.TemplateFields[i]
  {
    SheetBasic.TemplateHeadersMapped();
    forall i | 0 <= i < 4 ensures SheetBasic.TemplateHeaders[i] !in FieldMapping {
      var h := SheetBasic.TemplateHeaders[i];
      assert h[|h| - 1] == ')';
      NoKeyEndsInParen(h);
    }
  }

  lemma NoKeyEndsInParen(h: string)
    requires |h| > 0 && h[|h| - 1] == ')'
    ensures h !in FieldMapping
  {
    forall k | k in FieldMapping ensures k != h {
      assert k[|k| - 1] != ')';
    }
  }

  // ---------------------------------------------------------------------------
  // `safe_int` and `safe_decimal`

  /**
   * `safe_int`: `None` and the empty text give the default; otherwise
   * `int(float(value))`: a number is truncated (a bool is 0 or 1), a text is
   * read as a float and truncated, and a date, or a text that does not read,
   * gives the default.
   */
  function SafeInt(c: Cell, default: int): (r: int)
    ensures c.Empty? || c == StrCell("") || c.DateCell? || c.DateTimeCell? ==> r == default
    ensures c.IntCell? ==> r == c.i
    ensures c.FloatCell? ==> r == Trunc(c.value)
    ensures c.BoolCell? ==> r == if c.b then 1 else 0
    ensures c.StrCell? ==> r == if ParseFloat(c.s).Some? then Trunc(ParseFloat(c.s).value) else default
  {
    match c
    case Empty => default
    case IntCell(i) => i
    case BoolCell(b) => if b then 1 else 0
    case FloatCell(v, _) => Trunc(v)
    case StrCell(s) =>
      if s == "" then default
      else
        var x := ParseFloat(s);
        if x.Some? then Trunc(x.value) else default
    case _ => default
  }

  /**
   * `safe_decimal`: `None` and the empty text give the default; otherwise
   * `Decimal(str(value))`, falling back to the default when that raises.
   */
  function SafeDecimal(c: Cell, default: real): (r: real)
    ensures c.Empty? || c == StrCell("") ==> r == default
    ensures c.IntCell? ==> r == c.i as real
    ensures !c.Empty? && c != StrCell("") ==> r == ParseDecimal(Str(c)).GetOr(default)
    ensures FloatText(c) ==> r == c.value
  {
    match c
    case Empty => default
    case IntCell(i) => ParseIntToString(i); ParseDecimal(Str(c)).GetOr(default)
    case StrCell(s) => if s == "" then default else ParseDecimal(s).GetOr(default)
    case _ => ParseDecimal(Str(c)).GetOr(default)
  }

  /** The amount conversion of an allowance cell. */
  function AllowanceAmount(c: Cell): real {
    SafeDecimal(c, 0.0)
  }

  /**
   * Grouping commas are kept, so "1,000" does not read and falls back to the
   * default, where the other variant reads 1000.
   */
  lemma CommaTextIsDefault(d: int, dr: real)
    ensures SafeInt(StrCell("1,000"), d) == d
    ensures SafeDecimal(StrCell("1,000"), dr) == dr
    ensures SheetBasic.SafeDecimal(StrCell("1,000"), dr) == 1000.0
  {
    CommaRejected();
    SheetBasic.CommasStripped();
  }

  /**
   * As in the other variant, a text led by an information separator is no
   * count (`float` raises) but is an amount (`Decimal` strips it).
   */
  lemma SeparatorTextConversions(d: int)
    ensures SafeInt(StrCell("\U{1C}5"), d) == d
    ensures SafeDecimal(StrCell("\U{1C}5"), 0.0) == 5.0
  {
    SeparatorSplitsReadings();
  }

  /** A bool is 0 or 1 as a count, but the default as an amount, since `Decimal('True')` raises. */
  lemma BoolCellConversions(b: bool, default: real)
    ensures SafeInt(BoolCell(b), 0) == if b then 1 else 0
    ensures SafeDecimal(BoolCell(b), default) == default
  {
    SheetBasic.BoolTextNotNumber(b);
  }

  /** The text of an integer converts back to that integer, whatever the default. */
  lemma IntegerTextRoundTrip(i: int, d: int, dr: real)
    ensures SafeInt(StrCell(IntToString(i)), d) == i
    ensures SafeDecimal(StrCell(IntToString(i)), dr) == i as real
  {
    ParseIntToString(i);
    assert IntToString(i) != "" by {
      assert ParseNumber("") == None by {
        assert Strip("") == "";
      }
    }
  }

  /** Arabic-Indic digits read as digits: "١٠٠٠" is 1000 as an amount and as a count. */
  lemma ArabicIndicAmount()
    ensures AllowanceAmount(StrCell("١٠٠٠")) == 1000.0
    ensures SafeInt(StrCell("١٠٠٠"), 0) == 1000
  {
    ArabicIndicThousand();
  }

  // ---------------------------------------------------------------------------
  // `extract_employee_and_allowances_data`

  /** A category column with a cell: reaching the lookup raises. */
  predicate CategoryColumn(row: seq<Cell>, header: string, i: nat, mapping: map<string, Field>) {
    i < |row| && !row[i].Empty? && header in mapping && mapping[header] == Category
  }

  /** Some column of the row reaches the category lookup. */
  predicate CategoryReached(row: seq<Cell>, headers: seq<string>, mapping: map<string, Field>) {
    exists i :: 0 <= i < |headers| && CategoryColumn(row, headers[i], i, mapping)
  }

  /** The conversion of a mapped cell (`None` where the hire date is skipped); a category is never converted. */
  function ConvertField(f: Field, c: Cell): (r: Option<FieldValue>)
    requires f != Category
    ensures f != HireDate ==> r.Some?
    ensures f != IsActive && r.Some? ==> FitsField(f, r.value)
  {
    match f
    case HireDate => HireDateValue(c)
    case BasicSalary | RecruitmentCost | TrainingCost => Some(AmountValue(SafeDecimal(c, 0.0)))
    case NumWives | NumChildren => Some(CountValue(SafeInt(c, 0)))
    case InsuranceType => Some(InsuranceValue(c))
    case _ => Some(TextFieldValue(c))
  }

  /** What column `i`, under `header`, sets, when it does not reach the category lookup. */
  function ColumnUpdate(row: seq<Cell>, header: string, i: nat, mapping: map<string, Field>): (r: Option<(Field, FieldValue)>)
    requires SheetBasic.StoredFields(mapping)
    ensures r.Some? ==> i < |row| && !row[i].Empty? && header in mapping
    ensures r.Some? ==> r.value.0 == mapping[header] && r.value.0 != Category && FitsField(r.value.0, r.value.1)
  {
    if i < |row| && !row[i].Empty? && header in mapping && mapping[header] != Category then
      var f := mapping[header];
      match ConvertField(f, row[i])
      case Some(v) => Some((f, v))
      case None => None
    else None
  }

  function ColumnUpdates(row: seq<Cell>, headers: seq<string>, mapping: map<string, Field>): (r: seq<Option<(Field, FieldValue)>>)
    requires SheetBasic.StoredFields(mapping)
    ensures |r| == |headers|
    ensures forall j :: 0 <= j < |r| ==> r[j] == ColumnUpdate(row, headers[j], j, mapping)
  {
    seq(|headers|, j requires 0 <= j < |headers| => ColumnUpdate(row, headers[j], j, mapping))
  }

  /**
   * The employee dictionary of the column loop, or the error the category
   * lookup raises; a later column of the same field overwrites an earlier one.
   */
  function EmployeeFields(row: seq<Cell>, headers: seq<string>, mapping: map<string, Field>): (r: Result<Record, Failure>)
    requires SheetBasic.StoredFields(mapping)
    ensures r.Err? <==> CategoryReached(row, headers, mapping)
    ensures r.Err? ==> r.error == CategoryModelUndefined
    ensures r.Ok? ==> WellTyped(r.value) && Category !in r.value
    ensures r.Ok? ==> forall f :: f in r.value ==>
      exists i :: 0 <= i < |headers| && ColumnUpdate(row, headers[i], i, mapping) == Some((f, r.value[f]))
  {
    if CategoryReached(row, headers, mapping) then Err(CategoryModelUndefined)
    else
      var us := ColumnUpdates(row, headers, mapping);
      OverlayWellTyped(us);
      OverlaySources(us);
      Ok(Overlay(us))
  }

  /** The last column that sets a field decides its value. */
  lemma LastColumnWins(row: seq<Cell>, headers: seq<string>, mapping: map<string, Field>, i: nat, f: Field, v: FieldValue)
    requires SheetBasic.StoredFields(mapping) && !CategoryReached(row, headers, mapping)
    requires i < |headers| && ColumnUpdate(row, headers[i], i, mapping) == Some((f, v))
    requires forall j :: i < j < |headers| ==> ColumnUpdate(row, headers[j], j, mapping).None? || ColumnUpdate(row, headers[j], j, mapping).value.0 != f
    ensures EmployeeFields(row, headers, mapping) == Ok(EmployeeFields(row, headers, mapping).value)
    ensures f in EmployeeFields(row, headers, mapping).value && EmployeeFields(row, headers, mapping).value[f] == v
  {
    OverlayLast(ColumnUpdates(row, headers, mapping), i, f, v);
  }

  /** Any cell under the category header fails the row, whatever it holds. */
  lemma CategoryCellFailsRow(row: seq<Cell>, headers: seq<string>, i: nat)
    requires i < |headers| && i < |row| && !row[i].Empty? && headers[i] in {"الفئة", "category"}
    ensures Extraction(row, headers) == Err(CategoryModelUndefined)
  {
    MappingMissesIsActive();
    assert CategoryColumn(row, headers[i], i, FieldMapping);
  }

  /** The cost columns are not mapped, so a cost never reaches the dictionary. */
  lemma CostColumnsIgnored(row: seq<Cell>, headers: seq<string>)
    requires !CategoryReached(row, headers, FieldMapping)
    ensures Extraction(row, headers).Ok?
    ensures RecruitmentCost !in Extraction(row, headers).value.0 && TrainingCost !in Extraction(row, headers).value.0
  {
    MappingMissesIsActive();
    MappingCoversFields(RecruitmentCost);
    MappingCoversFields(TrainingCost);
  }

  /** The column loop, over any mapping; it stops at the first column that reaches the category lookup. */
  method ApplyColumns(row: seq<Cell>, headers: seq<string>, mapping: map<string, Field>)
    returns (result: Result<Record, Failure>)
    requires SheetBasic.StoredFields(mapping)
    ensures result == EmployeeFields(row, headers, mapping)
  {
    ghost var us := ColumnUpdates(row, headers, mapping);
    var employeeData: Record := map[];
    for i := 0 to |headers|
      invariant forall j :: 0 <= j < i ==> !CategoryColumn(row, headers[j], j, mapping)
      invariant employeeData == Overlay(us[..i])
    {
      OverlayStep(us, i);
      assert us[i] == ColumnUpdate(row, headers[i], i, mapping);
      if i < |row| && !row[i].Empty? && headers[i] in mapping {
        var field := mapping[headers[i]];
        if field == Category {
          assert CategoryColumn(row, headers[i], i, mapping);
          return Err(CategoryModelUndefined);
        }
        var value := ConvertField(field, row[i]);
        if value.Some? {
          employeeData := employeeData[field := value.value];
        }
      }
    }
    assert us[..|headers|] == us;
    result := Ok(employeeData);
  }

  /** The employee dictionary and allowance records of a row, or the error that ends it. */
  function Extraction(row: seq<Cell>, headers: seq<string>): (r: Result<(Record, seq<AllowanceData>), Failure>)
    ensures r.Err? <==> CategoryReached(row, headers, FieldMapping)
    ensures r.Ok? ==> WellTyped(r.value.0) && r.value.1 == AllowanceRecords(row, AllowanceColumns(headers), AllowanceAmount)
  {
    MappingMissesIsActive();
    match EmployeeFields(row, headers, FieldMapping)
    case Err(e) => Err(e)
    case Ok(fields) => Ok((fields, AllowanceRecords(row, AllowanceColumns(headers), AllowanceAmount)))
  }

  /** `extract_employee_and_allowances_data`; the error stands for the exception it raises. */
  method ExtractEmployeeAndAllowancesData(row: seq<Cell>, headers: seq<string>)
    returns (result: Result<(Record, seq<AllowanceData>), Failure>)
    ensures result == Extraction(row, headers)
  {
    var columns := FindAllowanceColumns(headers);
    MappingMissesIsActive();
    var employeeData := ApplyColumns(row, headers, FieldMapping);
    if employeeData.Err? {
      return Err(employeeData.error);
    }
    var allowancesData := CollectAllowances(row, columns, AllowanceAmount);
    result := Ok((employeeData.value, allowancesData));
  }

  // ---------------------------------------------------------------------------
  // `create_default_allowance_types`

  /** The default allowance types as (Arabic name, name, frequency); the Arabic name is the lookup key. */
  const DefaultTypes: seq<(string, string, Frequency)> := [
    ("بدل السكن", "Housing Allowance", Monthly),
    ("بدل المواصلات", "Transportation Allowance", Monthly),
    ("بدل الطعام", "Food Allowance", Monthly),
    ("بدل الهاتف", "Phone Allowance", Monthly),
    ("بدل الأطفال", "Children Allowance", Monthly),
    ("بدل الخطر", "Risk Allowance", Monthly),
    ("علاوة الأداء", "Performance Bonus", Annual),
    ("مكافأة سنوية", "Annual Bonus", Annual),
    ("تأمين طبي إضافي", "Additional Medical Insurance", Monthly),
    ("وجبات العمل", "Work Meals", Monthly)
  ]

  /** The Arabic names are pairwise distinct, and so are the names. */
  lemma DefaultTypesDistinct()
    ensures forall i, j :: 0 <= i < j < |DefaultTypes| ==> DefaultTypes[i].0 != DefaultTypes[j].0
    ensures forall i, j :: 0 <= i < j < |DefaultTypes| ==> DefaultTypes[i].1 != DefaultTypes[j].1
  {
  }
}
