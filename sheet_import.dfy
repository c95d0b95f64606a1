/**
 * The import of an employee spreadsheet into the three tables it touches
 * (employees, allowance types, allowances), for both variants of the import,
 * and the seeding of the default allowance types. The tables are held in
 * memory: an employee row is its field dictionary keyed by employee number,
 * the allowance types are a sequence of rows in creation order, and an
 * allowance is keyed by (employee number, allowance type name).
 */
module SheetImport {
  import opened Wrappers
  import opened Cells
  import opened Payroll
  import opened SheetRules
  import SheetBasic
  import SheetEnhanced

  /** Which of the two import modules runs; the basic one sees the names of the `EmployeeCategory` rows. */
  datatype Variant = Basic(categories: set<string>) | Enhanced

  // ---------------------------------------------------------------------------
  // Tables

  /** An `AllowanceType` row; `name` is unique. */
  datatype TypeRow = TypeRow(name: string, nameArabic: string, frequency: Frequency, isActive: bool)

  /** The columns of an `Allowance` row other than its employee and its type. */
  datatype AllowanceRow = AllowanceRow(amount: real, kind: AllowanceKind, notes: string, isActive: bool)

  datatype Tables = Tables(
    employees: map<string, Record>,
    types: seq<TypeRow>,
    allowances: map<(string, string), AllowanceRow>)

  /** A message of the import's `errors` list: a whole row, or one allowance of a row, failed. */
  datatype ImportError = RowFailed(row: nat, reason: Failure) | AllowanceFailed(row: nat, reason: Failure)

  /** The dictionary the import returns. */
  datatype Report = Report(importedCount: nat, allowancesCount: nat, errors: seq<ImportError>)

  /** The tables after some rows, and what those rows add to the report. */
  datatype Step = Step(tables: Tables, imported: nat, allowances: nat, errors: seq<ImportError>)

  const AllFields: set<Field> := {
    EmployeeNumber, Name, Nationality, HireDate, IdNumber, Category, BasicSalary,
    InsuranceType, NumWives, NumChildren, RecruitmentCost, TrainingCost, IsActive
  }

  /**
   * What a new employee row holds for the columns the dictionary leaves out:
   * text columns are empty, counts and costs 0, and the row is active. The
   * hire date and the basic salary have no default.
   */
  const EmployeeDefaults: Record := map[
    Name := TextValue(""), Nationality := TextValue(""), IdNumber := TextValue(""),
    Category := CategoryValue(Some("")), InsuranceType := TextValue(""),
    NumWives := CountValue(0), NumChildren := CountValue(0),
    RecruitmentCost := AmountValue(0.0), TrainingCost := AmountValue(0.0),
    IsActive := FlagValue(true)
  ]

  /**
   * An employee row the database accepts: every column is set (the hire date
   * and the basic salary are `NOT NULL`), the category is not `NULL`, and the
   * two counts are not negative (`PositiveIntegerField`).
   */
  predicate Storable(r: Record) {
    AllFields <= r.Keys && WellTyped(r) &&
    r[Category] != CategoryValue(None) && r[NumWives].count >= 0 && r[NumChildren].count >= 0
  }

  predicate TypeNamed(types: seq<TypeRow>, name: string) {
    exists i :: 0 <= i < |types| && types[i].name == name
  }

  predicate UniqueNames(types: seq<TypeRow>) {
    forall i, j :: 0 <= i < j < |types| ==> types[i].name != types[j].name
  }

  /**
   * The tables as the database keeps them: each employee row is storable and
   * filed under its own number, type names are unique, and each allowance
   * points at an employee and a type that exist.
   */
  predicate Valid(t: Tables) {
    (forall k :: k in t.employees ==> Storable(t.employees[k]) && t.employees[k][EmployeeNumber] == TextValue(k)) &&
    UniqueNames(t.types) &&
    (forall key :: key in t.allowances ==> key.0 in t.employees && TypeNamed(t.types, key.1))
  }

  lemma TypeNamedGrows(a: seq<TypeRow>, b: seq<TypeRow>, name: string)
    requires a <= b && TypeNamed(a, name)
    ensures TypeNamed(b, name)
  {
    var i :| 0 <= i < |a| && a[i].name == name;
    assert b[i] == a[i];
  }

  // ---------------------------------------------------------------------------
  // Headers

  /** The header of one truthy header cell. */
  function HeaderOf(v: Variant, c: Cell): string {
    match v
    case Basic(_) => SheetBasic.CleanHeader(Str(c))
    case Enhanced => SheetEnhanced.HeaderText(c)
  }

  /**
   * The header list: one entry per truthy cell of the first row, in order,
   * each the text `headerOf` makes of the cell. The falsy cells are dropped,
   * so a gap in the header row moves every later header one column to the
   * left of the cells it stands above.
   */
  function Headers(headerRow: seq<Cell>, headerOf: Cell -> string): (r: seq<string>)
    ensures |r| <= |headerRow|
  {
    if headerRow == [] then []
    else
      var n := |headerRow| - 1;
      var init := Headers(headerRow[..n], headerOf);
      if Truthy(headerRow[n]) then init + [headerOf(headerRow[n])] else init
  }

  /** The header function of a variant, as a value for `Headers`. */
  function HeaderFn(v: Variant): Cell -> string {
    c => HeaderOf(v, c)
  }

  /** A header row without gaps gives one header per column, each over its own column. */
  lemma {:induction false} HeadersKeepPositions(headerRow: seq<Cell>, headerOf: Cell -> string)
    requires forall k :: 0 <= k < |headerRow| ==> Truthy(headerRow[k])
    ensures |Headers(headerRow, headerOf)| == |headerRow|
    ensures forall k :: 0 <= k < |headerRow| ==> Headers(headerRow, headerOf)[k] == headerOf(headerRow[k])
  {
    if headerRow != [] {
      var n := |headerRow| - 1;
      var p := headerRow[..n];
      assert forall k :: 0 <= k < n ==> p[k] == headerRow[k];
      HeadersKeepPositions(p, headerOf);
      var r := Headers(headerRow, headerOf);
      assert r == Headers(p, headerOf) + [headerOf(headerRow[n])];
      forall k | 0 <= k < |headerRow| ensures r[k] == headerOf(headerRow[k]) {
        if k < n {
          assert r[k] == Headers(p, headerOf)[k];
        }
      }
    }
  }

  /** A falsy header cell anywhere leaves fewer headers than columns. */
  lemma {:induction false} GapDropsHeader(headerRow: seq<Cell>, headerOf: Cell -> string, k: nat)
    requires k < |headerRow| && !Truthy(headerRow[k])
    ensures |Headers(headerRow, headerOf)| < |headerRow|
  {
    var n := |headerRow| - 1;
    var p := headerRow[..n];
    if k < n {
      assert p[k] == headerRow[k];
      GapDropsHeader(p, headerOf, k);
    }
  }

  /** The header loop. */
  method ReadHeaderRow(v: Variant, headerRow: seq<Cell>) returns (headers: seq<string>)
    ensures headers == Headers(headerRow, HeaderFn(v))
  {
    headers := [];
    for k := 0 to |headerRow|
      invariant headers == Headers(headerRow[..k], HeaderFn(v))
    {
      assert headerRow[..k + 1][..k] == headerRow[..k];
      assert headerRow[..k + 1][k] == headerRow[k];
      assert HeaderFn(v)(headerRow[k]) == HeaderOf(v, headerRow[k]);
      if Truthy(headerRow[k]) {
        headers := headers + [HeaderOf(v, headerRow[k])];
      }
    }
    assert headerRow[..|headerRow|] == headerRow;
  }

  /** With an empty cell between two headers, the second header is listed second, over the empty column. */
  lemma HeaderGapShiftsColumns(headerOf: Cell -> string, a: Cell, b: Cell)
    requires Truthy(a) && Truthy(b)
    ensures Headers([a, Empty, b], headerOf) == [headerOf(a), headerOf(b)]
  {
    assert [a][..0] == [];
    assert Headers([a], headerOf) == [headerOf(a)];
    assert [a, Empty][..1] == [a];
    assert Headers([a, Empty], headerOf) == [headerOf(a)];
    assert [a, Empty, b][..2] == [a, Empty];
  }

  // ---------------------------------------------------------------------------
  // One row's employee

  /** What the extraction of one row gives: the two dictionaries, or the exception it raised. */
  type Extracted = Result<(Record, seq<AllowanceData>), Failure>

  /** The two dictionaries a row yields, or the exception extraction raises. */
  function Extract(v: Variant, row: seq<Cell>, headers: seq<string>): (r: Extracted)
    ensures r.Ok? ==> WellTyped(r.value.0)
    ensures r.Err? ==> v.Enhanced? && r.error == CategoryModelUndefined
  {
    match v
    case Basic(categories) => Ok(SheetBasic.Extraction(row, headers, categories))
    case Enhanced => SheetEnhanced.Extraction(row, headers)
  }

  /** The row an employee number gets: the existing row with the dictionary's keys set, or a new row. */
  function Saved(employees: map<string, Record>, key: string, data: Record): Record {
    if key in employees then employees[key] + data else EmployeeDefaults + data
  }

  /**
   * `Employee.objects.get_or_create(employee_number=..., defaults=data)` and,
   * for an existing employee, `setattr` of each key and `save()`: the table
   * after, the employee number, and whether the row was created.
   */
  function SaveEmployee(employees: map<string, Record>, data: Record): (r: Result<(map<string, Record>, string, bool), Failure>)
    requires WellTyped(data)
    ensures EmployeeNumber !in data ==> r == Err(MissingEmployeeNumber)
    ensures EmployeeNumber in data ==>
      var key := data[EmployeeNumber].text;
      (r.Ok? <==> Storable(Saved(employees, key, data))) &&
      (r.Ok? ==> r.value == (employees[key := Saved(employees, key, data)], key, key !in employees)) &&
      (r.Err? ==> r.error == NotStorable)
  {
    if EmployeeNumber !in data then Err(MissingEmployeeNumber)
    else
      var key := data[EmployeeNumber].text;
      var record := if key in employees then employees[key] + data else EmployeeDefaults + data;
      if Storable(record) then Ok((employees[key := record], key, key !in employees)) else Err(NotStorable)
  }

  /** A new employee needs a hire date and a basic salary from the sheet; the model gives them no default. */
  lemma NewEmployeeNeedsDateAndSalary(employees: map<string, Record>, data: Record)
    requires WellTyped(data) && EmployeeNumber in data && data[EmployeeNumber].text !in employees
    requires HireDate !in data || BasicSalary !in data
    ensures SaveEmployee(employees, data) == Err(NotStorable)
  {
    var r := EmployeeDefaults + data;
    assert HireDate !in r || BasicSalary !in r;
    assert !(AllFields <= r.Keys) by {
      assert HireDate in AllFields && BasicSalary in AllFields;
    }
  }

  /** A category the basic lookup did not find cannot be stored, for a new employee or an existing one. */
  lemma UnknownCategoryNotStored(employees: map<string, Record>, data: Record)
    requires WellTyped(data) && EmployeeNumber in data && Category in data && data[Category] == CategoryValue(None)
    ensures SaveEmployee(employees, data) == Err(NotStorable)
  {
    var key := data[EmployeeNumber].text;
    assert Saved(employees, key, data)[Category] == CategoryValue(None);
  }

  /** A saved employee is storable and filed under its number, so saving keeps the employee table valid. */
  lemma SaveKeepsEmployeesValid(t: Tables, data: Record)
    requires Valid(t) && WellTyped(data) && SaveEmployee(t.employees, data).Ok?
    ensures var (after, key, _) := SaveEmployee(t.employees, data).value;
      key in after && t.employees.Keys <= after.Keys && Valid(t.(employees := after))
  {
    var (after, key, _) := SaveEmployee(t.employees, data).value;
    assert Saved(t.employees, key, data)[EmployeeNumber] == TextValue(key);
    forall k | k in after ensures Storable(after[k]) && after[k][EmployeeNumber] == TextValue(k) {
      if k != key {
        assert after[k] == t.employees[k];
      }
    }
  }

  // ---------------------------------------------------------------------------
  // One row's allowances

  /** The positions of the types whose Arabic name is `nameArabic`, in table order. */
  function Matching(types: seq<TypeRow>, nameArabic: string): (r: seq<nat>)
    ensures forall p :: 0 <= p < |r| ==> r[p] < |types| && types[r[p]].nameArabic == nameArabic
    ensures forall i :: 0 <= i < |types| && types[i].nameArabic == nameArabic ==> i in r
  {
    if types == [] then []
    else
      var n := |types| - 1;
      var init := Matching(types[..n], nameArabic);
      assert forall i :: 0 <= i < n ==> types[..n][i] == types[i];
      if types[n].nameArabic == nameArabic then init + [n] else init
  }

  /**
   * `AllowanceType.objects.get_or_create(name_arabic=nameArabic, defaults=...)`:
   * one match is used, none makes a new type, several raise. The table after,
   * and the name of the type used.
   */
  function GetOrCreateByArabic(types: seq<TypeRow>, nameArabic: string, name: string, frequency: Frequency): (r: (seq<TypeRow>, Result<string, Failure>))
    ensures r.1.Ok? <==> |Matching(types, nameArabic)| == 1 || (|Matching(types, nameArabic)| == 0 && !TypeNamed(types, name))
    ensures r.1 == Err(AmbiguousType) <==> |Matching(types, nameArabic)| > 1
    ensures r.1 == Err(TypeNameTaken) <==> |Matching(types, nameArabic)| == 0 && TypeNamed(types, name)
    ensures r.1.Ok? ==> exists i :: 0 <= i < |r.0| && r.0[i].name == r.1.value && r.0[i].nameArabic == nameArabic
    ensures r.0 == types || (r.0 == types + [TypeRow(name, nameArabic, frequency, true)] && |Matching(types, nameArabic)| == 0 && r.1 == Ok(name))
    ensures UniqueNames(types) ==> UniqueNames(r.0)
  {
    var m := Matching(types, nameArabic);
    if |m| == 0 then
      if TypeNamed(types, name) then (types, Err(TypeNameTaken))
      else
        var after := types + [TypeRow(name, nameArabic, frequency, true)];
        assert after[|types|].name == name;
        (after, Ok(name))
    else if |m| == 1 then (types, Ok(types[m[0]].name))
    else (types, Err(AmbiguousType))
  }

  /** Appending a row adds its position to the matches of its own Arabic name only. */
  lemma MatchingAppend(types: seq<TypeRow>, row: TypeRow, nameArabic: string)
    ensures Matching(types + [row], nameArabic) ==
      Matching(types, nameArabic) + (if row.nameArabic == nameArabic then [|types|] else [])
  {
    assert (types + [row])[..|types|] == types;
  }

  /**
   * One allowance of a row: find or make its type, then
   * `Allowance.objects.get_or_create(employee, allowance_type)` and, for an
   * existing one, overwrite amount, kind, notes and the active flag.
   */
  function AllowanceStep(t: Tables, key: string, a: AllowanceData): (r: (Tables, Result<string, Failure>))
    ensures r.0.employees == t.employees && t.types <= r.0.types
    ensures r.1.Err? ==> r.0 == t
    ensures r.1.Ok? ==> r.0.allowances == t.allowances[(key, r.1.value) := AllowanceRow(a.amount, a.kind, a.notes, true)]
    ensures r.1.Ok? ==> exists i :: 0 <= i < |r.0.types| && r.0.types[i].name == r.1.value && r.0.types[i].nameArabic == a.name
  {
    var (types, found) := GetOrCreateByArabic(t.types, a.name, a.name, a.frequency);
    match found
    case Err(_) => (t, found)
    case Ok(name) => (Tables(t.employees, types, t.allowances[(key, name) := AllowanceRow(a.amount, a.kind, a.notes, true)]), found)
  }

  /** The allowance loop of a row: each allowance either counts or adds one error naming the row. */
  function ProcessAllowances(t: Tables, rowNum: nat, key: string, records: seq<AllowanceData>): (r: Step)
    ensures r.imported == 0 && r.allowances + |r.errors| == |records|
    ensures forall k :: 0 <= k < |r.errors| ==> r.errors[k].AllowanceFailed? && r.errors[k].row == rowNum
    ensures r.tables.employees == t.employees && t.types <= r.tables.types
    ensures t.allowances.Keys <= r.tables.allowances.Keys
  {
    if records == [] then Step(t, 0, 0, [])
    else
      var n := |records| - 1;
      var s := ProcessAllowances(t, rowNum, key, records[..n]);
      var (after, found) := AllowanceStep(s.tables, key, records[n]);
      if found.Ok? then Step(after, 0, s.allowances + 1, s.errors)
      else Step(after, 0, s.allowances, s.errors + [AllowanceFailed(rowNum, found.error)])
  }

  lemma AllowanceStepValid(t: Tables, key: string, a: AllowanceData)
    requires Valid(t) && key in t.employees
    ensures Valid(AllowanceStep(t, key, a).0)
  {
    var (after, found) := AllowanceStep(t, key, a);
    if found.Ok? {
      forall k | k in after.allowances ensures k.0 in after.employees && TypeNamed(after.types, k.1) {
        if k in t.allowances {
          TypeNamedGrows(t.types, after.types, k.1);
        }
      }
    }
  }

  lemma {:induction false} ProcessAllowancesValid(t: Tables, rowNum: nat, key: string, records: seq<AllowanceData>)
    requires Valid(t) && key in t.employees
    ensures Valid(ProcessAllowances(t, rowNum, key, records).tables)
  {
    if records != [] {
      var n := |records| - 1;
      ProcessAllowancesValid(t, rowNum, key, records[..n]);
      AllowanceStepValid(ProcessAllowances(t, rowNum, key, records[..n]).tables, key, records[n]);
    }
  }

  // ---------------------------------------------------------------------------
  // Rows

  /** An extraction whose employee dictionaries are well typed. */
  ghost predicate Typed(extract: seq<Cell> -> Extracted) {
    forall row :: extract(row).Ok? ==> WellTyped(extract(row).value.0)
  }

  /** The extraction of a variant under fixed headers, as a function of the row. */
  function RowExtraction(v: Variant, headers: seq<string>): (extract: seq<Cell> -> Extracted)
    ensures Typed(extract)
  {
    row => Extract(v, row, headers)
  }

  /**
   * One data row: an all-falsy row is skipped; an exception from the
   * extraction or from the employee save adds one error for the row and
   * changes nothing; otherwise the employee is saved and its allowances follow.
   */
  function ProcessRow(extract: seq<Cell> -> Extracted, t: Tables, rowNum: nat, row: seq<Cell>): (r: Step)
    requires Typed(extract)
    ensures !AnyTruthy(row) ==> r == Step(t, 0, 0, [])
    ensures r.imported <= 1
    ensures t.employees.Keys <= r.tables.employees.Keys && |r.tables.employees| == |t.employees| + r.imported
    ensures forall k :: 0 <= k < |r.errors| ==> r.errors[k].row == rowNum
    ensures (exists k :: 0 <= k < |r.errors| && r.errors[k].RowFailed?) ==>
      r.tables == t && r.imported == 0 && r.allowances == 0 && |r.errors| == 1
  {
    if !AnyTruthy(row) then Step(t, 0, 0, []) else StoreRow(t, rowNum, extract(row))
  }

  /** A truthy row, once extracted: save the employee, then its allowances. */
  function StoreRow(t: Tables, rowNum: nat, extracted: Extracted): (r: Step)
    requires extracted.Ok? ==> WellTyped(extracted.value.0)
    ensures r.imported <= 1
    ensures t.employees.Keys <= r.tables.employees.Keys && |r.tables.employees| == |t.employees| + r.imported
    ensures forall k :: 0 <= k < |r.errors| ==> r.errors[k].row == rowNum
    ensures (exists k :: 0 <= k < |r.errors| && r.errors[k].RowFailed?) ==>
      r.tables == t && r.imported == 0 && r.allowances == 0 && |r.errors| == 1
  {
    match extracted
    case Err(e) => Step(t, 0, 0, [RowFailed(rowNum, e)])
    case Ok((data, records)) =>
      match SaveEmployee(t.employees, data)
      case Err(e) => Step(t, 0, 0, [RowFailed(rowNum, e)])
      case Ok((employees, key, created)) =>
        var s := ProcessAllowances(t.(employees := employees), rowNum, key, records);
        Step(s.tables, if created then 1 else 0, s.allowances, s.errors)
  }

  lemma ProcessRowValid(extract: seq<Cell> -> Extracted, t: Tables, rowNum: nat, row: seq<Cell>)
    requires Typed(extract) && Valid(t)
    ensures Valid(ProcessRow(extract, t, rowNum, row).tables)
  {
    if AnyTruthy(row) && extract(row).Ok? {
      var (data, records) := extract(row).value;
      if SaveEmployee(t.employees, data).Ok? {
        var (employees, key, _) := SaveEmployee(t.employees, data).value;
        SaveKeepsEmployeesValid(t, data);
        forall k | k in t.allowances ensures k.0 in employees {}
        ProcessAllowancesValid(t.(employees := employees), rowNum, key, records);
      }
    }
  }

  /** The row loop; the data row at index `i` is sheet row `i + 2`. */
  function ImportRows(extract: seq<Cell> -> Extracted, t: Tables, rows: seq<seq<Cell>>): (r: Step)
    requires Typed(extract)
    ensures rows == [] ==> r == Step(t, 0, 0, [])
  {
    if rows == [] then Step(t, 0, 0, [])
    else
      var n := |rows| - 1;
      Advance(extract, ImportRows(extract, t, rows[..n]), n + 2, rows[n])
  }

  /** One turn of the row loop: process the row on the tables so far and add its tallies. */
  function Advance(extract: seq<Cell> -> Extracted, s: Step, rowNum: nat, row: seq<Cell>): (r: Step)
    requires Typed(extract)
    ensures var step := ProcessRow(extract, s.tables, rowNum, row);
      r.tables == step.tables && r.imported == s.imported + step.imported &&
      r.allowances == s.allowances + step.allowances && r.errors == s.errors + step.errors
  {
    var step := ProcessRow(extract, s.tables, rowNum, row);
    Step(step.tables, s.imported + step.imported, s.allowances + step.allowances, s.errors + step.errors)
  }

  /** One more row: the tallies of the rows before it plus its own. */
  lemma ImportRowsStep(extract: seq<Cell> -> Extracted, t: Tables, rows: seq<seq<Cell>>, i: nat)
    requires Typed(extract) && i < |rows|
    ensures ImportRows(extract, t, rows[..i + 1]) == Advance(extract, ImportRows(extract, t, rows[..i]), i + 2, rows[i])
  {
    ghost var p := rows[..i + 1];
    assert |p| - 1 == i && p[..i] == rows[..i] && p[i] == rows[i];
  }

  /**
   * Across the row loop employees are only added, at most one per row, and
   * each error names a sheet row of the loop.
   */
  lemma {:induction false} ImportRowsCounts(extract: seq<Cell> -> Extracted, t: Tables, rows: seq<seq<Cell>>)
    requires Typed(extract)
    ensures var r := ImportRows(extract, t, rows);
      t.employees.Keys <= r.tables.employees.Keys && |r.tables.employees| == |t.employees| + r.imported &&
      r.imported <= |rows| &&
      forall k :: 0 <= k < |r.errors| ==> 2 <= r.errors[k].row < |rows| + 2
  {
    if rows != [] {
      var n := |rows| - 1;
      ImportRowsCounts(extract, t, rows[..n]);
    }
  }

  /** `import_employees_from_excel`, on the header row and the data rows of the sheet. */
  function Import(v: Variant, t: Tables, headerRow: seq<Cell>, rows: seq<seq<Cell>>): (r: (Tables, Report))
  {
    var s := ImportRows(RowExtraction(v, Headers(headerRow, HeaderFn(v))), t, rows);
    (s.tables, Report(s.imported, s.allowances, s.errors))
  }

  /** The row loop keeps the tables valid, whatever the rows hold. */
  lemma {:induction false} ImportRowsValid(extract: seq<Cell> -> Extracted, t: Tables, rows: seq<seq<Cell>>)
    requires Typed(extract) && Valid(t)
    ensures Valid(ImportRows(extract, t, rows).tables)
  {
    if rows != [] {
      var n := |rows| - 1;
      ImportRowsValid(extract, t, rows[..n]);
      ProcessRowValid(extract, ImportRows(extract, t, rows[..n]).tables, n + 2, rows[n]);
    }
  }

  /** The import keeps the tables valid, whatever the sheet holds. */
  lemma ImportValid(v: Variant, t: Tables, headerRow: seq<Cell>, rows: seq<seq<Cell>>)
    requires Valid(t)
    ensures Valid(Import(v, t, headerRow, rows).0)
  {
    ImportRowsValid(RowExtraction(v, Headers(headerRow, HeaderFn(v))), t, rows);
  }

  /** Employees are only ever added, one per created row: the count reported is the growth of the table. */
  lemma ImportCountsNewEmployees(v: Variant, t: Tables, headerRow: seq<Cell>, rows: seq<seq<Cell>>)
    ensures var (after, report) := Import(v, t, headerRow, rows);
      t.employees.Keys <= after.employees.Keys && |after.employees| == |t.employees| + report.importedCount
  {
    ImportRowsCounts(RowExtraction(v, Headers(headerRow, HeaderFn(v))), t, rows);
  }

  /** An enhanced import fails every row that has a cell under the category column, and that row changes nothing. */
  lemma EnhancedCategoryRowFails(t: Tables, headers: seq<string>, rowNum: nat, row: seq<Cell>, i: nat)
    requires AnyTruthy(row)
    requires i < |headers| && i < |row| && !row[i].Empty? && headers[i] in {"الفئة", "category"}
    ensures ProcessRow(RowExtraction(Enhanced, headers), t, rowNum, row) == Step(t, 0, 0, [RowFailed(rowNum, CategoryModelUndefined)])
  {
    SheetEnhanced.CategoryCellFailsRow(row, headers, i);
  }

  /** A row whose extraction succeeds and whose employee saves has each of its allowances counted or reported. */
  lemma SavedRowAccountsForAllowances(extract: seq<Cell> -> Extracted, t: Tables, rowNum: nat, row: seq<Cell>)
    requires Typed(extract) && AnyTruthy(row) && extract(row).Ok?
    requires SaveEmployee(t.employees, extract(row).value.0).Ok?
    ensures var r := ProcessRow(extract, t, rowNum, row);
      r.allowances + |r.errors| == |extract(row).value.1| &&
      forall k :: 0 <= k < |r.errors| ==> r.errors[k].AllowanceFailed?
  {
  }

  // ---------------------------------------------------------------------------
  // Seeding the default allowance types

  /**
   * `AllowanceType.objects.get_or_create(name=name, defaults=...)`: the name is
   * unique, so the lookup finds the one type with that name or makes it.
   */
  function GetOrCreateByName(types: seq<TypeRow>, name: string, nameArabic: string, frequency: Frequency): (r: (seq<TypeRow>, bool))
    ensures r.1 <==> !TypeNamed(types, name)
    ensures r.0 == if r.1 then types + [TypeRow(name, nameArabic, frequency, true)] else types
    ensures TypeNamed(r.0, name)
  {
    if TypeNamed(types, name) then (types, false)
    else
      var after := types + [TypeRow(name, nameArabic, frequency, true)];
      assert after[|types|].name == name;
      (after, true)
  }

  /** The seeding loop of the basic variant: the table after and `created_count`. */
  function SeedByName(types: seq<TypeRow>, defaults: seq<(string, string, Frequency)>): (r: (seq<TypeRow>, nat))
    ensures types <= r.0 && |r.0| == |types| + r.1
    ensures forall i :: 0 <= i < |defaults| ==> TypeNamed(r.0, defaults[i].0)
    ensures UniqueNames(types) ==> UniqueNames(r.0)
  {
    if defaults == [] then (types, 0)
    else
      var n := |defaults| - 1;
      var s := SeedByName(types, defaults[..n]);
      var (after, created) := GetOrCreateByName(s.0, defaults[n].0, defaults[n].1, defaults[n].2);
      forall i | 0 <= i < n ensures TypeNamed(after, defaults[i].0) {
        assert defaults[..n][i] == defaults[i];
        TypeNamedGrows(s.0, after, defaults[i].0);
      }
      (after, s.1 + if created then 1 else 0)
  }

  /** Once every default name is present, seeding creates nothing: the seeding is idempotent. */
  lemma {:induction false} SeedByNameNoop(types: seq<TypeRow>, defaults: seq<(string, string, Frequency)>)
    requires forall i :: 0 <= i < |defaults| ==> TypeNamed(types, defaults[i].0)
    ensures SeedByName(types, defaults) == (types, 0)
  {
    if defaults != [] {
      var n := |defaults| - 1;
      assert forall i :: 0 <= i < n ==> defaults[..n][i] == defaults[i];
      SeedByNameNoop(types, defaults[..n]);
    }
  }

  lemma SeedByNameIdempotent(types: seq<TypeRow>, defaults: seq<(string, string, Frequency)>)
    ensures var once := SeedByName(types, defaults).0;
      SeedByName(once, defaults) == (once, 0)
  {
    SeedByNameNoop(SeedByName(types, defaults).0, defaults);
  }

  /** On a table holding none of the (distinct) default names, every default is created. */
  lemma {:induction false} SeedByNameCreatesAll(types: seq<TypeRow>, defaults: seq<(string, string, Frequency)>)
    requires forall i, j :: 0 <= i < j < |defaults| ==> defaults[i].0 != defaults[j].0
    requires forall i :: 0 <= i < |defaults| ==> !TypeNamed(types, defaults[i].0)
    ensures SeedByName(types, defaults).1 == |defaults|
    ensures SeedByName(types, defaults).0 == types + SeedRows(defaults)
  {
    if defaults != [] {
      var n := |defaults| - 1;
      var p := defaults[..n];
      assert forall i :: 0 <= i < n ==> p[i] == defaults[i];
      SeedByNameCreatesAll(types, p);
      SeededLacksName(types, p, defaults[n].0);
      SeedRowsSnoc(defaults);
    }
  }

  /** A name on neither the table nor the seeded defaults is still missing after the seeding. */
  lemma SeededLacksName(types: seq<TypeRow>, p: seq<(string, string, Frequency)>, name: string)
    requires !TypeNamed(types, name)
    requires forall i :: 0 <= i < |p| ==> p[i].0 != name
    ensures !TypeNamed(types + SeedRows(p), name)
  {
    var all := types + SeedRows(p);
    forall k | 0 <= k < |all| ensures all[k].name != name {
      if k >= |types| {
        assert all[k] == SeedRow(p[k - |types|]);
      }
    }
  }

  lemma SeedRowsSnoc(defaults: seq<(string, string, Frequency)>)
    requires defaults != []
    ensures SeedRows(defaults) == SeedRows(defaults[..|defaults| - 1]) + [SeedRow(defaults[|defaults| - 1])]
  {
  }

  function SeedRow(d: (string, string, Frequency)): TypeRow {
    TypeRow(d.0, d.1, d.2, true)
  }

  /** The rows a seeding of an empty table creates, in order. */
  function SeedRows(defaults: seq<(string, string, Frequency)>): (r: seq<TypeRow>)
    ensures |r| == |defaults| && forall i :: 0 <= i < |r| ==> r[i] == SeedRow(defaults[i])
  {
    seq(|defaults|, i requires 0 <= i < |defaults| => SeedRow(defaults[i]))
  }

  /** Seeding an empty table with the basic defaults creates all fourteen types. */
  lemma BasicSeedOnEmptyTable()
    ensures SeedByName([], SheetBasic.DefaultTypes).1 == 14
  {
    SheetBasic.DefaultTypesDistinct();
    SeedByNameCreatesAll([], SheetBasic.DefaultTypes);
  }

  /**
   * The seeding loop of the enhanced variant, by Arabic name; the first
   * exception ends it, keeping what was created before.
   */
  function SeedByArabic(types: seq<TypeRow>, defaults: seq<(string, string, Frequency)>): (r: (seq<TypeRow>, Option<Failure>))
    ensures types <= r.0
    ensures UniqueNames(types) ==> UniqueNames(r.0)
  {
    if defaults == [] then (types, None)
    else
      var n := |defaults| - 1;
      var s := SeedByArabic(types, defaults[..n]);
      if s.1.Some? then s
      else
        var (after, found) := GetOrCreateByArabic(s.0, defaults[n].0, defaults[n].1, defaults[n].2);
        if found.Err? then (after, Some(found.error)) else (after, None)
  }

  /** Each default's Arabic name is held by exactly one type. */
  predicate EachOnce(types: seq<TypeRow>, defaults: seq<(string, string, Frequency)>) {
    forall i :: 0 <= i < |defaults| ==> |Matching(types, defaults[i].0)| == 1
  }

  /** A seeding that raises nothing leaves each (distinct) Arabic name on exactly one type. */
  lemma {:induction false} SeedByArabicLeavesEachOnce(types: seq<TypeRow>, defaults: seq<(string, string, Frequency)>)
    requires forall i, j :: 0 <= i < j < |defaults| ==> defaults[i].0 != defaults[j].0
    requires SeedByArabic(types, defaults).1.None?
    ensures EachOnce(SeedByArabic(types, defaults).0, defaults)
  {
    if defaults != [] {
      var n := |defaults| - 1;
      var p := defaults[..n];
      assert forall i :: 0 <= i < n ==> p[i] == defaults[i];
      var s := SeedByArabic(types, p);
      SeedByArabicLeavesEachOnce(types, p);
      var (after, found) := GetOrCreateByArabic(s.0, defaults[n].0, defaults[n].1, defaults[n].2);
      forall i | 0 <= i < |defaults| ensures |Matching(after, defaults[i].0)| == 1 {
        if after != s.0 {
          MatchingAppend(s.0, TypeRow(defaults[n].1, defaults[n].0, defaults[n].2, true), defaults[i].0);
        }
      }
    }
  }

  /** When each Arabic name is already held once, the seeding changes nothing and raises nothing. */
  lemma {:induction false} SeedByArabicNoop(types: seq<TypeRow>, defaults: seq<(string, string, Frequency)>)
    requires EachOnce(types, defaults)
    ensures SeedByArabic(types, defaults) == (types, None)
  {
    if defaults != [] {
      var n := |defaults| - 1;
      assert forall i :: 0 <= i < n ==> defaults[..n][i] == defaults[i];
      SeedByArabicNoop(types, defaults[..n]);
    }
  }

  /**
   * Seeding a second time from where the first seeding left the table gives the
   * same outcome: the defaults it got through are each held once and change
   * nothing, and where it raised, the same default raises again on the same table.
   */
  lemma {:induction false} SeedByArabicRerun(types: seq<TypeRow>, defaults: seq<(string, string, Frequency)>)
    requires forall i, j :: 0 <= i < j < |defaults| ==> defaults[i].0 != defaults[j].0
    ensures var once := SeedByArabic(types, defaults);
      SeedByArabic(once.0, defaults) == once
  {
    if defaults != [] {
      var n := |defaults| - 1;
      var p := defaults[..n];
      assert forall i :: 0 <= i < n ==> p[i] == defaults[i];
      var s := SeedByArabic(types, p);
      if s.1.Some? {
        SeedByArabicRerun(types, p);
      } else {
        var (after, found) := GetOrCreateByArabic(s.0, defaults[n].0, defaults[n].1, defaults[n].2);
        SeedByArabicLeavesEachOnce(types, p);
        forall i | 0 <= i < n ensures |Matching(after, p[i].0)| == 1 {
          if after != s.0 {
            MatchingAppend(s.0, TypeRow(defaults[n].1, defaults[n].0, defaults[n].2, true), p[i].0);
          }
        }
        SeedByArabicNoop(after, p);
        if found.Ok? && after != s.0 {
          MatchingAppend(s.0, TypeRow(defaults[n].1, defaults[n].0, defaults[n].2, true), defaults[n].0);
        }
      }
    }
  }

  /**
   * Seeding the enhanced defaults twice gives what seeding once gives, also
   * when the first seeding raised (a name held by several types, or a new
   * type whose name is taken).
   */
  lemma EnhancedSeedIdempotent(types: seq<TypeRow>)
    ensures var once := SeedByArabic(types, SheetEnhanced.DefaultTypes);
      SeedByArabic(once.0, SheetEnhanced.DefaultTypes) == once
  {
    SheetEnhanced.DefaultTypesDistinct();
    SeedByArabicRerun(types, SheetEnhanced.DefaultTypes);
  }

  // ---------------------------------------------------------------------------
  // The database

  /** The three tables, updated in place by the seeding and the import. */
  class Database {
    var employees: map<string, Record>
    var types: seq<TypeRow>
    var allowances: map<(string, string), AllowanceRow>

    function Contents(): Tables
      reads this
    {
      Tables(employees, types, allowances)
    }

    constructor (t: Tables)
      ensures Contents() == t
    {
      employees := t.employees;
      types := t.types;
      allowances := t.allowances;
    }

    /** The `get_or_create` loop over a list of defaults, by name. */
    method SeedTypesByName(defaults: seq<(string, string, Frequency)>) returns (createdCount: nat)
      modifies this
      ensures (types, createdCount) == SeedByName(old(types), defaults)
      ensures employees == old(employees) && allowances == old(allowances)
    {
      createdCount := 0;
      for i := 0 to |defaults|
        invariant (types, createdCount) == SeedByName(old(types), defaults[..i])
        invariant employees == old(employees) && allowances == old(allowances)
      {
        assert defaults[..i + 1][..i] == defaults[..i];
        var (name, nameArabic, frequency) := defaults[i];
        var (after, created) := GetOrCreateByName(types, name, nameArabic, frequency);
        types := after;
        if created {
          createdCount := createdCount + 1;
        }
      }
      assert defaults[..|defaults|] == defaults;
    }

    /** `create_default_allowance_types` of the basic variant. */
    method CreateDefaultAllowanceTypesBasic() returns (createdCount: nat)
      modifies this
      ensures (types, createdCount) == SeedByName(old(types), SheetBasic.DefaultTypes)
      ensures employees == old(employees) && allowances == old(allowances)
    {
      createdCount := SeedTypesByName(SheetBasic.DefaultTypes);
    }

    /** The `get_or_create` loop over a list of defaults, by Arabic name; `failure` is the exception raised. */
    method SeedTypesByArabic(defaults: seq<(string, string, Frequency)>) returns (failure: Option<Failure>)
      modifies this
      ensures (types, failure) == SeedByArabic(old(types), defaults)
      ensures employees == old(employees) && allowances == old(allowances)
    {
      failure := None;
      for i := 0 to |defaults|
        invariant (types, failure) == SeedByArabic(old(types), defaults[..i])
        invariant failure.None?
        invariant employees == old(employees) && allowances == old(allowances)
      {
        assert defaults[..i + 1][..i] == defaults[..i];
        var (nameArabic, name, frequency) := defaults[i];
        var (after, found) := GetOrCreateByArabic(types, nameArabic, name, frequency);
        types := after;
        if found.Err? {
          failure := Some(found.error);
          SeedStops(old(types), defaults, i + 1);
          return;
        }
      }
      assert defaults[..|defaults|] == defaults;
    }

    /** `create_default_allowance_types` of the enhanced variant. */
    method CreateDefaultAllowanceTypesEnhanced() returns (failure: Option<Failure>)
      modifies this
      ensures (types, failure) == SeedByArabic(old(types), SheetEnhanced.DefaultTypes)
      ensures employees == old(employees) && allowances == old(allowances)
    {
      failure := SeedTypesByArabic(SheetEnhanced.DefaultTypes);
    }

    /** One data row of the import loop. */
    method ImportRow(v: Variant, headers: seq<string>, rowNum: nat, row: seq<Cell>)
      returns (imported: nat, count: nat, errors: seq<ImportError>)
      modifies this
      ensures Step(Contents(), imported, count, errors) == ProcessRow(RowExtraction(v, headers), old(Contents()), rowNum, row)
    {
      if !AnyTruthy(row) {
        return 0, 0, [];
      }
      var extracted: Extracted;
      match v {
        case Basic(categories) =>
          var employeeData, allowancesData := SheetBasic.ExtractEmployeeAndAllowancesData(row, headers, categories);
          extracted := Ok((employeeData, allowancesData));
        case Enhanced =>
          extracted := SheetEnhanced.ExtractEmployeeAndAllowancesData(row, headers);
      }
      assert extracted == Extract(v, row, headers);
      imported, count, errors := Store(rowNum, extracted);
    }

    /** The rest of the row's `try` block: the employee's `get_or_create` and save, then its allowances. */
    method Store(rowNum: nat, extracted: Extracted)
      returns (imported: nat, count: nat, errors: seq<ImportError>)
      requires extracted.Ok? ==> WellTyped(extracted.value.0)
      modifies this
      ensures Step(Contents(), imported, count, errors) == StoreRow(old(Contents()), rowNum, extracted)
    {
      if extracted.Err? {
        return 0, 0, [RowFailed(rowNum, extracted.error)];
      }
      var (data, records) := extracted.value;
      if EmployeeNumber !in data {
        return 0, 0, [RowFailed(rowNum, MissingEmployeeNumber)];
      }
      var key := data[EmployeeNumber].text;
      var created := key !in employees;
      var record := if created then EmployeeDefaults + data else employees[key] + data;
      if !Storable(record) {
        return 0, 0, [RowFailed(rowNum, NotStorable)];
      }
      employees := employees[key := record];
      imported := if created then 1 else 0;
      count, errors := AddAllowances(rowNum, key, records);
    }

    /** The allowance loop of a row whose employee was saved under `key`. */
    method AddAllowances(rowNum: nat, key: string, records: seq<AllowanceData>) returns (count: nat, errors: seq<ImportError>)
      modifies this
      ensures Step(Contents(), 0, count, errors) == ProcessAllowances(old(Contents()), rowNum, key, records)
    {
      count, errors := 0, [];
      for p := 0 to |records|
        invariant Step(Contents(), 0, count, errors) == ProcessAllowances(old(Contents()), rowNum, key, records[..p])
      {
        assert records[..p + 1][..p] == records[..p];
        var a := records[p];
        var (after, found) := GetOrCreateByArabic(types, a.name, a.name, a.frequency);
        if found.Err? {
          errors := errors + [AllowanceFailed(rowNum, found.error)];
        } else {
          types := after;
          allowances := allowances[(key, found.value) := AllowanceRow(a.amount, a.kind, a.notes, true)];
          count := count + 1;
        }
      }
      assert records[..|records|] == records;
    }

    /** `import_employees_from_excel`: the header row, then the data rows from sheet row 2 on. */
    method ImportEmployeesFromExcel(v: Variant, headerRow: seq<Cell>, rows: seq<seq<Cell>>) returns (report: Report)
      modifies this
      ensures (Contents(), report) == Import(v, old(Contents()), headerRow, rows)
    {
      var headers := ReadHeaderRow(v, headerRow);
      var importedCount, allowancesCount, errors := ImportRowsFrom(v, headers, rows);
      report := Report(importedCount, allowancesCount, errors);
    }

    /** The row loop of the import, with its three tallies. */
    method ImportRowsFrom(v: Variant, headers: seq<string>, rows: seq<seq<Cell>>)
      returns (importedCount: nat, allowancesCount: nat, errors: seq<ImportError>)
      modifies this
      ensures Step(Contents(), importedCount, allowancesCount, errors) == ImportRows(RowExtraction(v, headers), old(Contents()), rows)
    {
      ghost var extract, start := RowExtraction(v, headers), Contents();
      importedCount, allowancesCount, errors := 0, 0, [];
      for i := 0 to |rows|
        invariant Step(Contents(), importedCount, allowancesCount, errors) == ImportRows(extract, start, rows[..i])
      {
        ImportRowsStep(extract, start, rows, i);
        var created, count, rowErrors := ImportRow(v, headers, i + 2, rows[i]);
        importedCount := importedCount + created;
        allowancesCount := allowancesCount + count;
        errors := errors + rowErrors;
      }
      assert rows[..|rows|] == rows;
    }
  }

  /** After the first exception, the remaining defaults are not looked at. */
  lemma {:induction false} SeedStops(types: seq<TypeRow>, defaults: seq<(string, string, Frequency)>, n: nat)
    requires n <= |defaults| && SeedByArabic(types, defaults[..n]).1.Some?
    ensures SeedByArabic(types, defaults) == SeedByArabic(types, defaults[..n])
    decreases |defaults| - n
  {
    if n < |defaults| {
      assert defaults[..n + 1][..n] == defaults[..n];
      SeedStops(types, defaults, n + 1);
    } else {
      assert defaults[..n] == defaults;
    }
  }
}
