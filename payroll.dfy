/**
 * The per-employee cost rules of the employee, allowance-type and allowance
 * records: proration of one allowance to a monthly or an annual figure, and
 * the employee's monthly gross, annual total cost and cost factor.
 * Decimal amounts are exact reals.
 */
module Payroll {
  import opened Wrappers
  import opened Calendar

  /** The frequencies an allowance type can carry. */
  datatype Frequency = Monthly | Annual | OneTime | Biennial | Custom

  /** Cash (`CASH`) or in kind (`IN_KIND`). */
  datatype AllowanceKind = Cash | InKind

  /** `custom_months` is nullable; it is read only for `Custom` types. */
  datatype AllowanceType = AllowanceType(
    name: string,
    nameArabic: string,
    frequency: Frequency,
    customMonths: Option<int>,
    isActive: bool)

  datatype Allowance = Allowance(
    allowanceType: AllowanceType,
    amount: real,
    kind: AllowanceKind,
    notes: string,
    isActive: bool)

  /** An employee with the allowances that point at it (`employee.allowances.all()`). */
  datatype Employee = Employee(
    employeeNumber: string,
    name: string,
    nationality: string,
    hireDate: Date,
    idNumber: string,
    category: string,
    basicSalary: real,
    insuranceType: string,
    numWives: nat,
    numChildren: nat,
    recruitmentCost: real,
    trainingCost: real,
    isActive: bool,
    allowances: seq<Allowance>)

  // ---------------------------------------------------------------------------
  // Validators and constraints (enforced by forms and the database, not by the
  // cost methods)

  /** `MinValueValidator(Decimal('0.01'))` on the basic salary. */
  predicate ValidBasicSalary(e: Employee) {
    e.basicSalary >= 0.01
  }

  /** `MinValueValidator(Decimal('0.00'))` on an allowance amount. */
  predicate NonNegativeAmounts(s: seq<Allowance>) {
    forall i :: 0 <= i < |s| ==> s[i].amount >= 0.0
  }

  /** `unique_together = ['employee', 'allowance_type']`; a type is identified by its unique name. */
  predicate UniqueAllowanceTypes(e: Employee) {
    forall i, j :: 0 <= i < j < |e.allowances| ==>
      e.allowances[i].allowanceType.name != e.allowances[j].allowanceType.name
  }

  predicate ValidEmployee(e: Employee) {
    ValidBasicSalary(e) && NonNegativeAmounts(e.allowances) && UniqueAllowanceTypes(e)
  }

  // ---------------------------------------------------------------------------
  // One allowance

  /** The monthly figure of one allowance: only monthly and annual types contribute. */
  function MonthlyAmount(a: Allowance): (r: real)
    ensures a.amount >= 0.0 ==> 0.0 <= r <= a.amount
  {
    match a.allowanceType.frequency
    case Monthly => a.amount
    case Annual => a.amount / 12.0
    case _ => 0.0
  }

  /** The annual figure of one allowance: every type other than monthly counts once. */
  function AnnualAmount(a: Allowance): (r: real)
    ensures a.amount >= 0.0 ==> a.amount <= r <= 12.0 * a.amount
  {
    match a.allowanceType.frequency
    case Annual => a.amount
    case Monthly => a.amount * 12.0
    case _ => a.amount
  }

  /**
   * A monthly allowance's monthly figure and an annual one's annual figure
   * are its amount, and both have an annual figure twelve times their
   * monthly one; every other frequency has no monthly figure and its raw
   * amount as annual figure.
   */
  lemma AnnualIsTwelveMonthly(a: Allowance)
    ensures a.allowanceType.frequency == Monthly ==> MonthlyAmount(a) == a.amount
    ensures a.allowanceType.frequency == Annual ==> AnnualAmount(a) == a.amount
    ensures a.allowanceType.frequency in {Monthly, Annual} ==> AnnualAmount(a) == 12.0 * MonthlyAmount(a)
    ensures a.allowanceType.frequency !in {Monthly, Annual} ==>
      MonthlyAmount(a) == 0.0 && AnnualAmount(a) == a.amount
  {
  }

  // ---------------------------------------------------------------------------
  // Sums over all of an employee's allowances, active or not

  function TotalMonthly(s: seq<Allowance>): (r: real)
    ensures NonNegativeAmounts(s) ==> r >= 0.0
  {
    if s == [] then 0.0 else MonthlyAmount(s[0]) + TotalMonthly(s[1..])
  }

  function TotalAnnual(s: seq<Allowance>): (r: real)
    ensures NonNegativeAmounts(s) ==> r >= 0.0
  {
    if s == [] then 0.0 else AnnualAmount(s[0]) + TotalAnnual(s[1..])
  }

  lemma {:induction false} TotalMonthlyAppend(s: seq<Allowance>, a: Allowance)
    ensures TotalMonthly(s + [a]) == TotalMonthly(s) + MonthlyAmount(a)
  {
    if s == [] {
      assert [a][1..] == [];
    } else {
      assert (s + [a])[1..] == s[1..] + [a];
      TotalMonthlyAppend(s[1..], a);
    }
  }

  /** Over monthly and annual allowances only, the annual sum is twelve times the monthly sum. */
  lemma {:induction false} TwelveMonthlyTotals(s: seq<Allowance>)
    requires forall i :: 0 <= i < |s| ==> s[i].allowanceType.frequency in {Monthly, Annual}
    ensures TotalAnnual(s) == 12.0 * TotalMonthly(s)
  {
    if s != [] {
      assert forall i :: 0 <= i < |s[1..]| ==> s[1..][i] == s[i + 1];
      TwelveMonthlyTotals(s[1..]);
      AnnualIsTwelveMonthly(s[0]);
    }
  }

  /** `get_total_monthly_allowances`. */
  function TotalMonthlyAllowances(e: Employee): (r: real)
    ensures NonNegativeAmounts(e.allowances) ==> r >= 0.0
  {
    TotalMonthly(e.allowances)
  }

  /** `get_monthly_gross_salary`: never below the basic salary. */
  function MonthlyGrossSalary(e: Employee): (r: real)
    ensures NonNegativeAmounts(e.allowances) ==> r >= e.basicSalary
  {
    e.basicSalary + TotalMonthlyAllowances(e)
  }

  /** `get_annual_allowances`. */
  function AnnualAllowances(e: Employee): (r: real)
    ensures NonNegativeAmounts(e.allowances) ==> r >= 0.0
  {
    TotalAnnual(e.allowances)
  }

  /** `get_one_time_costs`. */
  function OneTimeCosts(e: Employee): real {
    e.recruitmentCost + e.trainingCost
  }

  /** One-time costs read only the two cost fields, never the allowances. */
  lemma OneTimeCostsIgnoreAllowances(e: Employee, others: seq<Allowance>)
    ensures OneTimeCosts(e.(allowances := others)) == OneTimeCosts(e)
    ensures OneTimeCosts(e) == e.recruitmentCost + e.trainingCost
  {
  }

  /** `get_annual_total_cost`: twelve monthly grosses plus the annual allowances. */
  function AnnualTotalCost(e: Employee): (r: real)
    ensures NonNegativeAmounts(e.allowances) ==> r >= 12.0 * e.basicSalary
  {
    MonthlyGrossSalary(e) * 12.0 + AnnualAllowances(e)
  }

  /** `get_cost_factor`: annual total over twelve basic salaries, 0 when there is no basic salary. */
  function CostFactor(e: Employee): (r: real)
    ensures e.basicSalary <= 0.0 ==> r == 0.0
    ensures e.basicSalary > 0.0 ==> r * (12.0 * e.basicSalary) == AnnualTotalCost(e)
  {
    if e.basicSalary > 0.0 then AnnualTotalCost(e) / (e.basicSalary * 12.0) else 0.0
  }

  lemma CostFactorAtLeastOne(e: Employee)
    requires e.basicSalary > 0.0 && NonNegativeAmounts(e.allowances)
    ensures CostFactor(e) >= 1.0
  {
    QuotientAtLeastOne(AnnualTotalCost(e), e.basicSalary * 12.0);
  }

  /**
   * For an employee the model validators accept (basic salary at least 0.01,
   * amounts at least 0), the annual total cost is at least twelve basic
   * salaries, the cost factor at least 1, and one-time costs stay apart.
   */
  lemma ValidEmployeeCosts(e: Employee)
    requires ValidEmployee(e)
    ensures AnnualTotalCost(e) >= 12.0 * e.basicSalary > 0.0
    ensures CostFactor(e) >= 1.0
    ensures CostFactor(e) * (12.0 * e.basicSalary) == AnnualTotalCost(e)
  {
    CostFactorAtLeastOne(e);
  }

  lemma QuotientAtLeastOne(x: real, b: real)
    requires 0.0 < b <= x
    ensures x / b >= 1.0
  {
    assert x / b * b == x;
  }

  // ---------------------------------------------------------------------------
  // What the annual total actually adds up

  /**
   * What one allowance adds to the annual total cost: its monthly figure
   * enters through the twelve monthly grosses and its annual figure on top,
   * so monthly and annual allowances are counted twice.
   */
  function AnnualContribution(a: Allowance): real {
    match a.allowanceType.frequency
    case Monthly => 24.0 * a.amount
    case Annual => 2.0 * a.amount
    case _ => a.amount
  }

  function TotalContribution(s: seq<Allowance>): real {
    if s == [] then 0.0 else AnnualContribution(s[0]) + TotalContribution(s[1..])
  }

  lemma {:induction false} ContributionSplits(s: seq<Allowance>)
    ensures 12.0 * TotalMonthly(s) + TotalAnnual(s) == TotalContribution(s)
  {
    if s != [] {
      ContributionSplits(s[1..]);
      AnnualIsTwelveMonthly(s[0]);
    }
  }

  /** The annual total cost is twelve basic salaries plus each allowance's contribution. */
  lemma AnnualTotalCostDoubleCounts(e: Employee)
    ensures AnnualTotalCost(e) == 12.0 * e.basicSalary + TotalContribution(e.allowances)
  {
    ContributionSplits(e.allowances);
  }

  /** An employee with one monthly allowance of 100 and basic salary 1000 costs 14400 a year, not 13200. */
  lemma MonthlyAllowanceCountedTwice(e: Employee, t: AllowanceType)
    requires e.basicSalary == 1000.0 && t.frequency == Monthly
    requires e.allowances == [Allowance(t, 100.0, Cash, "", true)]
    ensures AnnualTotalCost(e) == 14400.0
    ensures CostFactor(e) == 1.2
  {
    assert e.allowances[1..] == [];
    assert TotalMonthly(e.allowances) == 100.0;
    assert TotalAnnual(e.allowances) == 1200.0;
  }
}
