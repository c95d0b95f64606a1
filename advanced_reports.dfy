/**
 * The advanced report generator: years of service, efficiency ratio and
 * metrics, the salary distribution and the cost-analysis summary, over the
 * employee population the generator is built with.
 */
module AdvancedReports {
  import opened Wrappers
  import opened Calendar
  import opened Payroll

  // ---------------------------------------------------------------------------
  // The population

  function ActiveOnly(all: seq<Employee>): (r: seq<Employee>)
    ensures |r| <= |all|
    ensures forall i :: 0 <= i < |r| ==> r[i].isActive
    ensures forall i :: 0 <= i < |all| && all[i].isActive ==> all[i] in r
    ensures forall e :: e in r ==> e in all
  {
    if all == [] then []
    else if all[0].isActive then [all[0]] + ActiveOnly(all[1..])
    else ActiveOnly(all[1..])
  }

  /**
   * `queryset or Employee.objects.filter(is_active=True)`: a missing or EMPTY
   * queryset falls back to every active employee.
   */
  function Population(queryset: Option<seq<Employee>>, all: seq<Employee>): (r: seq<Employee>)
    ensures queryset.Some? && |queryset.value| > 0 ==> r == queryset.value
    ensures (queryset.None? || queryset.value == []) ==> r == ActiveOnly(all)
  {
    if queryset.Some? && |queryset.value| > 0 then queryset.value else ActiveOnly(all)
  }

  // ---------------------------------------------------------------------------
  // Years of service (`today` is the caller's clock)

  function YearsOfService(hire: Date, today: Date): int {
    var years := today.year - hire.year;
    if today.month < hire.month || (today.month == hire.month && today.day < hire.day) then years - 1
    else years
  }

  /** The `k`-th anniversary (day and month of hire, `k` years on) is on or before `today`. */
  predicate AnniversaryReached(hire: Date, k: int, today: Date) {
    OnOrBefore(Date(hire.year + k, hire.month, hire.day), today)
  }

  /** Years of service is the number of the last anniversary reached: every earlier one is reached, no later one is. */
  lemma YearsOfServiceIsLastAnniversary(hire: Date, today: Date, k: int)
    ensures AnniversaryReached(hire, k, today) <==> k <= YearsOfService(hire, today)
  {
  }

  lemma YearsOfServiceNonNegative(hire: Date, today: Date)
    requires OnOrBefore(hire, today)
    ensures YearsOfService(hire, today) >= 0
  {
    YearsOfServiceIsLastAnniversary(hire, today, 0);
  }

  lemma YearsOfServiceMonotone(hire: Date, today: Date, later: Date)
    requires OnOrBefore(today, later)
    ensures YearsOfService(hire, today) <= YearsOfService(hire, later)
  {
    var k := YearsOfService(hire, today);
    YearsOfServiceIsLastAnniversary(hire, today, k);
    YearsOfServiceIsLastAnniversary(hire, later, k);
  }

  /** Hired two years and a day before, two years; two years less a day before, one year; on the anniversary, two. */
  lemma YearsOfServiceExamples()
    ensures YearsOfService(Date(2022, 3, 14), Date(2024, 3, 15)) == 2
    ensures YearsOfService(Date(2022, 3, 16), Date(2024, 3, 15)) == 1
    ensures YearsOfService(Date(2022, 3, 15), Date(2024, 3, 15)) == 2
  {
  }

  // ---------------------------------------------------------------------------
  // Efficiency

  /** `_calculate_efficiency_ratio`: twelve basic salaries over the annual total cost, 0 without a cost. */
  function EfficiencyRatio(e: Employee): (r: real)
    ensures AnnualTotalCost(e) <= 0.0 ==> r == 0.0
    ensures AnnualTotalCost(e) > 0.0 ==> r * AnnualTotalCost(e) == 12.0 * e.basicSalary
  {
    var cost := AnnualTotalCost(e);
    if cost > 0.0 then e.basicSalary * 12.0 / cost else 0.0
  }

  /** For an employee with a basic salary, the efficiency ratio is the inverse of the cost factor, in (0, 1]. */
  lemma EfficiencyInvertsCostFactor(e: Employee)
    requires e.basicSalary > 0.0 && NonNegativeAmounts(e.allowances)
    ensures EfficiencyRatio(e) * CostFactor(e) == 1.0
    ensures 0.0 < EfficiencyRatio(e) <= 1.0
  {
    var b := 12.0 * e.basicSalary;
    var c := AnnualTotalCost(e);
    assert c >= b;
    ProductOfQuotients(b, c);
    QuotientAtMostOne(b, c);
  }

  lemma ProductOfQuotients(b: real, c: real)
    requires 0.0 < b && 0.0 < c
    ensures (b / c) * (c / b) == 1.0
  {
    assert (b / c) * c == b;
    assert (c / b) * b == c;
  }

  lemma QuotientAtMostOne(b: real, c: real)
    requires 0.0 < b <= c
    ensures 0.0 < b / c <= 1.0
  {
    assert (b / c) * c == b;
  }

  function Ratios(employees: seq<Employee>): (r: seq<real>)
    ensures |r| == |employees|
    ensures forall i :: 0 <= i < |r| ==> r[i] == EfficiencyRatio(employees[i])
  {
    seq(|employees|, i requires 0 <= i < |employees| => EfficiencyRatio(employees[i]))
  }

  function Sum(s: seq<real>): real {
    if s == [] then 0.0 else s[0] + Sum(s[1..])
  }

  function Max(s: seq<real>): (r: real)
    requires |s| > 0
    ensures r in s
    ensures forall i :: 0 <= i < |s| ==> s[i] <= r
  {
    if |s| == 1 then s[0]
    else
      var m := Max(s[1..]);
      assert forall i :: 1 <= i < |s| ==> s[i] == s[1..][i - 1];
      if s[0] >= m then s[0] else m
  }

  function Min(s: seq<real>): (r: real)
    requires |s| > 0
    ensures r in s
    ensures forall i :: 0 <= i < |s| ==> r <= s[i]
  {
    if |s| == 1 then s[0]
    else
      var m := Min(s[1..]);
      assert forall i :: 1 <= i < |s| ==> s[i] == s[1..][i - 1];
      if s[0] <= m then s[0] else m
  }

  function CountAtLeast(s: seq<real>, t: real): (n: nat)
    ensures n <= |s|
  {
    if s == [] then 0 else (if s[0] >= t then 1 else 0) + CountAtLeast(s[1..], t)
  }

  function CountBelow(s: seq<real>, t: real): (n: nat)
    ensures n <= |s|
  {
    if s == [] then 0 else (if s[0] < t then 1 else 0) + CountBelow(s[1..], t)
  }

  function CountBetween(s: seq<real>, lo: real, hi: real): (n: nat)
    ensures n <= |s|
  {
    if s == [] then 0 else (if lo <= s[0] < hi then 1 else 0) + CountBetween(s[1..], lo, hi)
  }

  /** Every ratio is at least `hi`, below `lo`, or in between, and in exactly one of the three. */
  lemma {:induction false} ThresholdsPartition(s: seq<real>, lo: real, hi: real)
    requires lo <= hi
    ensures CountAtLeast(s, hi) + CountBelow(s, lo) + CountBetween(s, lo, hi) == |s|
  {
    if s != [] {
      ThresholdsPartition(s[1..], lo, hi);
    }
  }

  lemma {:induction false} SumBounds(s: seq<real>, lo: real, hi: real)
    requires forall i :: 0 <= i < |s| ==> lo <= s[i] <= hi
    ensures |s| as real * lo <= Sum(s) <= |s| as real * hi
  {
    if s != [] {
      assert forall i :: 0 <= i < |s[1..]| ==> s[1..][i] == s[i + 1];
      SumBounds(s[1..], lo, hi);
    }
  }

  lemma AverageBetween(total: real, n: real, lo: real, hi: real)
    requires n > 0.0 && n * lo <= total <= n * hi
    ensures lo <= total / n <= hi
  {
    assert (total / n) * n == total;
  }

  datatype Metrics = Metrics(highest: real, lowest: real, average: real, above70: nat, below50: nat)

  /**
   * `_calculate_efficiency_metrics` on the list of ratios: nothing for an
   * empty list; otherwise the extremes and the mean of the ratios and how
   * many reach 0.7 or fall below 0.5.
   */
  function MetricsOf(ratios: seq<real>): (r: Option<Metrics>)
    ensures r.None? <==> ratios == []
  {
    if ratios == [] then None
    else
      var n := |ratios| as real;
      Some(Metrics(Max(ratios), Min(ratios), Sum(ratios) / n, CountAtLeast(ratios, 0.7), CountBelow(ratios, 0.5)))
  }

  /**
   * The mean lies between the extremes, both extremes are ratios of the
   * population, and no ratio is counted both high and low.
   */
  lemma MetricsBounds(ratios: seq<real>)
    requires ratios != []
    ensures var m := MetricsOf(ratios).value;
      m.lowest <= m.average <= m.highest && m.lowest in ratios && m.highest in ratios &&
      m.above70 + m.below50 <= |ratios|
  {
    MeanBetween(ratios, Min(ratios), Max(ratios));
    ThresholdsPartition(ratios, 0.5, 0.7);
  }

  /** The mean of values that all lie in `[lo, hi]` lies there too. */
  lemma MeanBetween(s: seq<real>, lo: real, hi: real)
    requires s != []
    requires forall i :: 0 <= i < |s| ==> lo <= s[i] <= hi
    ensures lo <= Sum(s) / (|s| as real) <= hi
  {
    SumBounds(s, lo, hi);
    AverageBetween(Sum(s), |s| as real, lo, hi);
  }

  /** The efficiency metrics of a population. */
  function EfficiencyMetrics(employees: seq<Employee>): (r: Option<Metrics>)
    ensures r.None? <==> employees == []
  {
    MetricsOf(Ratios(employees))
  }

  // ---------------------------------------------------------------------------
  // Salary distribution

  /** A half-open range `[low, high)`; no `high` means unbounded. */
  datatype SalaryRange = SalaryRange(low: real, high: Option<real>, title: string)

  const SalaryRanges: seq<SalaryRange> := [
    SalaryRange(0.0, Some(1000.0), "أقل من 1,000"),
    SalaryRange(1000.0, Some(2000.0), "1,000 - 2,000"),
    SalaryRange(2000.0, Some(5000.0), "2,000 - 5,000"),
    SalaryRange(5000.0, Some(10000.0), "5,000 - 10,000"),
    SalaryRange(10000.0, None, "أكثر من 10,000")
  ]

  predicate InRange(x: real, r: SalaryRange) {
    r.low <= x && (r.high.None? || x < r.high.value)
  }

  function CountInRange(employees: seq<Employee>, r: SalaryRange): (n: nat)
    ensures n <= |employees|
  {
    if employees == [] then 0
    else (if InRange(employees[0].basicSalary, r) then 1 else 0) + CountInRange(employees[1..], r)
  }

  function CountNonNegative(employees: seq<Employee>): (n: nat)
    ensures n <= |employees|
  {
    if employees == [] then 0
    else (if employees[0].basicSalary >= 0.0 then 1 else 0) + CountNonNegative(employees[1..])
  }

  /** The range a non-negative salary falls in. */
  function RangeIndex(x: real): (i: nat)
    requires x >= 0.0
    ensures i < |SalaryRanges|
  {
    if x < 1000.0 then 0 else if x < 2000.0 then 1 else if x < 5000.0 then 2 else if x < 10000.0 then 3 else 4
  }

  /** Every non-negative salary is in exactly one range; a negative one is in none. */
  lemma RangesPartition(x: real, i: nat)
    requires i < |SalaryRanges|
    ensures x >= 0.0 ==> (InRange(x, SalaryRanges[i]) <==> i == RangeIndex(x))
    ensures x < 0.0 ==> !InRange(x, SalaryRanges[i])
  {
  }

  function DistributionTotal(employees: seq<Employee>): nat {
    CountInRange(employees, SalaryRanges[0]) + CountInRange(employees, SalaryRanges[1])
    + CountInRange(employees, SalaryRanges[2]) + CountInRange(employees, SalaryRanges[3])
    + CountInRange(employees, SalaryRanges[4])
  }

  /** The bucket counts add up to the number of employees with a non-negative salary. */
  lemma {:induction false} DistributionCountsEveryone(employees: seq<Employee>)
    ensures DistributionTotal(employees) == CountNonNegative(employees)
  {
    if employees != [] {
      DistributionCountsEveryone(employees[1..]);
      var x := employees[0].basicSalary;
      RangesPartition(x, 0);
      RangesPartition(x, 1);
      RangesPartition(x, 2);
      RangesPartition(x, 3);
      RangesPartition(x, 4);
    }
  }

  lemma {:induction false} AllNonNegative(employees: seq<Employee>)
    requires forall i :: 0 <= i < |employees| ==> employees[i].basicSalary >= 0.0
    ensures CountNonNegative(employees) == |employees|
  {
    if employees != [] {
      AllNonNegative(employees[1..]);
    }
  }

  /** `generate_salary_distribution_report` without the rounded percentages: one count per range title, in range order. */
  method SalaryDistribution(employees: seq<Employee>) returns (distribution: seq<(string, nat)>)
    ensures |distribution| == |SalaryRanges|
    ensures forall i :: 0 <= i < |SalaryRanges| ==>
      distribution[i] == (SalaryRanges[i].title, CountInRange(employees, SalaryRanges[i]))
  {
    distribution := [];
    for i := 0 to |SalaryRanges|
      invariant |distribution| == i
      invariant forall j :: 0 <= j < i ==>
        distribution[j] == (SalaryRanges[j].title, CountInRange(employees, SalaryRanges[j]))
    {
      var count := 0;
      for k := 0 to |employees|
        invariant count == CountInRange(employees[..k], SalaryRanges[i])
      {
        CountInRangeAppend(employees[..k], employees[k], SalaryRanges[i]);
        assert employees[..k + 1] == employees[..k] + [employees[k]];
        if InRange(employees[k].basicSalary, SalaryRanges[i]) {
          count := count + 1;
        }
      }
      assert employees[..|employees|] == employees;
      distribution := distribution + [(SalaryRanges[i].title, count)];
    }
  }

  lemma {:induction false} CountInRangeAppend(s: seq<Employee>, e: Employee, r: SalaryRange)
    ensures CountInRange(s + [e], r) == CountInRange(s, r) + (if InRange(e.basicSalary, r) then 1 else 0)
  {
    if s == [] {
      assert [e][1..] == [];
    } else {
      assert (s + [e])[1..] == s[1..] + [e];
      CountInRangeAppend(s[1..], e, r);
    }
  }

  // ---------------------------------------------------------------------------
  // Cost analysis

  function SumOf(employees: seq<Employee>, f: Employee -> real): real {
    if employees == [] then 0.0 else f(employees[0]) + SumOf(employees[1..], f)
  }

  lemma {:induction false} SumOfDifference(employees: seq<Employee>, f: Employee -> real, g: Employee -> real, h: Employee -> real)
    requires forall e :: h(e) == f(e) - g(e)
    ensures SumOf(employees, h) == SumOf(employees, f) - SumOf(employees, g)
  {
    if employees != [] {
      SumOfDifference(employees[1..], f, g, h);
    }
  }

  lemma {:induction false} SumOfAtLeast(employees: seq<Employee>, f: Employee -> real, lo: real)
    requires forall i :: 0 <= i < |employees| ==> f(employees[i]) >= lo
    ensures SumOf(employees, f) >= |employees| as real * lo
  {
    if employees != [] {
      SumOfAtLeast(employees[1..], f, lo);
    }
  }

  datatype CostSummary = CostSummary(
    totalEmployees: nat,
    totalBasicSalary: real,
    totalMonthlyCost: real,
    totalAnnualCost: real,
    averageMonthlyCost: real,
    averageAnnualCost: real,
    averageCostFactor: real)

  datatype CostBreakdown = CostBreakdown(
    basicSalaries: real,
    monthlyAllowances: real,
    annualAllowances: real,
    recruitmentCosts: real,
    trainingCosts: real)

  datatype CostAnalysis = CostAnalysis(summary: CostSummary, breakdown: CostBreakdown, efficiency: Option<Metrics>)

  function BasicOf(e: Employee): real { e.basicSalary }
  function RecruitmentOf(e: Employee): real { e.recruitmentCost }
  function TrainingOf(e: Employee): real { e.trainingCost }

  /**
   * `generate_cost_analysis_report` without the per-category analysis:
   * nothing (the empty summary) for no employees, else the sums and averages.
   */
  function CostAnalysisReport(employees: seq<Employee>): (r: Option<CostAnalysis>)
    ensures r.None? <==> employees == []
    ensures r.Some? ==> r.value.summary.totalEmployees == |employees| && r.value.efficiency.Some?
  {
    if employees == [] then None
    else Some(CostAnalysis(Summary(employees), Breakdown(employees), EfficiencyMetrics(employees)))
  }

  function Summary(employees: seq<Employee>): (r: CostSummary)
    requires employees != []
    ensures r.totalEmployees == |employees|
    ensures r.averageCostFactor * |employees| as real == SumOf(employees, CostFactor)
  {
    var n := |employees|;
    var totalMonthly := SumOf(employees, MonthlyGrossSalary);
    var totalAnnual := SumOf(employees, AnnualTotalCost);
    CostSummary(n, SumOf(employees, BasicOf), totalMonthly, totalAnnual,
                Average(totalMonthly, n), Average(totalAnnual, n), Average(SumOf(employees, CostFactor), n))
  }

  function Breakdown(employees: seq<Employee>): CostBreakdown {
    var totalBasic := SumOf(employees, BasicOf);
    CostBreakdown(totalBasic, SumOf(employees, MonthlyGrossSalary) - totalBasic, SumOf(employees, AnnualAllowances),
                  SumOf(employees, RecruitmentOf), SumOf(employees, TrainingOf))
  }

  /** A total divided evenly over `n` items. */
  function Average(total: real, n: nat): (a: real)
    requires n > 0
    ensures a * n as real == total
  {
    total / n as real
  }

  /** The breakdown's monthly allowances are exactly the sum of the employees' monthly allowances. */
  lemma BreakdownMonthlyAllowances(employees: seq<Employee>)
    requires employees != []
    ensures Breakdown(employees).monthlyAllowances
      == SumOf(employees, TotalMonthlyAllowances)
  {
    SumOfDifference(employees, MonthlyGrossSalary, BasicOf, TotalMonthlyAllowances);
  }

  /** For employees with a basic salary and non-negative allowances, the average cost factor is at least 1. */
  lemma AverageCostFactorAtLeastOne(employees: seq<Employee>)
    requires employees != []
    requires forall i :: 0 <= i < |employees| ==>
      employees[i].basicSalary > 0.0 && NonNegativeAmounts(employees[i].allowances)
    ensures Summary(employees).averageCostFactor >= 1.0
  {
    forall i | 0 <= i < |employees| ensures CostFactor(employees[i]) >= 1.0 {
      CostFactorAtLeastOne(employees[i]);
    }
    SumOfAtLeast(employees, CostFactor, 1.0);
    var n := |employees| as real;
    QuotientAtLeastOne(SumOf(employees, CostFactor) / n * n, n);
    assert SumOf(employees, CostFactor) / n * n == SumOf(employees, CostFactor);
    AverageBetween(SumOf(employees, CostFactor), n, 1.0, SumOf(employees, CostFactor) / n);
  }

  /** The filter keeps the queryset's order: it distributes over concatenation. */
  lemma {:induction false} ActiveOnlyAppend(a: seq<Employee>, b: seq<Employee>)
    ensures ActiveOnly(a + b) == ActiveOnly(a) + ActiveOnly(b)
  {
    if a == [] {
      assert a + b == b;
    } else {
      assert (a + b)[0] == a[0] && (a + b)[1..] == a[1..] + b;
      ActiveOnlyAppend(a[1..], b);
      if a[0].isActive {
        assert ActiveOnly(a) + ActiveOnly(b) == [a[0]] + (ActiveOnly(a[1..]) + ActiveOnly(b));
      }
    }
  }

  /** The filter keeps every active employee as often as it occurs, and no inactive one. */
  lemma {:induction false} ActiveOnlyCounts(all: seq<Employee>, e: Employee)
    ensures multiset(ActiveOnly(all))[e] == if e.isActive then multiset(all)[e] else 0
  {
    if all != [] {
      ActiveOnlyCounts(all[1..], e);
      assert all == [all[0]] + all[1..];
      assert multiset(all) == multiset([all[0]]) + multiset(all[1..]);
    }
  }

  lemma {:induction false} NoActiveEmployee(all: seq<Employee>)
    ensures ActiveOnly(all) == [] <==> forall i :: 0 <= i < |all| ==> !all[i].isActive
  {
    if all != [] {
      NoActiveEmployee(all[1..]);
      assert forall i :: 1 <= i < |all| ==> all[i] == all[1..][i - 1];
    }
  }

  /** A generator built on an empty queryset reports on all active employees, so it is empty only when none is active. */
  lemma EmptyQuerysetFallsBack(all: seq<Employee>)
    ensures CostAnalysisReport(Population(Some([]), all)).None?
      <==> forall i :: 0 <= i < |all| ==> !all[i].isActive
  {
    NoActiveEmployee(all);
  }
}
