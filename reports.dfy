/**
 * The individual employee report (allowances filed by frequency into five
 * dictionaries keyed by the type's Arabic name, then the report's own totals)
 * and the comparison report (one row per employee, sorted by annual cost,
 * highest first).
 */
module Reports {
  import opened Wrappers
  import opened Payroll
  import opened OrderedDict
  import AdvancedReports

  // ---------------------------------------------------------------------------
  // Filing allowances by frequency

  /** One dictionary value; `kind` stands for `get_type_display()`. */
  datatype Entry =
    | Recurring(amount: real, kind: AllowanceKind, monthlyEquivalent: real, annualEquivalent: real)
    | CustomCycle(amount: real, kind: AllowanceKind, months: int, monthlyEquivalent: real, annualEquivalent: real)
    | Once(amount: real, kind: AllowanceKind)

  datatype Buckets = Buckets(
    monthly: Dict<string, Entry>,
    annual: Dict<string, Entry>,
    biennial: Dict<string, Entry>,
    custom: Dict<string, Entry>,
    oneTime: Dict<string, Entry>)

  const NoBuckets: Buckets := Buckets([], [], [], [], [])

  /** `custom_months or 12`: a missing or zero month count means a twelve-month cycle. */
  function CycleMonths(t: AllowanceType): (m: int)
    ensures m != 0
  {
    if t.customMonths.Some? && t.customMonths.value != 0 then t.customMonths.value else 12
  }

  /** The dictionary value built for one allowance, by its type's frequency. */
  function EntryFor(a: Allowance): Entry {
    match a.allowanceType.frequency
    case Monthly => Recurring(a.amount, a.kind, a.amount, a.amount * 12.0)
    case Annual => Recurring(a.amount, a.kind, a.amount / 12.0, a.amount)
    case Biennial => Recurring(a.amount, a.kind, a.amount / 24.0, a.amount / 2.0)
    case Custom =>
      var m := CycleMonths(a.allowanceType);
      CustomCycle(a.amount, a.kind, m, a.amount / m as real, (a.amount * 12.0) / m as real)
    case OneTime => Once(a.amount, a.kind)
  }

  /**
   * Every entry except a one-time one has an annual equivalent twelve times
   * its monthly equivalent; monthly entries carry their amount as monthly
   * figure, annual ones as annual figure, biennial ones spread it over 24 months.
   */
  lemma EntryEquivalents(a: Allowance)
    ensures EntryFor(a).amount == a.amount && EntryFor(a).kind == a.kind
    ensures EntryFor(a).Once? <==> a.allowanceType.frequency == OneTime
    ensures !EntryFor(a).Once? ==> EntryFor(a).annualEquivalent == 12.0 * EntryFor(a).monthlyEquivalent
    ensures a.allowanceType.frequency == Monthly ==> EntryFor(a).monthlyEquivalent == a.amount
    ensures a.allowanceType.frequency == Annual ==> EntryFor(a).annualEquivalent == a.amount
    ensures a.allowanceType.frequency == Biennial ==>
      EntryFor(a).monthlyEquivalent == a.amount / 24.0 && EntryFor(a).annualEquivalent == a.amount / 2.0
  {
    if a.allowanceType.frequency == Custom {
      var m := CycleMonths(a.allowanceType) as real;
      assert (a.amount * 12.0) / m == 12.0 * (a.amount / m);
    }
  }

  /** A six-month custom allowance of 600 is 100 a month and 1200 a year; without a month count it is a yearly one. */
  lemma CustomCycleExamples(t: AllowanceType)
    requires t.frequency == Custom
    ensures t.customMonths == Some(6) ==>
      EntryFor(Allowance(t, 600.0, Cash, "", true)) == CustomCycle(600.0, Cash, 6, 100.0, 1200.0)
    ensures t.customMonths.None? || t.customMonths == Some(0) ==>
      EntryFor(Allowance(t, 600.0, Cash, "", true)) == CustomCycle(600.0, Cash, 12, 50.0, 600.0)
  {
  }

  function BucketOf(b: Buckets, f: Frequency): Dict<string, Entry> {
    match f
    case Monthly => b.monthly
    case Annual => b.annual
    case Biennial => b.biennial
    case Custom => b.custom
    case OneTime => b.oneTime
  }

  function WithBucket(b: Buckets, f: Frequency, d: Dict<string, Entry>): (r: Buckets)
    ensures BucketOf(r, f) == d
    ensures forall g :: g != f ==> BucketOf(r, g) == BucketOf(b, g)
  {
    match f
    case Monthly => b.(monthly := d)
    case Annual => b.(annual := d)
    case Biennial => b.(biennial := d)
    case Custom => b.(custom := d)
    case OneTime => b.(oneTime := d)
  }

  /** One pass of the loop over an active allowance: `bucket[name_arabic] = entry`. */
  function File(b: Buckets, a: Allowance): Buckets {
    var f := a.allowanceType.frequency;
    WithBucket(b, f, Put(BucketOf(b, f), a.allowanceType.nameArabic, EntryFor(a)))
  }

  /** The buckets after the loop has seen `s`; inactive allowances are not in the query. */
  function Classify(s: seq<Allowance>): Buckets
    decreases |s|
  {
    if s == [] then NoBuckets
    else
      var b := Classify(s[..|s| - 1]);
      var a := s[|s| - 1];
      if a.isActive then File(b, a) else b
  }

  /** The classification loop of the individual report. */
  method ClassifyAllowances(allowances: seq<Allowance>) returns (b: Buckets)
    ensures b == Classify(allowances)
  {
    var monthly, annual, oneTime, biennial, custom := [], [], [], [], [];
    for i := 0 to |allowances|
      invariant Buckets(monthly, annual, biennial, custom, oneTime) == Classify(allowances[..i])
    {
      var a := allowances[i];
      assert allowances[..i + 1][..i] == allowances[..i];
      if a.isActive {
        var name := a.allowanceType.nameArabic;
        if a.allowanceType.frequency == Monthly {
          monthly := Put(monthly, name, EntryFor(a));
        } else if a.allowanceType.frequency == Annual {
          annual := Put(annual, name, EntryFor(a));
        } else if a.allowanceType.frequency == Biennial {
          biennial := Put(biennial, name, EntryFor(a));
        } else if a.allowanceType.frequency == Custom {
          custom := Put(custom, name, EntryFor(a));
        } else {
          oneTime := Put(oneTime, name, EntryFor(a));
        }
      }
    }
    assert allowances[..|allowances|] == allowances;
    b := Buckets(monthly, annual, biennial, custom, oneTime);
  }

  /** Allowance `a` lands in bucket `f` under key `k`. */
  predicate Filed(a: Allowance, f: Frequency, k: string) {
    a.isActive && a.allowanceType.frequency == f && a.allowanceType.nameArabic == k
  }

  /** What one more allowance does to bucket `f`. */
  lemma ClassifyStep(s: seq<Allowance>, f: Frequency)
    requires s != []
    ensures BucketOf(Classify(s), f) ==
      var p, a := s[..|s| - 1], s[|s| - 1];
      if a.isActive && a.allowanceType.frequency == f
      then Put(BucketOf(Classify(p), f), a.allowanceType.nameArabic, EntryFor(a))
      else BucketOf(Classify(p), f)
  {
  }

  /** A bucket holds exactly the names of the active allowances of its frequency. */
  lemma {:induction false} ClassifyKeys(s: seq<Allowance>, f: Frequency, k: string)
    ensures HasKey(BucketOf(Classify(s), f), k) <==> exists i :: 0 <= i < |s| && Filed(s[i], f, k)
    decreases |s|
  {
    if s != [] {
      var p := s[..|s| - 1];
      var a := s[|s| - 1];
      ClassifyKeys(p, f, k);
      ClassifyStep(s, f);
      assert forall i :: 0 <= i < |p| ==> p[i] == s[i];
      if a.isActive && a.allowanceType.frequency == f {
        PutKeys(BucketOf(Classify(p), f), a.allowanceType.nameArabic, EntryFor(a), k);
      }
      if exists i :: 0 <= i < |s| && Filed(s[i], f, k) {
        var i :| 0 <= i < |s| && Filed(s[i], f, k);
        if i < |p| {
          assert Filed(p[i], f, k);
        }
      }
    }
  }

  /** The value under a name is the entry of the LAST active allowance of that name and frequency. */
  lemma {:induction false} ClassifyLastWins(s: seq<Allowance>, f: Frequency, i: nat)
    requires i < |s| && Filed(s[i], f, s[i].allowanceType.nameArabic)
    requires forall j :: i < j < |s| ==> !Filed(s[j], f, s[i].allowanceType.nameArabic)
    ensures Get(BucketOf(Classify(s), f), s[i].allowanceType.nameArabic) == Some(EntryFor(s[i]))
    decreases |s|
  {
    var p := s[..|s| - 1];
    var a := s[|s| - 1];
    var k := s[i].allowanceType.nameArabic;
    ClassifyStep(s, f);
    var d := BucketOf(Classify(p), f);
    if i < |p| {
      assert p[i] == s[i];
      assert forall j :: i < j < |p| ==> p[j] == s[j];
      ClassifyLastWins(p, f, i);
      if a.isActive && a.allowanceType.frequency == f {
        assert a.allowanceType.nameArabic != k;
        assert BucketOf(Classify(s), f) == Put(d, a.allowanceType.nameArabic, EntryFor(a));
        GetPut(d, a.allowanceType.nameArabic, EntryFor(a), k);
      } else {
        assert BucketOf(Classify(s), f) == d;
      }
    } else {
      assert BucketOf(Classify(s), f) == Put(d, k, EntryFor(a));
      GetPut(d, k, EntryFor(a), k);
    }
  }

  /** No bucket ever holds a name twice. */
  lemma {:induction false} ClassifyDistinct(s: seq<Allowance>, f: Frequency)
    ensures DistinctKeys(BucketOf(Classify(s), f))
    decreases |s|
  {
    if s != [] {
      var p := s[..|s| - 1];
      var a := s[|s| - 1];
      ClassifyDistinct(p, f);
      ClassifyStep(s, f);
      if a.isActive && a.allowanceType.frequency == f {
        PutDistinct(BucketOf(Classify(p), f), a.allowanceType.nameArabic, EntryFor(a));
      }
    }
  }

  /** Every value in bucket `f` is the entry of an active allowance of frequency `f`. */
  lemma {:induction false} ClassifyEntries(s: seq<Allowance>, f: Frequency, n: nat)
    requires n < |BucketOf(Classify(s), f)|
    ensures exists j :: (0 <= j < |s| && Filed(s[j], f, BucketOf(Classify(s), f)[n].0)
                         && BucketOf(Classify(s), f)[n].1 == EntryFor(s[j]))
    decreases |s|
  {
    var p := s[..|s| - 1];
    var a := s[|s| - 1];
    var d := BucketOf(Classify(p), f);
    var r := BucketOf(Classify(s), f);
    ClassifyStep(s, f);
    assert forall j :: 0 <= j < |p| ==> p[j] == s[j];
    if a.isActive && a.allowanceType.frequency == f {
      assert r == Put(d, a.allowanceType.nameArabic, EntryFor(a));
      PutPairs(d, a.allowanceType.nameArabic, EntryFor(a));
      if r[n] == (a.allowanceType.nameArabic, EntryFor(a)) {
        assert Filed(s[|s| - 1], f, r[n].0);
      } else {
        var m :| 0 <= m < |d| && d[m] == r[n];
        ClassifyEntries(p, f, m);
      }
    } else {
      assert r == d;
      ClassifyEntries(p, f, n);
    }
  }

  // ---------------------------------------------------------------------------
  // Sums over the buckets

  function SumEntries(d: Dict<string, Entry>, x: Entry -> real): real {
    if d == [] then 0.0 else x(d[0].1) + SumEntries(d[1..], x)
  }

  lemma {:induction false} SumEntriesAppend(d: Dict<string, Entry>, kv: (string, Entry), x: Entry -> real)
    ensures SumEntries(d + [kv], x) == SumEntries(d, x) + x(kv.1)
  {
    if d == [] {
      assert [kv][1..] == [];
    } else {
      assert (d + [kv])[1..] == d[1..] + [kv];
      SumEntriesAppend(d[1..], kv, x);
    }
  }

  lemma {:induction false} SumEntriesScaled(d: Dict<string, Entry>, x: Entry -> real, y: Entry -> real, c: real)
    requires forall i :: 0 <= i < |d| ==> y(d[i].1) == c * x(d[i].1)
    ensures SumEntries(d, y) == c * SumEntries(d, x)
  {
    if d != [] {
      assert forall i :: 0 <= i < |d[1..]| ==> d[1..][i] == d[i + 1];
      SumEntriesScaled(d[1..], x, y, c);
    }
  }

  lemma {:induction false} SumEntriesNonNegative(d: Dict<string, Entry>, x: Entry -> real)
    requires forall i :: 0 <= i < |d| ==> x(d[i].1) >= 0.0
    ensures SumEntries(d, x) >= 0.0
  {
    if d != [] {
      assert forall i :: 0 <= i < |d[1..]| ==> d[1..][i] == d[i + 1];
      SumEntriesNonNegative(d[1..], x);
    }
  }

  function Amount(e: Entry): real { e.amount }
  function MonthlyEquivalent(e: Entry): real { if e.Once? then 0.0 else e.monthlyEquivalent }
  function AnnualEquivalent(e: Entry): real { if e.Once? then 0.0 else e.annualEquivalent }

  /** Basic salary plus monthly amounts and the monthly equivalents of the annual, biennial and custom buckets. */
  function ReportMonthlyGross(b: Buckets, basicSalary: real): real {
    basicSalary + SumEntries(b.monthly, Amount) + SumEntries(b.annual, MonthlyEquivalent)
    + SumEntries(b.biennial, MonthlyEquivalent) + SumEntries(b.custom, MonthlyEquivalent)
  }

  /** Twelve months of monthly amounts, the annual amounts, and the annual equivalents of the biennial and custom buckets. */
  function TotalAnnualBenefits(b: Buckets): real {
    SumEntries(b.monthly, Amount) * 12.0 + SumEntries(b.annual, Amount)
    + SumEntries(b.biennial, AnnualEquivalent) + SumEntries(b.custom, AnnualEquivalent)
  }

  function OneTimeTotal(b: Buckets): real {
    SumEntries(b.oneTime, Amount)
  }

  /** In every bucket but the one-time one, each entry's annual figure is twelve monthly figures. */
  lemma BucketTwelveMonths(s: seq<Allowance>, f: Frequency)
    requires f != OneTime
    ensures forall n :: 0 <= n < |BucketOf(Classify(s), f)| ==>
      AnnualEquivalent(BucketOf(Classify(s), f)[n].1) == 12.0 * MonthlyEquivalent(BucketOf(Classify(s), f)[n].1)
    ensures f == Annual ==> forall n :: 0 <= n < |BucketOf(Classify(s), f)| ==>
      Amount(BucketOf(Classify(s), f)[n].1) == 12.0 * MonthlyEquivalent(BucketOf(Classify(s), f)[n].1)
  {
    var d := BucketOf(Classify(s), f);
    forall n | 0 <= n < |d|
      ensures AnnualEquivalent(d[n].1) == 12.0 * MonthlyEquivalent(d[n].1)
      ensures f == Annual ==> Amount(d[n].1) == 12.0 * MonthlyEquivalent(d[n].1)
    {
      ClassifyEntries(s, f, n);
      var j :| 0 <= j < |s| && Filed(s[j], f, d[n].0) && d[n].1 == EntryFor(s[j]);
      EntryEquivalents(s[j]);
    }
  }

  /** The report's annual benefits are exactly twelve months of everything but basic salary and one-time items. */
  lemma BenefitsAreTwelveMonths(s: seq<Allowance>, basicSalary: real)
    ensures TotalAnnualBenefits(Classify(s)) == 12.0 * (ReportMonthlyGross(Classify(s), basicSalary) - basicSalary)
  {
    var b := Classify(s);
    BucketTwelveMonths(s, Annual);
    BucketTwelveMonths(s, Biennial);
    BucketTwelveMonths(s, Custom);
    SumEntriesScaled(BucketOf(b, Annual), MonthlyEquivalent, Amount, 12.0);
    SumEntriesScaled(BucketOf(b, Biennial), MonthlyEquivalent, AnnualEquivalent, 12.0);
    SumEntriesScaled(BucketOf(b, Custom), MonthlyEquivalent, AnnualEquivalent, 12.0);
    assert BucketOf(b, Annual) == b.annual && BucketOf(b, Biennial) == b.biennial && BucketOf(b, Custom) == b.custom;
    var m := SumEntries(b.monthly, Amount);
    var am, aa := SumEntries(b.annual, MonthlyEquivalent), SumEntries(b.annual, Amount);
    var bm, ba := SumEntries(b.biennial, MonthlyEquivalent), SumEntries(b.biennial, AnnualEquivalent);
    var cm, ca := SumEntries(b.custom, MonthlyEquivalent), SumEntries(b.custom, AnnualEquivalent);
    assert aa == 12.0 * am && ba == 12.0 * bm && ca == 12.0 * cm;
    assert TotalAnnualBenefits(b) == m * 12.0 + aa + ba + ca;
    assert ReportMonthlyGross(b, basicSalary) - basicSalary == m + am + bm + cm;
  }

  datatype IndividualTotals = IndividualTotals(
    monthlyGross: real,
    annualSalaryCost: real,
    totalAnnualBenefits: real,
    totalAnnualCost: real,
    costFactor: real)

  /**
   * The totals of `employee_individual_report`. The training-cost percentage
   * and the family tickets' annual cost are computed by methods outside this
   * model and come in as inputs.
   */
  function IndividualReport(e: Employee, trainingCostPercentage: real, familyTicketAnnualCost: real): (r: IndividualTotals)
    ensures r.monthlyGross == ReportMonthlyGross(Classify(e.allowances), e.basicSalary)
    ensures r.totalAnnualBenefits == TotalAnnualBenefits(Classify(e.allowances))
    ensures r.totalAnnualBenefits == 12.0 * (r.monthlyGross - e.basicSalary)
    ensures r.annualSalaryCost == 12.0 * e.basicSalary
    ensures r.totalAnnualCost == 12.0 * r.monthlyGross + OneTimeCosts(e)
      + 12.0 * trainingCostPercentage + familyTicketAnnualCost + OneTimeTotal(Classify(e.allowances))
    ensures r.annualSalaryCost <= 0.0 ==> r.costFactor == 0.0
    ensures r.annualSalaryCost > 0.0 ==> r.costFactor * r.annualSalaryCost == r.totalAnnualCost
  {
    var b := Classify(e.allowances);
    var monthlyGross := ReportMonthlyGross(b, e.basicSalary);
    var annualSalaryCost := e.basicSalary * 12.0;
    var benefits := TotalAnnualBenefits(b);
    var total := annualSalaryCost + benefits + e.recruitmentCost + e.trainingCost
      + trainingCostPercentage * 12.0 + familyTicketAnnualCost + OneTimeTotal(b);
    BenefitsAreTwelveMonths(e.allowances, e.basicSalary);
    IndividualTotals(monthlyGross, annualSalaryCost, benefits, total,
                     if annualSalaryCost > 0.0 then total / annualSalaryCost else 0.0)
  }

  /** Every custom cycle's month count is positive or missing, so no equivalent turns negative. */
  predicate NonNegativeCycles(s: seq<Allowance>) {
    forall i :: 0 <= i < |s| ==> s[i].allowanceType.customMonths.None? || s[i].allowanceType.customMonths.value >= 0
  }

  lemma EntryNonNegative(a: Allowance)
    requires a.amount >= 0.0
    requires a.allowanceType.customMonths.None? || a.allowanceType.customMonths.value >= 0
    ensures Amount(EntryFor(a)) >= 0.0 && MonthlyEquivalent(EntryFor(a)) >= 0.0 && AnnualEquivalent(EntryFor(a)) >= 0.0
  {
  }

  lemma ClassifyNonNegative(s: seq<Allowance>, f: Frequency, x: Entry -> real)
    requires NonNegativeAmounts(s) && NonNegativeCycles(s)
    requires x == Amount || x == MonthlyEquivalent || x == AnnualEquivalent
    ensures SumEntries(BucketOf(Classify(s), f), x) >= 0.0
  {
    var d := BucketOf(Classify(s), f);
    forall n | 0 <= n < |d| ensures x(d[n].1) >= 0.0 {
      ClassifyEntries(s, f, n);
      var j :| 0 <= j < |s| && Filed(s[j], f, d[n].0) && d[n].1 == EntryFor(s[j]);
      EntryNonNegative(s[j]);
    }
    SumEntriesNonNegative(d, x);
  }

  /** With non-negative amounts and extras, the report's cost factor is at least 1 whenever there is a basic salary. */
  lemma ReportCostFactorAtLeastOne(e: Employee, trainingCostPercentage: real, familyTicketAnnualCost: real)
    requires e.basicSalary > 0.0 && NonNegativeAmounts(e.allowances) && NonNegativeCycles(e.allowances)
    requires e.recruitmentCost >= 0.0 && e.trainingCost >= 0.0
    requires trainingCostPercentage >= 0.0 && familyTicketAnnualCost >= 0.0
    ensures IndividualReport(e, trainingCostPercentage, familyTicketAnnualCost).costFactor >= 1.0
  {
    var s := e.allowances;
    ClassifyNonNegative(s, Monthly, Amount);
    ClassifyNonNegative(s, Annual, Amount);
    ClassifyNonNegative(s, Biennial, AnnualEquivalent);
    ClassifyNonNegative(s, Custom, AnnualEquivalent);
    ClassifyNonNegative(s, OneTime, Amount);
    var r := IndividualReport(e, trainingCostPercentage, familyTicketAnnualCost);
    assert r.totalAnnualCost >= r.annualSalaryCost;
    QuotientAtLeastOne(r.totalAnnualCost, r.annualSalaryCost);
  }

  // ---------------------------------------------------------------------------
  // The report against the employee's own formulas

  /** No two active allowances share an Arabic type name, so no dictionary assignment overwrites. */
  predicate DistinctActiveNames(s: seq<Allowance>) {
    forall i, j :: 0 <= i < j < |s| && s[i].isActive && s[j].isActive ==>
      s[i].allowanceType.nameArabic != s[j].allowanceType.nameArabic
  }

  /** The sum of `x` over the entries of the active allowances of frequency `f`, in order. */
  function SumFiled(s: seq<Allowance>, f: Frequency, x: Entry -> real): real
    decreases |s|
  {
    if s == [] then 0.0
    else
      var a := s[|s| - 1];
      SumFiled(s[..|s| - 1], f, x) + (if a.isActive && a.allowanceType.frequency == f then x(EntryFor(a)) else 0.0)
  }

  /** Without name clashes, a bucket's sum is the sum over the allowances filed into it. */
  lemma {:induction false} BucketSum(s: seq<Allowance>, f: Frequency, x: Entry -> real)
    requires DistinctActiveNames(s)
    ensures SumEntries(BucketOf(Classify(s), f), x) == SumFiled(s, f, x)
    decreases |s|
  {
    if s != [] {
      var p := s[..|s| - 1];
      var a := s[|s| - 1];
      assert forall i :: 0 <= i < |p| ==> p[i] == s[i];
      BucketSum(p, f, x);
      ClassifyStep(s, f);
      var d := BucketOf(Classify(p), f);
      if a.isActive && a.allowanceType.frequency == f {
        var k := a.allowanceType.nameArabic;
        ClassifyKeys(p, f, k);
        forall i | 0 <= i < |p| ensures !Filed(p[i], f, k) {
          assert p[i] == s[i];
        }
        PutAbsentAppends(d, k, EntryFor(a));
        SumEntriesAppend(d, (k, EntryFor(a)), x);
        assert SumFiled(s, f, x) == SumFiled(p, f, x) + x(EntryFor(a));
      } else {
        assert BucketOf(Classify(s), f) == d;
        assert SumFiled(s, f, x) == SumFiled(p, f, x);
      }
    }
  }

  /** Only monthly or annual allowances, all active: the filed sums become the employee's own totals. */
  lemma {:induction false} FiledTotals(s: seq<Allowance>)
    requires forall i :: 0 <= i < |s| ==> s[i].isActive && s[i].allowanceType.frequency in {Monthly, Annual}
    ensures SumFiled(s, Monthly, Amount) + SumFiled(s, Annual, MonthlyEquivalent) == TotalMonthly(s)
    ensures 12.0 * SumFiled(s, Monthly, Amount) + SumFiled(s, Annual, Amount) == 12.0 * TotalMonthly(s)
    ensures SumFiled(s, Biennial, MonthlyEquivalent) == 0.0 && SumFiled(s, Custom, MonthlyEquivalent) == 0.0
    ensures SumFiled(s, Biennial, AnnualEquivalent) == 0.0 && SumFiled(s, Custom, AnnualEquivalent) == 0.0
    decreases |s|
  {
    if s != [] {
      var p := s[..|s| - 1];
      var a := s[|s| - 1];
      FiledTotals(p);
      TotalMonthlyAppend(p, a);
      assert p + [a] == s;
    }
  }

  /**
   * For an employee whose allowances are all active, monthly or annual, with
   * distinct Arabic names, the report's monthly gross is the employee's, and
   * the employee's annual total cost counts the report's benefits twice.
   */
  lemma ReportAgainstEmployee(e: Employee)
    requires forall i :: 0 <= i < |e.allowances| ==>
      e.allowances[i].isActive && e.allowances[i].allowanceType.frequency in {Monthly, Annual}
    requires DistinctActiveNames(e.allowances)
    ensures ReportMonthlyGross(Classify(e.allowances), e.basicSalary) == MonthlyGrossSalary(e)
    ensures AnnualTotalCost(e) == 12.0 * e.basicSalary + 2.0 * TotalAnnualBenefits(Classify(e.allowances))
  {
    var s := e.allowances;
    BucketSum(s, Monthly, Amount);
    BucketSum(s, Annual, MonthlyEquivalent);
    BucketSum(s, Annual, Amount);
    BucketSum(s, Biennial, MonthlyEquivalent);
    BucketSum(s, Custom, MonthlyEquivalent);
    BucketSum(s, Biennial, AnnualEquivalent);
    BucketSum(s, Custom, AnnualEquivalent);
    FiledTotals(s);
    TwelveMonthlyTotals(s);
  }

  // ---------------------------------------------------------------------------
  // The comparison report

  /** What the comparison report reads from methods outside this model. */
  datatype Extras = Extras(yearsOfService: int, trainingCostPercentage: real, familyTicketAnnualCost: real)

  datatype ComparisonRow = ComparisonRow(
    employee: Employee,
    basicSalary: real,
    monthlyAllowances: real,
    monthlyGross: real,
    annualCost: real,
    costFactor: real,
    efficiencyRatio: real,
    yearsOfService: int,
    trainingCostPercentage: real,
    familyTicketCost: real)

  function RowFor(e: Employee, x: Extras): ComparisonRow {
    ComparisonRow(e, e.basicSalary, TotalMonthlyAllowances(e), MonthlyGrossSalary(e), AnnualTotalCost(e),
                  CostFactor(e), AdvancedReports.EfficiencyRatio(e), x.yearsOfService,
                  x.trainingCostPercentage * 12.0, x.familyTicketAnnualCost)
  }

  function ComparisonRows(employees: seq<Employee>, extras: Employee -> Extras): (r: seq<ComparisonRow>)
    ensures |r| == |employees|
  {
    seq(|employees|, i requires 0 <= i < |employees| => RowFor(employees[i], extras(employees[i])))
  }

  predicate SortedByCost(rows: seq<ComparisonRow>) {
    forall i, j :: 0 <= i < j < |rows| ==> rows[i].annualCost >= rows[j].annualCost
  }

  /** Insert a row before the first row that costs no more than it. */
  function Insert(row: ComparisonRow, rows: seq<ComparisonRow>): (r: seq<ComparisonRow>)
    ensures |r| == |rows| + 1
    ensures r[0] == row || (rows != [] && r[0] == rows[0])
  {
    if rows == [] || rows[0].annualCost <= row.annualCost then [row] + rows
    else [rows[0]] + Insert(row, rows[1..])
  }

  /** Inserting adds the row and loses none. */
  lemma {:induction false} InsertPermutes(row: ComparisonRow, rows: seq<ComparisonRow>)
    ensures multiset(Insert(row, rows)) == multiset(rows) + multiset{row}
  {
    if rows != [] && rows[0].annualCost > row.annualCost {
      InsertPermutes(row, rows[1..]);
      assert rows == [rows[0]] + rows[1..];
    }
  }

  /** Inserting into a list sorted by descending cost keeps it sorted. */
  lemma {:induction false} InsertSorted(row: ComparisonRow, rows: seq<ComparisonRow>)
    requires SortedByCost(rows)
    ensures SortedByCost(Insert(row, rows))
  {
    if rows != [] && rows[0].annualCost > row.annualCost {
      var rest := Insert(row, rows[1..]);
      assert SortedByCost(rows[1..]);
      InsertSorted(row, rows[1..]);
      InsertPermutes(row, rows[1..]);
      assert rest[0] == row || rest[0] == rows[1];
      assert forall i :: 0 <= i < |rest| ==> rest[0].annualCost >= rest[i].annualCost;
      assert forall i :: 1 <= i < |rest| + 1 ==> ([rows[0]] + rest)[i] == rest[i - 1];
    }
  }

  /** `list.sort(key=annual_cost, reverse=True)`, as an insertion sort. */
  function SortByCost(rows: seq<ComparisonRow>): (r: seq<ComparisonRow>)
    ensures multiset(r) == multiset(rows)
    ensures SortedByCost(r)
  {
    if rows == [] then []
    else
      var sorted := SortByCost(rows[1..]);
      InsertPermutes(rows[0], sorted);
      InsertSorted(rows[0], sorted);
      assert rows == [rows[0]] + rows[1..];
      Insert(rows[0], sorted)
  }

  /** `comparison_report`: one row per employee, highest annual cost first. */
  method ComparisonReport(employees: seq<Employee>, extras: Employee -> Extras) returns (rows: seq<ComparisonRow>)
    ensures SortedByCost(rows)
    ensures multiset(rows) == multiset(ComparisonRows(employees, extras))
  {
    var data: seq<ComparisonRow> := [];
    for i := 0 to |employees|
      invariant |data| == i
      invariant forall j :: 0 <= j < i ==> data[j] == RowFor(employees[j], extras(employees[j]))
    {
      data := data + [RowFor(employees[i], extras(employees[i]))];
    }
    assert data == ComparisonRows(employees, extras);
    rows := SortByCost(data);
  }

  /** Every row's efficiency ratio is 0 when the row has no cost, and otherwise its basic salaries over its cost. */
  lemma RowEfficiency(e: Employee, x: Extras)
    ensures RowFor(e, x).annualCost <= 0.0 ==> RowFor(e, x).efficiencyRatio == 0.0
    ensures RowFor(e, x).annualCost > 0.0 ==>
      RowFor(e, x).efficiencyRatio * RowFor(e, x).annualCost == 12.0 * RowFor(e, x).basicSalary
  {
  }
}
