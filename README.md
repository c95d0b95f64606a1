# Employee payroll-cost engine, in Dafny

This project models the payroll-cost core of an Arabic/English HR
application built on Django, and proves properties of that model. It
covers four areas:

- **Per-employee cost rules**, from the employee, allowance-type and
  allowance records (`employees/models.py`):
  - one allowance's monthly and annual figure, by frequency;
  - an employee's monthly allowances, monthly gross, annual allowances and
    one-time costs;
  - the annual total cost and the cost factor, which is guarded against a
    zero basic salary.
- **The two employee reports** (`employees/views_reports.py`):
  - the individual report files every active allowance into five
    dictionaries, one per frequency, keyed by the type's Arabic name, and
    computes its own monthly gross, annual benefits, annual total cost and
    cost factor;
  - the comparison report builds one row per employee, with an efficiency
    ratio, and sorts the rows by annual cost, highest first.
- **The advanced report helpers** (`employees/reports_advanced.py`) and
  **the report filter form** (`employees/forms.py`):
  - anniversary-aware years of service;
  - the efficiency ratio and the efficiency metrics (highest, lowest,
    average, and the counts at or above 0.7 and below 0.5);
  - the half-open salary ranges of the distribution report;
  - the cost-analysis summary, which is empty when there are no employees;
  - the cross-field date and salary check of `ReportFilterForm.clean`.
- **The spreadsheet import**, in both of its variants (`employees/utils.py`,
  called "basic" here, and `employees/utils_enhanced.py`, called
  "enhanced"):
  - header cleaning and the header-to-field mapping;
  - keyword detection of allowance columns, and inference of an allowance's
    frequency and of cash versus in kind;
  - the parse-or-default numeric conversions `safe_int` and `safe_decimal`;
  - the row-by-row upsert into in-memory tables of employees, allowance
    types and allowances;
  - the seeding of the default allowance types.

## Modelling choices

The model represents the source's data as follows:

- Decimal amounts are exact `real`s.
- A Python dictionary that a loop fills is an insertion-ordered association
  list (module `OrderedDict`).
- A spreadsheet cell is the datatype `Cells.Cell`. It has one constructor
  per value type openpyxl returns, except `datetime.time` and
  `datetime.timedelta` (see "Left out").
- A float cell carries its `repr` text as an input, which `str()` returns.
  The predicate `Cells.FloatText` says that this text reads back to the
  cell's value, as the `repr` of every finite Python float does. The
  conversions claim a float's value only for such cells.

Each piece of source takes the model form its own form calls for:

- Pure methods are functions, and lemmas state their properties.
- Loops are methods with `while`/`for` loops. Each method is proved equal
  to a specification function, and lemmas carry that function's
  properties. The loops modelled this way are the bucket loop, the header
  and column loops, the allowance-column scan, the comparison-row loop and
  the distribution loop.
- The database is the class `SheetImport.Database`. It has three fields
  that the import and the seeding methods update in place:
  - an employee table keyed by employee number;
  - the allowance types in creation order;
  - the allowances, keyed by (employee number, type name).
- Each `Database` method is proved against a function on the value
  `SheetImport.Tables`. The lemmas about that function show that the table
  invariant `SheetImport.Valid` and the report's counts hold.

Where the source contradicts its own documentation, the model follows the
code:

- `Allowance.get_monthly_amount` and `get_annual_amount` send the biennial
  and custom frequencies through their `else` branch: 0 a month and the raw
  amount a year. They do not use the /24 and /2 spreading that the
  individual report applies.
- Numeric and date text is read as Python reads it: a digit is any Unicode
  decimal digit (category `Nd`, so Arabic-Indic "١٠٠٠" is 1000), `Decimal`
  drops every underscore while `float` takes one only between two digits,
  and the `%m` field of `strptime` and the ASCII alternatives of `%d` take
  ASCII digits only, so "٢٠٢٤-01-15" is a date and "٢٠٢٤-٠١-١٥" is not.
  The two number readers strip different whitespace: `Decimal` strips
  everything `str.isspace` accepts, while `float` keeps the ASCII
  information separators U+001C..U+001F and then rejects them. So "\x1c5"
  is 5 as an amount and the default as a count.
- `custom_months or 12` falls back to twelve months only for a missing or
  zero month count. A negative count is used as it is.
- The model states `Employee.get_annual_total_cost` as written. Because
  `get_annual_allowances` already includes twelve months of every monthly
  allowance, monthly and annual allowances are counted twice
  (`Payroll.AnnualTotalCostDoubleCounts`). The individual report's own
  total is a separate function.
- `employees/models.py` does not define `EmployeeCategory`, and the two
  import modules meet that differently:
  - The basic variant imports it from `.models` (`employees/utils.py:5`), so
    loading `employees/utils.py` raises `ImportError` before any row is
    read. The model treats the basic variant as if the class existed: it
    receives the set of category names.
  - The enhanced variant uses the name without importing it. The lookup
    raises `NameError`, so every row with a category cell fails.
- The basic import drops falsy header cells. Every later header then stands
  above the wrong column (`SheetImport.HeaderGapShiftsColumns`).

## Model

| member | source | states |
|---|---|---|
| Payroll.MonthlyAmount | employees/models.py:137-144 | a non-negative amount's monthly figure lies between 0 and the amount |
| Payroll.AnnualAmount | employees/models.py:146-153 | a non-negative amount's annual figure lies between the amount and twelve times it |
| Payroll.AnnualIsTwelveMonthly | employees/models.py:137-153 | monthly type: monthly figure = amount; annual type: annual figure = amount; for both, annual = 12 × monthly; every other frequency: monthly 0 and annual the raw amount |
| Payroll.TotalMonthlyAppend | employees/models.py:56-60 | the monthly total of one more allowance adds that allowance's monthly figure |
| Payroll.TwelveMonthlyTotals | employees/models.py:56-70 | for monthly and annual allowances only, the annual sum is twelve times the monthly sum |
| Payroll.TotalMonthlyAllowances | employees/models.py:56-60 | the monthly allowances, over all allowances active or not, are non-negative when the amounts are |
| Payroll.MonthlyGrossSalary | employees/models.py:62-64 | the monthly gross is at least the basic salary when the amounts are non-negative |
| Payroll.AnnualAllowances | employees/models.py:66-70 | the annual allowances are non-negative when the amounts are |
| Payroll.OneTimeCostsIgnoreAllowances | employees/models.py:72-74 | one-time costs are recruitment plus training cost and do not change with the allowances |
| Payroll.AnnualTotalCost | employees/models.py:76-81 | with non-negative amounts (the amount validator, employees/models.py:123) the annual total cost is at least 12 × basic salary |
| Payroll.CostFactor | employees/models.py:83-87 | the factor is 0 for a basic salary ≤ 0 and otherwise times 12 × basic gives the annual total cost |
| Payroll.CostFactorAtLeastOne | employees/models.py:83-87 | with a positive basic salary and non-negative amounts the cost factor is at least 1 |
| Payroll.ValidEmployeeCosts | employees/models.py:76-87 | for an employee the validators accept (basic salary at least 0.01 at employees/models.py:31, amounts at least 0 at :123) the annual total cost is at least 12 × basic salary and positive, and the cost factor is at least 1 and times 12 × basic gives that total |
| Payroll.ContributionSplits | employees/models.py:76-81 | 12 × monthly total + annual total equals the sum of each allowance's own contribution: 24× for monthly types, 2× for annual types, 1× for the rest |
| Payroll.AnnualTotalCostDoubleCounts | employees/models.py:76-81 | the annual total cost is 12 × basic plus those contributions, so each monthly and annual allowance is counted twice |
| Payroll.MonthlyAllowanceCountedTwice | employees/models.py:76-87 | basic 1000 with one monthly allowance of 100 gives annual cost 14400 and cost factor 1.2 |
| Reports.CycleMonths | employees/views_reports.py:57 | the custom cycle length is never 0 |
| Reports.EntryEquivalents | employees/views_reports.py:35-69 | each entry carries the allowance's amount and kind; it is a one-time entry exactly for one-time types; annual equivalent = 12 × monthly equivalent for the rest; monthly amount as monthly figure, annual amount as annual figure, biennial /24 and /2 |
| Reports.CustomCycleExamples | employees/views_reports.py:56-64 | 600 over six months is 100 a month and 1200 a year; with no or zero months it is 50 and 600 over twelve |
| Reports.WithBucket | employees/views_reports.py:35-69 | replacing one frequency's dictionary leaves the other four unchanged |
| Reports.ClassifyAllowances | employees/views_reports.py:32-69 | the loop's five dictionaries equal the classification of the whole allowance list |
| Reports.ClassifyStep | employees/views_reports.py:32-69 | one more allowance writes its entry into its own frequency's dictionary only, if it is active |
| Reports.ClassifyKeys | employees/views_reports.py:32-69 | a name is a key of a frequency's dictionary iff some active allowance of that frequency has it as Arabic type name |
| Reports.ClassifyLastWins | employees/views_reports.py:32-69 | under a shared name and frequency, the last allowance's entry is the one kept |
| Reports.ClassifyDistinct | employees/views_reports.py:32-69 | no dictionary holds a name twice |
| Reports.ClassifyEntries | employees/views_reports.py:32-69 | every stored entry is the entry of some active allowance filed under that key and frequency |
| Reports.SumEntriesAppend | employees/views_reports.py:72-82 | a sum over a dictionary's values grows by the value of an appended entry |
| Reports.SumEntriesScaled | employees/views_reports.py:72-82 | a sum of values each c times another is c times that sum |
| Reports.SumEntriesNonNegative | employees/views_reports.py:72-82 | a sum of non-negative values is non-negative |
| Reports.BucketTwelveMonths | employees/views_reports.py:42-64 | in every recurring dictionary each entry's annual figure is twelve monthly figures, and an annual entry's amount too |
| Reports.BenefitsAreTwelveMonths | employees/views_reports.py:90-107 | total annual benefits are 12 × (report monthly gross − basic salary), so one-time items enter neither |
| Reports.IndividualReport | employees/views_reports.py:72-121 | the monthly gross is basic plus every bucket's monthly figure; the annual benefits are the buckets' annual figures, which are 12 × (monthly gross − basic); annual salary cost is 12 × basic; total cost = 12 × report monthly gross + recruitment + training + 12 × training percentage + family tickets + one-time amounts; cost factor is 0 without a salary cost and otherwise total / salary cost |
| Reports.EntryNonNegative | employees/views_reports.py:35-69 | a non-negative amount with a non-negative cycle gives no negative figure |
| Reports.ClassifyNonNegative | employees/views_reports.py:72-82 | every bucket sum is non-negative for non-negative amounts and cycles |
| Reports.ReportCostFactorAtLeastOne | employees/views_reports.py:110-121 | with a salary and non-negative inputs the report's cost factor is at least 1 |
| Reports.BucketSum | employees/views_reports.py:32-82 | when active allowances have distinct Arabic names, a bucket's sum equals the sum over the allowances filed there |
| Reports.FiledTotals | employees/views_reports.py:72-82 | against employees/models.py:56-70: for active monthly and annual allowances, the report's monthly sums equal the employee's monthly total; biennial and custom sums are 0 |
| Reports.ReportAgainstEmployee | employees/views_reports.py:90-107 | against employees/models.py:62-81: for those allowances the report's monthly gross equals `get_monthly_gross_salary`, and `get_annual_total_cost` is 12 × basic + 2 × the report's annual benefits |
| Reports.ComparisonRows | employees/views_reports.py:355-380 | one comparison row per employee |
| Reports.Insert | employees/views_reports.py:383 | inserting adds one row and the head is the new row or the old head |
| Reports.InsertPermutes | employees/views_reports.py:383 | inserting adds exactly that row and loses none |
| Reports.InsertSorted | employees/views_reports.py:383 | inserting into rows sorted by descending cost keeps them sorted |
| Reports.SortByCost | employees/views_reports.py:383 | the sort is a permutation and its result is non-increasing in annual cost |
| Reports.ComparisonReport | employees/views_reports.py:355-383 | the returned rows are a permutation of one row per employee, sorted by annual cost, highest first |
| Reports.RowEfficiency | employees/views_reports.py:367 | a row's efficiency ratio is 0 when its annual cost is ≤ 0, else its twelve basic salaries over its cost |
| AdvancedReports.ActiveOnly | employees/reports_advanced.py:17 | the default population holds every active employee and only active employees |
| AdvancedReports.ActiveOnlyAppend | employees/reports_advanced.py:17 | the filter keeps the queryset's order: filtering a concatenation concatenates the filtered parts |
| AdvancedReports.ActiveOnlyCounts | employees/reports_advanced.py:17 | each active employee occurs in the filtered population as often as in the input, an inactive one not at all |
| AdvancedReports.Population | employees/reports_advanced.py:16-17 | a non-empty queryset is used as it is; a missing or empty one falls back to the active employees |
| AdvancedReports.NoActiveEmployee | employees/reports_advanced.py:17 | the fallback population is empty iff no employee is active |
| AdvancedReports.EmptyQuerysetFallsBack | employees/reports_advanced.py:16-17 | with the empty guard at employees/reports_advanced.py:100-107: a generator on an empty queryset gives the empty cost analysis iff no employee is active |
| AdvancedReports.YearsOfServiceIsLastAnniversary | employees/reports_advanced.py:201-207 | the k-th anniversary has been reached iff k ≤ years of service, so the anniversary day itself counts |
| AdvancedReports.YearsOfServiceNonNegative | employees/reports_advanced.py:201-207 | years of service are ≥ 0 when the hire date is not after today |
| AdvancedReports.YearsOfServiceMonotone | employees/reports_advanced.py:201-207 | years of service never decrease as today advances |
| AdvancedReports.YearsOfServiceExamples | employees/reports_advanced.py:201-207 | hired 2022-03-14/15/16, on 2024-03-15: 2, 2 and 1 years |
| AdvancedReports.EfficiencyRatio | employees/reports_advanced.py:216-221 | the ratio is 0 when the annual cost is ≤ 0, else 12 × basic over annual cost |
| AdvancedReports.EfficiencyInvertsCostFactor | employees/reports_advanced.py:216-221 | against employees/models.py:83-87: with a salary and non-negative amounts the efficiency ratio is the inverse of the cost factor and lies in (0, 1] |
| AdvancedReports.Ratios | employees/reports_advanced.py:225 | one efficiency ratio per employee, in order |
| AdvancedReports.Max | employees/reports_advanced.py:231 | the highest ratio is one of the ratios and no ratio exceeds it |
| AdvancedReports.Min | employees/reports_advanced.py:232 | the lowest ratio is one of the ratios and no ratio is below it |
| AdvancedReports.ThresholdsPartition | employees/reports_advanced.py:234-235 | the counts at or above the upper threshold, below the lower one and in between add up to the list length |
| AdvancedReports.SumBounds | employees/reports_advanced.py:233 | a sum of values in [lo, hi] lies between n × lo and n × hi |
| AdvancedReports.MeanBetween | employees/reports_advanced.py:233 | the mean of values in [lo, hi] lies in [lo, hi] |
| AdvancedReports.MetricsOf | employees/reports_advanced.py:227-236 | the metrics are empty exactly for an empty ratio list |
| AdvancedReports.MetricsBounds | employees/reports_advanced.py:230-236 | lowest ≤ average ≤ highest, both extremes are ratios of the list, and the ≥ 0.7 and < 0.5 counts sum to at most n |
| AdvancedReports.EfficiencyMetrics | employees/reports_advanced.py:223-236 | the metrics are empty exactly when there are no employees |
| AdvancedReports.CountInRange | employees/reports_advanced.py:162-166 | a range count is at most the number of employees |
| AdvancedReports.RangeIndex | employees/reports_advanced.py:153-159 | every non-negative salary has a range among the five |
| AdvancedReports.RangesPartition | employees/reports_advanced.py:153-166 | a non-negative salary lies in a half-open range iff it is its own range; a negative one lies in none |
| AdvancedReports.DistributionCountsEveryone | employees/reports_advanced.py:153-171 | the five range counts add up to the number of employees with a non-negative salary |
| AdvancedReports.AllNonNegative | employees/reports_advanced.py:153-171 | with non-negative salaries that is every employee |
| AdvancedReports.SalaryDistribution | employees/reports_advanced.py:151-173 | the loop's counts are the five range counts, in order |
| AdvancedReports.CountInRangeAppend | employees/reports_advanced.py:162-166 | one more employee adds one to the count of the range its salary falls in |
| AdvancedReports.SumOfDifference | employees/reports_advanced.py:118 | a sum of differences is the difference of the sums |
| AdvancedReports.SumOfAtLeast | employees/reports_advanced.py:113 | a sum of values each ≥ lo is at least n × lo |
| AdvancedReports.CostAnalysisReport | employees/reports_advanced.py:98-149 | empty exactly for no employees; otherwise it counts every employee and holds efficiency metrics |
| AdvancedReports.Summary | employees/reports_advanced.py:109-145 | the summary counts every employee and its average cost factor times n is the sum of the cost factors |
| AdvancedReports.Average | employees/reports_advanced.py:142-144 | an average times n gives back the total |
| AdvancedReports.BreakdownMonthlyAllowances | employees/reports_advanced.py:116-122 | the breakdown's monthly allowances (monthly cost − basic) equal the sum of the employees' monthly allowances |
| AdvancedReports.AverageCostFactorAtLeastOne | employees/reports_advanced.py:113 | with salaries and non-negative amounts the average cost factor is at least 1 |
| FilterForm.Clean | employees/forms.py:192-207 | accepted iff neither check fires, and then the data come back unchanged; the date error iff the dates are reversed; the salary error iff the dates are in order and both truthy bounds are reversed |
| FilterForm.EqualBoundsAccepted | employees/forms.py:200-205 | equal dates and equal salary bounds are accepted |
| FilterForm.ZeroOrMissingBoundSkipsCheck | employees/forms.py:204 | a missing or zero salary bound switches the salary check off |
| FilterForm.ZeroUpperBoundExample | employees/forms.py:204-205 | minimum 5000 passes against maximum 0 and fails against 1000 |
| FilterForm.DateCheckFirst | employees/forms.py:200-205 | when both checks would fire the date error is raised |
| Text.SkipSpaces | employees/utils.py:231 | the index reached skips only whitespace and stops at the end or at a non-space |
| Text.TrimEnd | employees/utils.py:231 | the end index reached drops only trailing whitespace |
| Text.Strip | employees/utils.py:231 | a stripped string is empty or starts and ends with a non-space |
| Text.StripIsInfix | employees/utils.py:231 | the stripped string is the original with only whitespace dropped on both sides |
| Text.StripUnchanged | employees/utils.py:231 | a string without surrounding whitespace strips to itself |
| Text.Lower | employees/utils.py:135 | lowercasing keeps the length and maps every character |
| Text.MatchMakesContains | employees/utils.py:136 | a match at any position makes `in` true |
| Text.ContainsIffMatch | employees/utils.py:136 | `in` holds exactly when the keyword occurs at some position |
| Text.AbsentHead | employees/utils.py:136 | a string lacking the first character of a keyword does not contain it |
| Text.RemoveChar | employees/utils.py:313 | removing commas leaves no comma, is no longer than the text, and changes a comma-free string not at all |
| Text.RemoveCharCounts | employees/utils.py:313 | removing commas keeps every other character as often as it occurs |
| Text.RemoveCharAppend | employees/utils.py:313 | removal works piece by piece over a concatenation, so the kept characters stay in order |
| Text.RemoveCharOne | employees/utils.py:313 | a single character is dropped if it is the one removed and kept otherwise |
| Text.Split | employees/utils.py:153 | splitting yields at least one piece and no piece holds the separator |
| Text.SplitJoin | employees/utils.py:153 | joining the pieces of a split gives back the string |
| Text.JoinSplit | employees/utils.py:153 | splitting a join of separator-free pieces gives back the pieces |
| Text.NatToString | employees/utils.py:241 | the decimal text of n is digits only and reads back as n |
| Text.PadDigits | employees/utils.py:153 | a zero-padded text reads back as its number and has the width when the number fits |
| Calendar.ParseIso | employees/utils.py:153 | `%Y-%m-%d` parsing, with a year of four decimal digits of any script and ASCII month and day fields, yields only valid dates |
| Calendar.ParseDayFirst | employees/utils.py:156 | `%d/%m/%Y` parsing, with the same fields, yields only valid dates |
| Calendar.ParseIsoOfIsoFormat | employees/utils.py:153 | every valid date's ISO text parses back to it |
| Calendar.ParseDayFirstOfPadded | employees/utils.py:156 | every valid date's padded day/month/year text parses back to it |
| Calendar.ParseIsoUnpadded | employees/utils.py:153 | unpadded "2024-1-5" is accepted |
| Calendar.ParseIsoRejectsMissingDay | employees/utils.py:153 | "2023-02-29" is rejected |
| Calendar.ArabicIndicIsoDates | employees/utils.py:153 | "٢٠٢٤-01-15" reads as 2024-01-15, since `%Y` is four `\d` of any script; "٢٠٢٤-٠١-١٥" is rejected, since `%m` takes ASCII digits only |
| Calendar.ArabicIndicDayFirst | employees/utils.py:156 | "1٥/01/٢٠٢٤" reads as 2024-01-15, since the second digit of a `%d` day and the `%Y` year take any decimal digit; "١٥/01/2024" is rejected |
| Cells.Trunc | employees/utils.py:311 | `int()` truncates toward zero |
| Cells.FracValue | employees/utils.py:313 | a fraction's digits read as a value in [0, 1) |
| Cells.ParseIntToString | employees/utils.py:313 | every integer's decimal text parses back to it |
| Cells.CommaRejected | employees/utils_enhanced.py:219 | "1,000" is not a number |
| Cells.HalfCellText | employees/utils.py:241 | the float cell 2.5 with text "2.5" reads back to 2.5 under `Decimal` and `float` |
| Cells.ThousandParsed | employees/utils.py:313 | "1000" is 1000 under both `Decimal` and `float` |
| Cells.NoUnderscoreReadsAlike | employees/utils.py:326 | a text without underscores and without the separators U+001C..U+001F reads the same under `Decimal` and `float` |
| Cells.FloatStripIsStrip | employees/utils.py:313 | `float` and `str.strip()` drop the same surrounding whitespace unless what `float` keeps starts or ends with a separator U+001C..U+001F |
| Cells.SeparatorEdgeNotNumber | employees/utils.py:313 | a text that starts or ends with a separator U+001C..U+001F is not a number |
| Cells.SeparatorSplitsReadings | employees/utils.py:313-326 | "\x1c5" is 5 under `Decimal`, which strips the separator, and no number under `float`, which keeps it |
| Cells.FloatReadsAsDecimal | employees/utils_enhanced.py:219 | whatever `float` reads, `Decimal` reads to the same value |
| Cells.DigitTextReads | employees/utils.py:326 | a string of decimal digits of any script reads as its value under both `Decimal` and `float` |
| Cells.ArabicIndicThousand | employees/utils.py:326 | "١٠٠٠" reads as 1000 under both |
| Cells.UnderscoreGrouping | employees/utils.py:313 | "1_000" is 1000 under both; "1__000" and "_1000" are 1000 under `Decimal` and rejected by `float` |
| OrderedDict.Get | employees/views_reports.py:36 | lookup fails iff the key is absent, and a found value is stored under the key |
| OrderedDict.Put | employees/views_reports.py:36 | storing keeps the length for a present key and adds one entry for a new key |
| OrderedDict.PutAbsentAppends | employees/views_reports.py:36 | a new key is appended at the end, as in insertion order |
| OrderedDict.PutPresentKeepsOrder | employees/views_reports.py:36 | storing under a present key keeps every position's key |
| OrderedDict.PutPairs | employees/views_reports.py:36 | after storing, each pair is the new one or an old one |
| OrderedDict.GetPut | employees/views_reports.py:36 | after storing, the key maps to the new value and every other key is unchanged |
| OrderedDict.PutDistinct | employees/views_reports.py:36 | storing keeps keys distinct |
| OrderedDict.PutKeys | employees/views_reports.py:36 | after storing, the keys are the old ones plus this key |
| SheetRules.OverlaySources | employees/utils.py:140-185 | every field set by the column loop comes from some column's update with that value |
| SheetRules.OverlayStep | employees/utils.py:140-185 | one more column overlays its update, if any, on the fields so far |
| SheetRules.OverlayWellTyped | employees/utils.py:140-185 | columns that give well-typed values give a well-typed dictionary |
| SheetRules.OverlayLast | employees/utils.py:140-185 | a field takes the value of the last column that sets it |
| SheetRules.HireDateValue | employees/utils.py:148-158 | a hire date is set iff the cell is a datetime, or a text that parses as `%Y-%m-%d` or as `%d/%m/%Y`, digits of any script where `\d` stands in those formats |
| SheetRules.ArabicIndicHireDate | employees/utils.py:153 | a hire-date text with an Arabic-Indic year is read as that date; with Arabic-Indic month and day the year-month-day reading rejects it |
| SheetRules.HireDateOfIsoText | employees/utils.py:153 | an ISO date text sets that date |
| SheetRules.HireDateOfDayFirstText | employees/utils.py:156 | a padded day/month/year text sets that date |
| SheetRules.NoDashInDayFirst | employees/utils.py:153-156 | a day/month/year text never parses as ISO, so the fallback is what reads it |
| SheetRules.PlainDateCellIgnored | employees/utils.py:148-158 | a plain date cell (not a datetime, not a text) sets no hire date |
| SheetRules.TextFieldValue | employees/utils.py:184-185 | a text field is the stripped `str` of a truthy cell and empty for a falsy one |
| SheetRules.InsuranceCodesInvertChoices | employees/utils.py:177-181 | the label-to-code dictionary is the inverse of the model's insurance choices |
| SheetRules.InsuranceValue | employees/utils.py:176-182 | a known Arabic label maps to its code and any other text passes through unchanged |
| SheetRules.InsuranceCodePassesThrough | employees/utils.py:182 | "PREMIUM" stays "PREMIUM" and "شامل" becomes "COMPREHENSIVE" |
| SheetRules.InferFrequency | employees/utils.py:193-201 | annual iff the lowercased name has an annual keyword; one-time iff it has a one-time keyword and no annual one; monthly otherwise |
| SheetRules.InferKind | employees/utils.py:194-204 | in kind iff the lowercased name has an in-kind keyword |
| SheetRules.AnnualBeatsOneTime | employees/utils.py:198-201 | "Annual Bonus" is annual, since the annual check comes first |
| SheetRules.BonusIsOneTime | employees/utils.py:200-201 | "Bonus" is one-time |
| SheetRules.HousingIsMonthly | employees/utils.py:193-201 | "بدل السكن" is monthly |
| SheetRules.AnnualBonusColumnIgnored | employees/utils_enhanced.py:276-278 | by the keyword test at employees/utils_enhanced.py:133, the enhanced template's "مكافأة سنوية" column is not an allowance column |
| SheetRules.AllowanceColumns | employees/utils.py:133-137 | every listed column is a header position whose header has an allowance keyword |
| SheetRules.AllowanceColumnsComplete | employees/utils.py:133-137 | every header with an allowance keyword is listed |
| SheetRules.AllowanceColumnsOrdered | employees/utils.py:133-137 | the columns are listed in header order |
| SheetRules.FindAllowanceColumns | employees/utils.py:133-137 | the loop finds exactly those columns |
| SheetRules.AllowanceRecords | employees/utils.py:188-212 | one record per allowance column whose cell parses to an amount > 0, in column order, with the column's name, inferred frequency and kind, and its notes |
| SheetRules.CollectAllowances | employees/utils.py:188-212 | the loop collects exactly those records |
| SheetBasic.CloseFrom | employees/utils.py:20 | the closing parenthesis found is the first on that line |
| SheetBasic.KeptRun | employees/utils.py:20 | text without an opening parenthesis is kept as it is |
| SheetBasic.NoParenKept | employees/utils.py:20 | a header without parentheses is unchanged by the removal |
| SheetBasic.CloseAtFirst | employees/utils.py:20 | the non-greedy group ends at the first `)` |
| SheetBasic.TrailingGroupRemoved | employees/utils.py:20 | "a (b)" with a plain a and b cleans to a |
| SheetBasic.MappingCoversFields | employees/utils.py:105-130 | every field except the active flag has a header in the mapping |
| SheetBasic.MappingMissesIsActive | employees/utils.py:105-130 | no header maps to the active flag |
| SheetBasic.RequiredMarkRemoved | employees/utils.py:20 | "x (مطلوب)" and x both clean to x |
| SheetBasic.TemplateKeysMapped | employees/utils.py:398-402 | each of the 12 template headers, cleaned, is a key of the mapping |
| SheetBasic.TemplateHeaderCleaned | employees/utils.py:142 | a template header cleaned twice, at the header row and in the column loop, gives its key |
| SheetBasic.TemplateHeadersMapped | employees/utils.py:398-402 | each of the 12 written template headers is recognised by the column loop |
| SheetBasic.SafeInt | employees/utils.py:307-317 | integers as they are, floats truncated, comma-stripped text read as `float` reads it and truncated, booleans as 0/1, everything else and failed parses the default |
| SheetBasic.SafeDecimal | employees/utils.py:320-330 | non-number, non-text cells and booleans give the default and integers their value; a float is `Decimal` of its text, so its value when that text reads back; comma-stripped text is read as `Decimal` reads it (decimal digits of any script, every underscore dropped), or the default |
| SheetBasic.BoolAmountIsDefault | employees/utils.py:307-330 | a boolean is 0/1 as an integer but the default as an amount, because "True" is not a Decimal |
| SheetBasic.FloatSalaryKept | employees/utils.py:239-241 | a float salary 2.5 is kept as 2.5, and a float allowance 2.5 is an amount of 2.5 |
| SheetBasic.CommasStripped | employees/utils.py:307-330 | "1,000" is 1000 |
| SheetBasic.SeparatorTextConversions | employees/utils.py:307-330 | "\x1c5" gives the default as a count (`float` raises, the `ValueError` is caught) and 5 as an amount |
| SheetBasic.ArabicIndicAmount | employees/utils.py:186-191 | an allowance cell "١٠٠٠" is an amount of 1000, and 1000 as a count |
| SheetBasic.IntegerTextRoundTrip | employees/utils.py:307-330 | an integer's text converts back to it, as an integer and as an amount |
| SheetBasic.ConvertField | employees/utils.py:147-185 | every field but the hire date always gets a value, and a value fits its field |
| SheetBasic.ColumnUpdate | employees/utils.py:140-185 | a column updates only when it is in the row, its cell is not None and its cleaned header is mapped; the value fits the mapped field |
| SheetBasic.ColumnUpdates | employees/utils.py:140-185 | one update per header |
| SheetBasic.EmployeeFields | employees/utils.py:140-185 | the employee dictionary is well typed and each field comes from a column's update |
| SheetBasic.LastColumnWins | employees/utils.py:140-185 | when two columns map to one field, the later one wins |
| SheetBasic.ApplyColumns | employees/utils.py:140-185 | the column loop builds exactly that dictionary |
| SheetBasic.Extraction | employees/utils.py:97-214 | the employee dictionary is well typed and the allowances are the allowance records of the allowance columns |
| SheetBasic.ExtractEmployeeAndAllowancesData | employees/utils.py:97-214 | the method returns exactly the specified dictionary and records |
| SheetBasic.RowData | employees/utils.py:224-227 | the row dictionary maps each header within the row to a cell under it, and holds every such header |
| SheetBasic.BasicSalaryOf | employees/utils.py:239-248 | the salary can fail only for an int, float or bool cell (whose `str` is then not a Decimal); an integer is its value, a float is `Decimal` of its text, so its value when that text reads back, a boolean fails (`Decimal('True')` raises), text is read as `Decimal` reads it after stripping commas and falls back to 0 |
| SheetBasic.InsuranceOf | employees/utils.py:280-286 | the insurance code is one of BASIC, COMPREHENSIVE, PREMIUM: a known Arabic label (after `strip()`) gives its code, and every other value, a missing column included, gives BASIC |
| SheetBasic.InsuranceCodeBecomesBasic | employees/utils.py:280-286 | the code "PREMIUM" becomes BASIC when the employee row is read, while the column loop keeps it as "PREMIUM" |
| SheetBasic.InsuranceLabelsMapped | employees/utils.py:280-286 | each of the three Arabic labels gives its code, also with surrounding blanks |
| SheetBasic.FromRowData | employees/utils.py:229-304 | None iff the employee number, name or nationality is empty, or the salary raises; otherwise every field is set, the row is active, and number, name and salary are as read |
| SheetBasic.RowRecord | employees/utils.py:229-298 | an assembled row has every field, well typed, active, with number, name and salary as read and the insurance code of `InsuranceOf` |
| SheetBasic.ExtractEmployeeDataFromRow | employees/utils.py:217-304 | the method returns exactly that result for the row dictionary of the row |
| SheetBasic.BoolSalaryRejectsRow | employees/utils.py:239-302 | a boolean salary cell makes the row None |
| SheetBasic.EmptyNameCellPasses | employees/utils.py:231-236 | an empty name cell reads as "None" and does not reject the row |
| SheetBasic.DefaultTypesDistinct | employees/utils.py:336-351 | the 14 defaults have distinct names and distinct Arabic names |
| SheetEnhanced.MappingCoversFields | employees/utils_enhanced.py:105-127 | every field except recruitment cost, training cost and the active flag has a header in the mapping |
| SheetEnhanced.RequiredMarksNotRecognised | employees/utils_enhanced.py:18-21 | the four required headers marked "(مطلوب)" are not in the mapping, since headers are only stripped, while the basic variant's cleaning maps each to its field |
| SheetEnhanced.NoKeyEndsInParen | employees/utils_enhanced.py:139 | no header ending in ")" is recognised |
| SheetEnhanced.SafeInt | employees/utils_enhanced.py:214-221 | None and "" give the default; everything else is `int(float(value))`, text read as `float` reads it (decimal digits of any script, an underscore only between digits), a failed parse giving the default; commas are not stripped |
| SheetEnhanced.SafeDecimal | employees/utils_enhanced.py:224-231 | None and "" give the default; everything else is `Decimal(str(value))` (decimal digits of any script, every underscore dropped) or the default; a float whose text reads back gives its value |
| SheetEnhanced.ArabicIndicAmount | employees/utils_enhanced.py:183-188 | an allowance cell "١٠٠٠" is an amount of 1000, and 1000 as a count |
| SheetEnhanced.SeparatorTextConversions | employees/utils_enhanced.py:214-231 | "\x1c5" gives the default as a count and 5 as an amount, as in the basic variant |
| SheetEnhanced.CommaTextIsDefault | employees/utils_enhanced.py:214-231 | "1,000" gives the default here, but 1000 in the basic variant (employees/utils.py:326) |
| SheetEnhanced.BoolCellConversions | employees/utils_enhanced.py:214-231 | a boolean is 0/1 as an integer and the default as an amount |
| SheetEnhanced.IntegerTextRoundTrip | employees/utils_enhanced.py:214-231 | an integer's text converts back to it |
| SheetEnhanced.ConvertField | employees/utils_enhanced.py:143-182 | every field but the hire date always gets a value, and a value fits its field |
| SheetEnhanced.ColumnUpdate | employees/utils_enhanced.py:137-182 | a column updates only when it is in the row, its cell is not None and its stripped header is mapped; never the category |
| SheetEnhanced.ColumnUpdates | employees/utils_enhanced.py:137-182 | one update per header |
| SheetEnhanced.EmployeeFields | employees/utils_enhanced.py:137-182 | fails iff the loop reaches a category cell; otherwise the dictionary is well typed, has no category, and each field comes from a column |
| SheetEnhanced.LastColumnWins | employees/utils_enhanced.py:137-182 | when two columns map to one field, the later one wins |
| SheetEnhanced.CategoryCellFailsRow | employees/utils_enhanced.py:164-166 | the class is not imported (employees/utils_enhanced.py:7), so a row with a cell under a category header fails extraction |
| SheetEnhanced.CostColumnsIgnored | employees/utils_enhanced.py:105-127 | recruitment and training cost columns never set a field |
| SheetEnhanced.ApplyColumns | employees/utils_enhanced.py:137-182 | the column loop builds exactly that result, stopping at the category cell |
| SheetEnhanced.Extraction | employees/utils_enhanced.py:97-211 | fails iff a category cell is reached; otherwise a well-typed dictionary and the allowance records |
| SheetEnhanced.ExtractEmployeeAndAllowancesData | employees/utils_enhanced.py:97-211 | the method returns exactly that result |
| SheetEnhanced.DefaultTypesDistinct | employees/utils_enhanced.py:236-247 | the 10 defaults have distinct Arabic names and distinct English names |
| SheetImport.Headers | employees/utils.py:16-21 | the header list is no longer than the header row |
| SheetImport.HeadersKeepPositions | employees/utils.py:16-21 | with no falsy header cell, header k is the text of cell k |
| SheetImport.GapDropsHeader | employees/utils.py:17-18 | a falsy header cell makes the list shorter than the row |
| SheetImport.ReadHeaderRow | employees/utils.py:16-21 | also employees/utils_enhanced.py:18-21: the header loop builds exactly that list, cleaned (basic) or stripped (enhanced) |
| SheetImport.HeaderGapShiftsColumns | employees/utils.py:17-21 | with headers a, empty, b the header b is listed at position 1, above the empty column |
| SheetImport.Extract | employees/utils.py:33 | extraction gives a well-typed dictionary or, only in the enhanced variant, the undefined-category failure |
| SheetImport.SaveEmployee | employees/utils.py:36-47 | no employee number fails; otherwise the row filed under the number is the old row overwritten by the dictionary, or defaults plus the dictionary; the save succeeds iff that row is storable; created iff the number was new |
| SheetImport.NewEmployeeNeedsDateAndSalary | employees/utils.py:36-39 | with the NOT NULL columns of employees/models.py:28-31: a new employee without hire date or basic salary is not stored |
| SheetImport.UnknownCategoryNotStored | employees/utils.py:168-173 | a category the lookup did not find (None) is not stored |
| SheetImport.SaveKeepsEmployeesValid | employees/utils.py:36-47 | a successful save files the employee, keeps every number, and keeps the tables valid |
| SheetImport.Matching | employees/utils.py:54-55 | the matches are exactly the positions of types with that Arabic name |
| SheetImport.GetOrCreateByArabic | employees/utils.py:54-60 | with the unique name of employees/models.py:99: one match is used; none creates a type unless its name is taken; several fail; names stay unique |
| SheetImport.MatchingAppend | employees/utils.py:54-60 | appending a type adds its position to its own name's matches only |
| SheetImport.AllowanceStep | employees/utils.py:52-85 | an allowance either updates the (employee, type) entry to its amount, kind, notes and active flag, or fails and changes nothing; employees untouched |
| SheetImport.ProcessAllowances | employees/utils.py:50-85 | each allowance counts once or adds one allowance error naming the row; employees untouched, types and allowance keys only grow |
| SheetImport.AllowanceStepValid | employees/utils.py:52-85 | an allowance step keeps the tables valid |
| SheetImport.ProcessAllowancesValid | employees/utils.py:50-85 | the allowance loop keeps the tables valid |
| SheetImport.ProcessRow | employees/utils.py:28-88 | an all-falsy row changes nothing; at most one import per row; employees only added; every error names the row; a failed row changes nothing and adds one error |
| SheetImport.StoreRow | employees/utils.py:33-88 | the same for a row once extracted |
| SheetImport.ProcessRowValid | employees/utils.py:28-88 | a row keeps the tables valid |
| SheetImport.ImportRows | employees/utils.py:27-88 | no rows leave the tables and counts untouched |
| SheetImport.ImportRowsStep | employees/utils.py:27 | the row at index i is processed as sheet row i + 2 on the tables the earlier rows left |
| SheetImport.ImportRowsCounts | employees/utils.py:27-94 | over the loop employees are only added, the table grows by the imported count, imported ≤ rows, and every error names a sheet row in [2, n + 2) |
| SheetImport.ImportRowsValid | employees/utils.py:27-88 | the row loop keeps the tables valid |
| SheetImport.ImportValid | employees/utils.py:10-94 | the import keeps the tables valid whatever the sheet holds |
| SheetImport.ImportCountsNewEmployees | employees/utils.py:41-94 | the imported count is exactly the growth of the employee table |
| SheetImport.EnhancedCategoryRowFails | employees/utils_enhanced.py:164-166 | with the handler at employees/utils_enhanced.py:87-88: in the enhanced import a row with a category cell adds one error and changes nothing |
| SheetImport.SavedRowAccountsForAllowances | employees/utils.py:50-88 | a saved row accounts for every allowance record: counted or one error each |
| SheetImport.GetOrCreateByName | employees/utils.py:356-366 | a type is created iff its name is absent, appended at the end; afterwards the name is present |
| SheetImport.SeedByName | employees/utils.py:333-368 | seeding only appends, the count is the number appended, every default name is present after, and names stay unique |
| SheetImport.SeedByNameNoop | employees/utils.py:355-368 | with every default name present, seeding changes nothing and returns 0 |
| SheetImport.SeedByNameIdempotent | employees/utils.py:333-368 | a second seeding returns 0 and changes nothing |
| SheetImport.SeedByNameCreatesAll | employees/utils.py:333-368 | on a table lacking all the distinct defaults, every default is created, in order |
| SheetImport.SeededLacksName | employees/utils.py:355-366 | seeding defaults with other names does not create a name |
| SheetImport.SeedRows | employees/utils.py:356-363 | one created row per default, in order |
| SheetImport.BasicSeedOnEmptyTable | employees/utils.py:336-368 | on an empty table the basic seeding creates 14 types |
| SheetImport.SeedByArabic | employees/utils_enhanced.py:234-257 | seeding only appends and keeps names unique |
| SheetImport.SeedByArabicLeavesEachOnce | employees/utils_enhanced.py:249-257 | a seeding that does not fail leaves each default Arabic name exactly once |
| SheetImport.SeedByArabicNoop | employees/utils_enhanced.py:249-257 | when each default is present once, seeding changes nothing |
| SheetImport.SeedByArabicRerun | employees/utils_enhanced.py:234-257 | for defaults with distinct Arabic names, seeding again from the table the first seeding left gives the same table and the same failure, or none |
| SheetImport.EnhancedSeedIdempotent | employees/utils_enhanced.py:234-257 | seeding the enhanced defaults twice gives what seeding once gives, also when the first seeding raised (`AmbiguousType` or `TypeNameTaken`) |
| SheetImport.SeedStops | employees/utils_enhanced.py:249-257 | a failure ends the seeding where it happened |
| SheetImport.Database.constructor | employees/models.py:90-132 | the database starts with the given tables |
| SheetImport.Database.SeedTypesByName | employees/utils.py:353-368 | the loop's new types and count are those of the seeding function; employees and allowances untouched |
| SheetImport.Database.CreateDefaultAllowanceTypesBasic | employees/utils.py:333-368 | the same for the 14 basic defaults |
| SheetImport.Database.SeedTypesByArabic | employees/utils_enhanced.py:249-257 | the loop's new types and failure are those of the seeding function; employees and allowances untouched |
| SheetImport.Database.CreateDefaultAllowanceTypesEnhanced | employees/utils_enhanced.py:234-257 | the same for the 10 enhanced defaults |
| SheetImport.Database.ImportRow | employees/utils.py:28-88 | one row's update of the tables and tallies is that of the row function |
| SheetImport.Database.Store | employees/utils.py:33-88 | the save of an extracted row is that of its function |
| SheetImport.Database.AddAllowances | employees/utils.py:50-85 | the allowance loop's update is that of its function |
| SheetImport.Database.ImportRowsFrom | employees/utils.py:23-88 | the row loop's tables, counts and errors are those of the loop function |
| SheetImport.Database.ImportEmployeesFromExcel | employees/utils.py:9-94 | for either variant (also employees/utils_enhanced.py:10-94): the import's tables and report are those of the import function |

## Left out

- Workbook I/O: loading the workbook and all workbook building (the
  template and report exports) are left out. The import starts from the
  header row and the data rows as cell sequences.
- The Django ORM, views and templates: querysets, `render`, login and
  `print` are left out. The tables are values held by one object, and a
  queryset is a sequence.
- Transactions and concurrency: `get_or_create` is modelled as one atomic
  step.
- `date.today()` and `timezone.now()` are parameters, not a clock.
- The methods `calculate_training_cost_percentage`,
  `calculate_family_ticket_cost`, `calculate_end_of_service_benefit` and
  `get_years_of_service`, which the reports call, are not defined in
  `employees/models.py`. Their results are inputs.
- `EmployeeCategory` is not part of this model. The basic variant receives
  the set of category names it would find by name, and the `ImportError`
  that loading `employees/utils.py` raises is not modelled.
- Floating point: float cells are exact reals with a `repr` input. The
  model ignores float precision, `inf` and `nan`. A float's
  `Decimal(str(value))` is its value only when the cell satisfies
  `Cells.FloatText`; the model does not derive that from the value.
- Cells of type `datetime.time` and `datetime.timedelta`, which openpyxl
  returns for time and duration formats, have no constructor in
  `Cells.Cell`, so a sheet holding one is outside the model.
- The `float(...)` conversions of the comparison report
  (`employees/views_reports.py:367-379`), its sort key (`:383`) and the
  efficiency ratio of the advanced generator
  (`employees/reports_advanced.py:220`) are not modelled: these figures,
  and the key the rows are sorted by, are exact reals here, so binary
  rounding cannot change a comparison or the order of two rows.
- SheetBasic.SafeInt: reads text exactly, where `int(float(text))` goes
  through a binary float. Float rounding is not modelled:
  "2.9999999999999999" is 3 in Python and 2 here.
- SheetBasic.SafeInt: reads "inf", "infinity" and "nan" (any case, signed)
  as no number, giving the default. For "nan" Python gives the default too.
  For "inf", and for a text beyond the float range such as "1e400", Python
  raises `OverflowError`, which `safe_int` does not catch, so the row fails
  in Python and is kept here.
- SheetEnhanced.SafeInt: the same two gaps as the basic variant. Also, an
  integer cell beyond 2^53 is rounded by `float` in Python and kept whole
  here.
- SheetBasic.SafeDecimal: the texts `NaN`, `sNaN`, `Infinity` and `Inf`
  (any case, signed) are non-finite Decimals in Python and no number here,
  giving the default. With a NaN amount, the test `allowance_amount > 0`
  (`employees/utils.py:191`) raises `InvalidOperation` and the row fails,
  where the model stores no allowance and keeps the row. A text `Infinity`
  passes that test in Python and is stored as an amount; here it is not.
- SheetEnhanced.SafeDecimal: the same gap for non-finite texts, with the
  test at `employees/utils_enhanced.py:188`.
- SheetBasic.BasicSalaryOf: a non-finite salary text falls back to 0 here,
  where Python passes the non-finite Decimal on to the save, which is not
  modelled.
- Decimal context rounding, and the `max_digits`/`decimal_places` limits,
  are left out: amounts are exact.
- `round(..., 2)` percentages, `_calculate_salary_increases` and the
  percentage figures of the summary reports are left out, because they are
  float rounding.
- The category, nationality and allowance summaries of the advanced
  generator are left out. They are ORM aggregations.
- AdvancedReports.CostAnalysisReport: does not model the per-category
  analysis, which is ORM filtering over the category choices.
- Text.Lower: lowercases ASCII letters only. Python's full Unicode case
  mapping is left out; the Arabic keywords have no case.
- Calendar: a datetime cell carries its date, hour, minute and second.
  Microseconds and time zones are left out, so the `str` of a datetime
  with microseconds is not modelled.
- Reports.SortByCost: states a non-increasing permutation but not
  stability; Python's sort is stable.
- The `str` of a float cell is its `repr` input; the model does not derive
  the shortest round-tripping representation.
