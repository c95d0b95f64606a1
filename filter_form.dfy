/** The cross-field check of the report filter form. */
module FilterForm {
  import opened Wrappers
  import opened Calendar

  /** The form's cleaned values; an empty optional field is `None`. */
  datatype CleanedData = CleanedData(
    employeeSearch: string,
    nationality: string,
    category: Option<string>,
    dateFrom: Option<Date>,
    dateTo: Option<Date>,
    isActive: string,
    salaryMin: Option<real>,
    salaryMax: Option<real>)

  datatype FormError = DatesOutOfOrder | SalariesOutOfOrder

  /** Python truthiness of an optional Decimal: present and non-zero. A date is always truthy. */
  predicate Truthy(x: Option<real>) {
    x.Some? && x.value != 0.0
  }

  /** The start date comes after the end date. */
  predicate DatesReversed(d: CleanedData) {
    d.dateFrom.Some? && d.dateTo.Some? && Before(d.dateTo.value, d.dateFrom.value)
  }

  /** Both bounds take part in the check and the lower exceeds the upper. */
  predicate SalariesReversed(d: CleanedData) {
    Truthy(d.salaryMin) && Truthy(d.salaryMax) && d.salaryMin.value > d.salaryMax.value
  }

  /**
   * `ReportFilterForm.clean`: the date check first, then the salary check;
   * when neither fires, the cleaned data come back unchanged.
   */
  function Clean(d: CleanedData): (r: Result<CleanedData, FormError>)
    ensures r.Ok? <==> !DatesReversed(d) && !SalariesReversed(d)
    ensures r.Ok? ==> r.value == d
    ensures r == Err(DatesOutOfOrder) <==> DatesReversed(d)
    ensures r == Err(SalariesOutOfOrder) <==> !DatesReversed(d) && SalariesReversed(d)
  {
    if d.dateFrom.Some? && d.dateTo.Some? && Before(d.dateTo.value, d.dateFrom.value) then Err(DatesOutOfOrder)
    else if Truthy(d.salaryMin) && Truthy(d.salaryMax) && d.salaryMin.value > d.salaryMax.value then Err(SalariesOutOfOrder)
    else Ok(d)
  }

  /** Equal dates and equal salary bounds are accepted. */
  lemma EqualBoundsAccepted(d: CleanedData)
    requires d.dateFrom == d.dateTo
    requires d.salaryMin == d.salaryMax
    ensures Clean(d) == Ok(d)
  {
  }

  /** A missing bound, or a zero one, switches the salary check off, whatever the other bound is. */
  lemma ZeroOrMissingBoundSkipsCheck(d: CleanedData)
    requires !DatesReversed(d)
    requires d.salaryMin.None? || d.salaryMin == Some(0.0) || d.salaryMax.None? || d.salaryMax == Some(0.0)
    ensures Clean(d) == Ok(d)
  {
  }

  /** A lower bound of 5000 against an upper bound of 0 passes, since 0 is falsy; against 1000 it fails. */
  lemma ZeroUpperBoundExample(d: CleanedData)
    requires d.dateFrom.None? && d.salaryMin == Some(5000.0)
    ensures Clean(d.(salaryMax := Some(0.0))).Ok?
    ensures Clean(d.(salaryMax := Some(1000.0))) == Err(SalariesOutOfOrder)
  {
  }

  /** When both checks would fire, the date error is the one raised. */
  lemma DateCheckFirst(d: CleanedData)
    requires DatesReversed(d) && SalariesReversed(d)
    ensures Clean(d) == Err(DatesOutOfOrder)
  {
  }
}
