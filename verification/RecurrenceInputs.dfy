/** Which of the given dates each recurrence type goes by, and which configurations it refuses. */
module RecurrenceInputs {
  import opened Wrappers
  import opened Dates
  import opened Recurrence
  import opened RecurrenceProperties

  /** The first of four dates that is given. */
  ghost predicate FirstOfFour(a: Option<Day>, b: Option<Day>, c: Option<Day>, d: Option<Day>, r: Option<Day>) {
    && (a.Some? ==> r == a)
    && (a.None? && b.Some? ==> r == b)
    && (a.None? && b.None? && c.Some? ==> r == c)
    && (a.None? && b.None? && c.None? ==> r == d)
  }

  /** Issue anniversaries go by the issue date, or else the effective date; custom intervals by the date last
      completed, or else the expiry, the effective or the issue date. */
  lemma AnchorsInOrder(c: Context)
    ensures c.issueDate.Some? ==> IssueAnchor(c) == c.issueDate
    ensures c.issueDate.None? ==> IssueAnchor(c) == c.effectiveDate
    ensures FirstOfFour(c.lastCompletedDate, c.expirationDate, c.effectiveDate, c.issueDate, IntervalAnchor(c))
  {
    OneGiven(c.effectiveDate);
    TwoGiven(c.issueDate, c.effectiveDate);
    FourGiven(c.lastCompletedDate, c.expirationDate, c.effectiveDate, c.issueDate);
  }

  lemma OneGiven(a: Option<Day>)
    ensures FirstGiven([a]) == a
  {
    assert [a][1..] == [];
  }

  lemma TwoGiven(a: Option<Day>, b: Option<Day>)
    ensures FirstGiven([a, b]) == if a.Some? then a else b
  {
    OneGiven(b);
    assert [a, b][1..] == [b];
  }

  lemma FourGiven(a: Option<Day>, b: Option<Day>, c: Option<Day>, d: Option<Day>)
    ensures FirstOfFour(a, b, c, d, FirstGiven([a, b, c, d]))
  {
    TwoGiven(c, d);
    assert [a, b, c, d][1..] == [b, c, d] && [b, c, d][1..] == [c, d];
  }

  /** The one date of a type that has one: the regulator's, the bond's, or the manual one, which is the
      case's own or else the configured one. */
  function GivenDate(rule: Rule): Option<Day>
    requires rule.rtype in {RegulatorSupplied, BondExpiration, ManualDate}
  {
    if rule.rtype == RegulatorSupplied then rule.context.regulatorSuppliedDueDate
    else if rule.rtype == BondExpiration then rule.context.bondExpirationDate
    else if rule.context.manualDate.Some? then rule.context.manualDate
    else if rule.config.date.Given? then Some(rule.config.date.day)
    else None
  }

  /** The manual date is missing and the configured text is not a date. */
  predicate BadManual(rule: Rule) {
    rule.rtype == ManualDate && rule.context.manualDate.None? && rule.config.date.Unparsable?
  }

  lemma GivenOccurrence(rule: Rule, after: Day, inclusive: bool)
    requires rule.rtype in {RegulatorSupplied, BondExpiration, ManualDate} && !BadManual(rule)
    ensures var d := GivenDate(rule);
            NextOccurrence(rule, after, inclusive)
            == Ok(if d.Some? && (d.value > after || (inclusive && d.value == after)) then d else None)
  {
  }

  /** Such a type expands to its date if that lies in the window, and otherwise to nothing. */
  lemma GivenExpansion(rule: Rule, start: Day, horizon: Day, limit: int)
    requires rule.rtype in {RegulatorSupplied, BondExpiration, ManualDate} && !BadManual(rule)
    ensures var d := GivenDate(rule);
            Expansion(rule, start, horizon, limit)
            == Ok(if d.Some? && start <= d.value <= horizon && limit >= 1 then [d.value] else [])
  {
    GivenOccurrence(rule, start, true);
    SingleDate(StepperOf(rule), start, horizon, Nat(limit));
  }

  lemma SingleDate(next: Stepper, start: Day, horizon: Day, limit: nat)
    requires next(start, true).Ok?
    ensures var d := next(start, true).value;
            ExpandFrom(next, true, start, true, horizon, limit) == Ok(if limit >= 1 && d.Some? && d.value <= horizon then [d.value] else [])
  {
  }

  /** ANNUAL_REPORT_DATE gives the report date while it is ahead; after that the first configured
      anniversary beyond the date asked about, or with none configured the report's anniversary next year. */
  lemma AnnualReportOccurs(rule: Rule, after: Day, inclusive: bool)
    requires rule.rtype == AnnualReportDate
    ensures var report, month, day := rule.context.annualReportDate, rule.config.month, rule.config.day;
            var ahead := report.Some? && (report.value > after || (inclusive && report.value == after));
            && (ahead ==> NextOccurrence(rule, after, inclusive) == Ok(report))
            && (!ahead && month.Some? && day.Some? && 1 <= month.value <= 12 && 1 <= day.value ==>
                  NextOccurrence(rule, after, inclusive)
                  == Ok(Some(Anniversary(month.value, day.value, NextYear(month.value, day.value, after, inclusive, 1)))))
            && (!ahead && (month.None? || day.None?) ==>
                  NextOccurrence(rule, after, inclusive)
                  == Ok(if report.Some? then Some(AnniversaryOf(report.value, YearOf(after) + 1)) else None))
  {
    var month, day := rule.config.month, rule.config.day;
    ReportIsOccurrence(rule, after, inclusive);
    if month.Some? && day.Some? && 1 <= month.value <= 12 && 1 <= day.value {
      NextAnnualIsFirst(month.value, day.value, after, inclusive);
    }
  }

  lemma ReportIsOccurrence(rule: Rule, after: Day, inclusive: bool)
    requires rule.rtype == AnnualReportDate
    ensures NextOccurrence(rule, after, inclusive) == AnnualReportOccurrence(rule, after, inclusive)
  {
  }

  /** A month or a day that no year has. */
  predicate NoSuchDay(month: int, day: int) {
    !(1 <= month <= 12) || day < 1
  }

  /** What a rule is refused for. */
  predicate Refused(rule: Rule, after: Day, inclusive: bool) {
    var config, context := rule.config, rule.context;
    match rule.rtype
    case FixedAnnualDate => config.month.None? || config.day.None? || NoSuchDay(config.month.value, config.day.value)
    case NmlsAnnualRenewalWindow => NoSuchDay(GetOr(config.windowEndMonth, 12), GetOr(config.windowEndDay, 31))
    case AnnualReportDate =>
      && !(context.annualReportDate.Some?
           && (context.annualReportDate.value > after || (inclusive && context.annualReportDate.value == after)))
      && config.month.Some? && config.day.Some? && NoSuchDay(config.month.value, config.day.value)
    case CustomInterval =>
      IntervalAnchor(context).Some? && GetOr(config.intervalMonths, 0) <= 0 && GetOr(config.intervalDays, 0) <= 0
    case ManualDate => BadManual(rule)
    case UnsupportedType => true
    case _ => false
  }

  lemma AnnualRefused(month: int, day: int, after: Day, inclusive: bool)
    ensures NextAnnual(month, day, after, inclusive).Err? <==> NoSuchDay(month, day)
  {
  }

  lemma RefusedExactly(rule: Rule, after: Day, inclusive: bool)
    ensures NextOccurrence(rule, after, inclusive).Err? <==> Refused(rule, after, inclusive)
  {
    var config := rule.config;
    if config.month.Some? && config.day.Some? {
      AnnualRefused(config.month.value, config.day.value, after, inclusive);
    }
    AnnualRefused(GetOr(config.windowEndMonth, 12), GetOr(config.windowEndDay, 31), after, inclusive);
  }
}
