/** Recurrence rules and their expansion into due dates. */
module Recurrence {
  import opened Wrappers
  import opened Dates

  datatype RecurrenceType =
    | FixedAnnualDate
    | IssueAnniversary
    | ExpirationAnniversary
    | RegulatorSupplied
    | NmlsAnnualRenewalWindow
    | BondExpiration
    | AnnualReportDate
    | RelativeToCaseEvent
    | CustomInterval
    | ManualDate
    | UnsupportedType

  /** The configured 'date' string of MANUAL_DATE: absent, an ISO date, or not a date. */
  datatype ConfiguredDate = NotGiven | Given(day: Day) | Unparsable

  datatype Config = Config(
    month: Option<int>, day: Option<int>, intervalYears: Option<int>,
    windowEndMonth: Option<int>, windowEndDay: Option<int>, offsetDays: Option<int>,
    intervalMonths: Option<int>, intervalDays: Option<int>, date: ConfiguredDate)

  datatype Context = Context(
    issueDate: Option<Day>, effectiveDate: Option<Day>, expirationDate: Option<Day>,
    regulatorSuppliedDueDate: Option<Day>, bondExpirationDate: Option<Day>, annualReportDate: Option<Day>,
    lastCompletedDate: Option<Day>, caseEventDate: Option<Day>, manualDate: Option<Day>)

  datatype Rule = Rule(rtype: RecurrenceType, config: Config, context: Context)

  /** `BadConfig` is the module's own error; `BadDate` is the date constructor's. */
  datatype Error = BadConfig | BadDate

  function GetOr(o: Option<int>, default: int): int {
    if o.Some? then o.value else default
  }

  function FirstGiven(os: seq<Option<Day>>): Option<Day> {
    if os == [] then None else if os[0].Some? then os[0] else FirstGiven(os[1..])
  }

  // ------------------------------------------------------------------------------ clamped dates

  /** `month`/`day` in year `y`, clamped to the last day of the month. */
  function Anniversary(month: int, day: int, y: int): Day
    requires 1 <= month <= 12 && 1 <= day
  {
    var last := DaysInMonth(y, month);
    ToOrdinal(Civil(y, month, if day <= last then day else last))
  }

  function SafeDate(y: int, month: int, day: int): Result<Day, Error> {
    if 1 <= month <= 12 && 1 <= day then Ok(Anniversary(month, day, y)) else Err(BadDate)
  }

  function AnniversaryOf(anchor: Day, y: int): Day {
    Anniversary(FromOrdinal(anchor).month, FromOrdinal(anchor).day, y)
  }

  /** What "after `after`, or on it if inclusive" asks of a date. */
  predicate Beyond(d: Day, after: Day, inclusive: bool) {
    d > after || (d == after && inclusive)
  }

  function NextAnnual(month: int, day: int, after: Day, inclusive: bool): Result<Day, Error> {
    var candidate := SafeDate(YearOf(after), month, day);
    if candidate.Ok? && !Beyond(candidate.value, after, inclusive) then SafeDate(YearOf(after) + 1, month, day)
    else candidate
  }

  // ---------------------------------------------------------------------------- custom intervals

  function MonthStep(d: Day, months: int): Day {
    MonthsAfter(FromOrdinal(d), months)
  }

  function MonthsAfter(c: Civil, months: int): Day
    requires ValidCivil(c)
  {
    var (year, month) := MonthsOn(c, months);
    Anniversary(month, c.day, year)
  }

  /** The year and month `months` after those of `c`. */
  function MonthsOn(c: Civil, months: int): (r: (int, int))
    requires 1 <= c.month <= 12
    ensures 1 <= r.1 <= 12
    ensures 12 * r.0 + r.1 == 12 * c.year + c.month + months
  {
    var total := c.month - 1 + months;
    (c.year + total / 12, total % 12 + 1)
  }

  function IntervalStep(d: Day, months: int, days: int): Day {
    (if months != 0 then MonthStep(d, months) else d) + days
  }

  function StepBy(months: int, days: int): Day -> Day {
    d => IntervalStep(d, months, days)
  }

  const MAX_INTERVAL_STEPS: nat := 400

  function IntervalSearch(step: Day -> Day, d: Day, after: Day, inclusive: bool, fuel: nat): Option<Day>
    decreases fuel, d  // `d` only keeps the constant bound from being unrolled
  {
    if fuel == 0 then None
    else if Beyond(step(d), after, inclusive) then Some(step(d))
    else IntervalSearch(step, step(d), after, inclusive, fuel - 1)
  }

  method FindIntervalOccurrence(anchor: Day, months: int, days: int, after: Day, inclusive: bool) returns (r: Option<Day>)
    ensures r == IntervalSearch(StepBy(months, days), anchor, after, inclusive, MAX_INTERVAL_STEPS)
  {
    var candidate := anchor;
    for i := 0 to MAX_INTERVAL_STEPS
      invariant IntervalSearch(StepBy(months, days), candidate, after, inclusive, MAX_INTERVAL_STEPS - i)
             == IntervalSearch(StepBy(months, days), anchor, after, inclusive, MAX_INTERVAL_STEPS)
    {
      candidate := IntervalStep(candidate, months, days);
      if Beyond(candidate, after, inclusive) {
        return Some(candidate);
      }
    }
    r := None;
  }

  // ----------------------------------------------------------------------------- next occurrence

  function IfBeyond(d: Option<Day>, after: Day, inclusive: bool): Option<Day> {
    if d.Some? && Beyond(d.value, after, inclusive) then d else None
  }

  function Found(r: Result<Day, Error>): Result<Option<Day>, Error> {
    if r.Ok? then Ok(Some(r.value)) else Err(r.error)
  }

  function IssueAnchor(c: Context): Option<Day> {
    FirstGiven([c.issueDate, c.effectiveDate])
  }

  function IntervalAnchor(c: Context): Option<Day> {
    FirstGiven([c.lastCompletedDate, c.expirationDate, c.effectiveDate, c.issueDate])
  }

  function IssueOccurrence(rule: Rule, after: Day, inclusive: bool): Result<Option<Day>, Error> {
    var anchor := IssueAnchor(rule.context);
    if anchor.None? then Ok(None)
    else
      var candidate := AnniversaryOf(anchor.value, YearOf(after));
      Ok(Some(if Beyond(candidate, after, inclusive) then candidate
              else AnniversaryOf(anchor.value, YearOf(after) + GetOr(rule.config.intervalYears, 1))))
  }

  function ExpirationOccurrence(rule: Rule, after: Day, inclusive: bool): Result<Option<Day>, Error> {
    var anchor := rule.context.expirationDate;
    if anchor.None? then Ok(None)
    else if Beyond(anchor.value, after, inclusive) then Ok(anchor)
    else Ok(Some(AnniversaryOf(anchor.value, YearOf(anchor.value) + GetOr(rule.config.intervalYears, 1))))
  }

  function AnnualReportOccurrence(rule: Rule, after: Day, inclusive: bool): Result<Option<Day>, Error> {
    var config, anchor := rule.config, rule.context.annualReportDate;
    if IfBeyond(anchor, after, inclusive).Some? then Ok(anchor)
    else if config.month.Some? && config.day.Some? then
      Found(NextAnnual(config.month.value, config.day.value, after, inclusive))
    else if anchor.None? then Ok(None)
    else Ok(Some(AnniversaryOf(anchor.value, YearOf(after) + 1)))
  }

  function IntervalOccurrence(rule: Rule, after: Day, inclusive: bool): Result<Option<Day>, Error> {
    var anchor := IntervalAnchor(rule.context);
    var months, days := GetOr(rule.config.intervalMonths, 0), GetOr(rule.config.intervalDays, 0);
    if anchor.None? then Ok(None)
    else if months <= 0 && days <= 0 then Err(BadConfig)
    else Ok(IntervalSearch(StepBy(months, days), anchor.value, after, inclusive, MAX_INTERVAL_STEPS))
  }

  function NextOccurrence(rule: Rule, after: Day, inclusive: bool): Result<Option<Day>, Error> {
    var config, context := rule.config, rule.context;
    match rule.rtype
    case FixedAnnualDate =>
      if config.month.None? || config.day.None? then Err(BadConfig)
      else Found(NextAnnual(config.month.value, config.day.value, after, inclusive))
    case IssueAnniversary => IssueOccurrence(rule, after, inclusive)
    case ExpirationAnniversary => ExpirationOccurrence(rule, after, inclusive)
    case RegulatorSupplied => Ok(IfBeyond(context.regulatorSuppliedDueDate, after, inclusive))
    case NmlsAnnualRenewalWindow =>
      Found(NextAnnual(GetOr(config.windowEndMonth, 12), GetOr(config.windowEndDay, 31), after, inclusive))
    case BondExpiration => Ok(IfBeyond(context.bondExpirationDate, after, inclusive))
    case AnnualReportDate => AnnualReportOccurrence(rule, after, inclusive)
    case RelativeToCaseEvent =>
      if context.caseEventDate.None? then Ok(None)
      else Ok(Some(context.caseEventDate.value + GetOr(config.offsetDays, 0)))
    case CustomInterval => IntervalOccurrence(rule, after, inclusive)
    case ManualDate =>
      if context.manualDate.Some? then Ok(IfBeyond(context.manualDate, after, inclusive))
      else if config.date.Unparsable? then Err(BadConfig)
      else if config.date.NotGiven? then Ok(None)
      else Ok(IfBeyond(Some(config.date.day), after, inclusive))
    case UnsupportedType => Err(BadConfig)
  }

  // ----------------------------------------------------------------------------------- expansion

  predicate SingleShot(t: RecurrenceType) {
    t in {RegulatorSupplied, BondExpiration, ManualDate, RelativeToCaseEvent}
  }

  /** "The next date after this one, or on it if the flag is set." */
  type Stepper = (Day, bool) -> Result<Option<Day>, Error>

  function StepperOf(rule: Rule): Stepper {
    (after: Day, inclusive: bool) => NextOccurrence(rule, after, inclusive)
  }

  function ExpandFrom(next: Stepper, single: bool, cursor: Day, inclusive: bool, horizon: Day, limit: nat): Result<seq<Day>, Error>
    decreases limit
  {
    if limit == 0 then Ok([])
    else
      var nxt := next(cursor, inclusive);
      if nxt.Err? then Err(nxt.error)
      else if nxt.value.None? || nxt.value.value > horizon then Ok([])
      else if single then Ok([nxt.value.value])
      else
        Prepend([nxt.value.value], ExpandFrom(next, single, nxt.value.value, false, horizon, limit - 1))
  }

  function Prepend(xs: seq<Day>, r: Result<seq<Day>, Error>): Result<seq<Day>, Error> {
    if r.Err? then r else Ok(xs + r.value)
  }

  lemma PrependLaws(xs: seq<Day>, ys: seq<Day>, r: Result<seq<Day>, Error>)
    ensures Prepend([], r) == r
    ensures Prepend(xs, Prepend(ys, r)) == Prepend(xs + ys, r)
    ensures Prepend(xs, Ok([])) == Ok(xs)
  {
    if r.Ok? {
      assert [] + r.value == r.value;
      assert xs + (ys + r.value) == xs + ys + r.value;
    }
    assert xs + [] == xs;
  }

  function Nat(n: int): nat {
    if n < 0 then 0 else n
  }

  function Expansion(rule: Rule, start: Day, horizon: Day, limit: int): Result<seq<Day>, Error> {
    ExpandFrom(StepperOf(rule), SingleShot(rule.rtype), start, true, horizon, Nat(limit))
  }

  method ExpandWith(next: Stepper, single: bool, start: Day, horizon: Day, limit: nat) returns (r: Result<seq<Day>, Error>)
    ensures r == ExpandFrom(next, single, start, true, horizon, limit)
  {
    var occurrences: seq<Day> := [];
    var cursor := start;
    var inclusive := true;
    PrependLaws([], [], ExpandFrom(next, single, start, true, horizon, limit));
    for i := 0 to limit
      invariant ExpandFrom(next, single, start, true, horizon, limit)
             == Prepend(occurrences, ExpandFrom(next, single, cursor, inclusive, horizon, limit - i))
    {
      var nxt := next(cursor, inclusive);
      PrependLaws(occurrences, [], Ok([]));
      if nxt.Err? {
        return Err(nxt.error);
      }
      if nxt.value.None? || nxt.value.value > horizon {
        return Ok(occurrences);
      }
      PrependLaws(occurrences, [nxt.value.value], ExpandFrom(next, single, nxt.value.value, false, horizon, limit - i - 1));
      occurrences := occurrences + [nxt.value.value];
      if single {
        return Ok(occurrences);
      }
      cursor := nxt.value.value;
      inclusive := false;
    }
    PrependLaws(occurrences, [], Ok([]));
    r := Ok(occurrences);
  }

  method Expand(rule: Rule, start: Day, horizon: Day, limit: int) returns (r: Result<seq<Day>, Error>)
    ensures r == Expansion(rule, start, horizon, limit)
  {
    r := ExpandWith(StepperOf(rule), SingleShot(rule.rtype), start, horizon, Nat(limit));
  }
}
