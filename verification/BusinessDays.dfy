/** Business calendars and business-day stepping. */
module BusinessDays {
  import opened Wrappers
  import opened Dates
  import opened Holidays

  datatype BusinessCalendar = BusinessCalendar(extraHolidays: set<Day>, observeFederal: bool, weekend: set<int>)

  const DEFAULT_CALENDAR := BusinessCalendar({}, true, {SATURDAY, SUNDAY})

  predicate IsHoliday(cal: BusinessCalendar, day: Day) {
    day in cal.extraHolidays || (cal.observeFederal && IsFederal(day))
  }

  predicate IsBusinessDay(cal: BusinessCalendar, day: Day) {
    Weekday(day) !in cal.weekend && !IsHoliday(cal, day)
  }

  /** A business day, told from its weekday and its civil date alone. */
  lemma OpenExactly(cal: BusinessCalendar, day: Day)
    ensures IsBusinessDay(cal, day)
            <==> && Weekday(day) !in cal.weekend && day !in cal.extraHolidays
                 && (cal.observeFederal ==> !KeepsFederal(day, YearOf(day)))
  {
    FederalExactly(day, YearOf(day));
  }

  lemma DefaultOpenExactly(day: Day)
    ensures IsBusinessDay(DEFAULT_CALENDAR, day) <==> Weekday(day) <= FRIDAY && !KeepsFederal(day, YearOf(day))
  {
    OpenExactly(DEFAULT_CALENDAR, day);
  }

  /** 5 July 2021, the Monday after Independence Day, is closed. */
  lemma IndependenceDay2021(day: Day, e: Civil)
    requires e == Civil(2021, 7, 5) && day == ToOrdinal(e)
    ensures Weekday(day) == MONDAY && !IsBusinessDay(DEFAULT_CALENDAR, day)
  {
    SundayBefore(day, e);
    YearRead(day, e);
    MondayIsClosed(day, Civil(e.year, e.month, e.day - 1));
  }

  lemma SundayBefore(day: Day, e: Civil)
    requires e == Civil(2021, 7, 5) && day == ToOrdinal(e)
    ensures Weekday(day) == MONDAY && day - 1 == ToOrdinal(Civil(e.year, e.month, e.day - 1))
  {
    assert day == 737976;
  }

  lemma YearRead(day: Day, e: Civil)
    requires ValidCivil(e) && day == ToOrdinal(e)
    ensures YearOf(day) == e.year
  {
    OrdinalRoundTrip(e);
  }

  lemma MondayIsClosed(day: Day, c: Civil)
    requires c.month == 7 && c.day == 4 && day - 1 == ToOrdinal(c) && Weekday(day) == MONDAY && YearOf(day) == c.year
    ensures !IsBusinessDay(DEFAULT_CALENDAR, day)
  {
    CivilIsOrdinal(day - 1, c);
    OpenExactly(DEFAULT_CALENDAR, day);
  }

  // ------------------------------------------------------- the default calendar, and any calendar

  /** Among any four consecutive days two are weekdays. */
  lemma TwoWeekdays(day: Day) returns (p: Day, q: Day)
    ensures day <= p < q <= day + 3
    ensures Weekday(p) < SATURDAY && Weekday(q) < SATURDAY
  {
    var w := Weekday(day);
    p := if w <= 4 then day else if w == 5 then day + 2 else day + 1;
    q := if w <= 3 then day + 1 else if w == 6 then day + 2 else day + 3;
  }

  /** On the default calendar every four consecutive days contain a business day. */
  lemma DefaultGap(day: Day) returns (r: Day)
    ensures day <= r <= day + 3 && IsBusinessDay(DEFAULT_CALENDAR, r)
  {
    var p, q := TwoWeekdays(day);
    if IsFederal(p) {
      if IsFederal(q) {
        FederalSpacing(p, q);
      }
      r := q;
    } else {
      r := p;
    }
  }

  /** 31 December 2021 is the observed New Year's Day of 2022, and yet a business day. */
  lemma NewYearsEve2021(year: int, eve: Day)
    requires year == 2022 && eve == ToOrdinal(Civil(2021, 12, 31))
    ensures eve in FederalHolidays(year) && IsBusinessDay(DEFAULT_CALENDAR, eve)
  {
    EveOf2022(year, eve);
    SaturdayNewYear(year, eve);
  }

  lemma EveOf2022(year: int, eve: Day)
    requires year == 2022 && eve == ToOrdinal(Civil(2021, 12, 31))
    ensures eve == DaysBeforeYear(year) && Weekday(eve + 1) == SATURDAY
  {
  }

  lemma SaturdayNewYear(y: int, eve: Day)
    requires eve == DaysBeforeYear(y) && Weekday(eve + 1) == SATURDAY
    ensures eve in FederalHolidays(y) && IsBusinessDay(DEFAULT_CALENDAR, eve)
  {
    NewYearsEveIsOpen(y);
    NewYearObserved(y);
    FridayBefore(eve);
    OpenDay(DEFAULT_CALENDAR, eve);
  }

  lemma FridayBefore(day: Day)
    requires Weekday(day + 1) == SATURDAY
    ensures Weekday(day) == SATURDAY - 1
  {
  }

  lemma OpenDay(cal: BusinessCalendar, day: Day)
    requires Weekday(day) !in cal.weekend && day !in cal.extraHolidays && !IsFederal(day)
    ensures IsBusinessDay(cal, day)
  {
  }

  /** Some day of the week is not in the calendar's weekend. */
  ghost predicate HasOpenWeekday(cal: BusinessCalendar) {
    exists w :: 0 <= w < 7 && w !in cal.weekend
  }

  /** Without an open weekday there is no business day at all, so counting them never ends. */
  lemma ClosedForever(cal: BusinessCalendar, day: Day)
    requires !HasOpenWeekday(cal)
    ensures !IsBusinessDay(cal, day)
  {
  }

  lemma {:induction false} Bounds(s: set<Day>) returns (lo: Day, hi: Day)
    ensures forall x :: x in s ==> lo < x < hi
  {
    EmptyOrInhabited(s);
    if s == {} {
      lo, hi := 0, 0;
    } else {
      var x :| x in s;
      lo, hi := Bounds(s - {x});
      lo := if x <= lo then x - 1 else lo;
      hi := if x >= hi then x + 1 else hi;
      assert forall y :: y in s ==> y == x || y in s - {x};
    }
  }

  /** Three same-weekday days clear of extra holidays cannot all be federal holidays. */
  lemma OpenAmongThree(cal: BusinessCalendar, day: Day) returns (r: Day)
    requires Weekday(day) !in cal.weekend
    requires day !in cal.extraHolidays && day + 7 !in cal.extraHolidays && day + 14 !in cal.extraHolidays
    ensures day <= r <= day + 14 && IsBusinessDay(cal, r)
  {
    WeekPeriod(day, 1);
    WeekPeriod(day, 2);
    if IsFederal(day) && IsFederal(day + 7) && IsFederal(day + 14) {
      FederalTriple(day, day + 7, day + 14);
    }
    r := if !IsFederal(day) then day else if !IsFederal(day + 7) then day + 7 else day + 14;
  }

  lemma BusinessDayAfter(cal: BusinessCalendar, day: Day) returns (r: Day)
    requires HasOpenWeekday(cal)
    ensures day < r && IsBusinessDay(cal, r)
  {
    var w :| 0 <= w < 7 && w !in cal.weekend;
    var lo, hi := Bounds(cal.extraHolidays);
    var base := (if hi > day then hi else day) + 1;
    WeekdayShift(base, w, 0);
    r := OpenAmongThree(cal, base + (w - Weekday(base)) % 7);
  }

  lemma BusinessDayBefore(cal: BusinessCalendar, day: Day) returns (r: Day)
    requires HasOpenWeekday(cal)
    ensures r < day && IsBusinessDay(cal, r)
  {
    var w :| 0 <= w < 7 && w !in cal.weekend;
    var lo, hi := Bounds(cal.extraHolidays);
    var base := (if lo < day then lo else day) - 1;
    WeekdayShift(base, w, 0);
    var last := base - (Weekday(base) - w) % 7;
    WeekPeriod(last, -2);
    r := OpenAmongThree(cal, last - 14);
  }

  // --------------------------------------------------------------- next and previous business day

  /** Steps allowed before `next_business_day` and `previous_business_day` give up. */
  const STEP_CAP: nat := 30

  function NextFrom(cal: BusinessCalendar, candidate: Day, fuel: nat): Day
    decreases fuel, candidate  // `candidate` only keeps the constant bound from being unrolled
  {
    if fuel == 0 || IsBusinessDay(cal, candidate) then candidate else NextFrom(cal, candidate + 1, fuel - 1)
  }

  function NextBusinessDay(cal: BusinessCalendar, day: Day, inclusive: bool): Day {
    NextFrom(cal, if inclusive then day else day + 1, STEP_CAP)
  }

  function PreviousFrom(cal: BusinessCalendar, candidate: Day, fuel: nat): Day
    decreases fuel, candidate  // `candidate` only keeps the constant bound from being unrolled
  {
    if fuel == 0 || IsBusinessDay(cal, candidate) then candidate else PreviousFrom(cal, candidate - 1, fuel - 1)
  }

  function PreviousBusinessDay(cal: BusinessCalendar, day: Day, inclusive: bool): Day {
    PreviousFrom(cal, if inclusive then day else day - 1, STEP_CAP)
  }

  method FindNextBusinessDay(cal: BusinessCalendar, day: Day, inclusive: bool) returns (candidate: Day)
    ensures candidate == NextBusinessDay(cal, day, inclusive)
  {
    candidate := if inclusive then day else day + 1;
    for i := 0 to STEP_CAP
      invariant NextFrom(cal, candidate, STEP_CAP - i) == NextBusinessDay(cal, day, inclusive)
    {
      if IsBusinessDay(cal, candidate) {
        return;
      }
      candidate := candidate + 1;
    }
  }

  method FindPreviousBusinessDay(cal: BusinessCalendar, day: Day, inclusive: bool) returns (candidate: Day)
    ensures candidate == PreviousBusinessDay(cal, day, inclusive)
  {
    candidate := if inclusive then day else day - 1;
    for i := 0 to STEP_CAP
      invariant PreviousFrom(cal, candidate, STEP_CAP - i) == PreviousBusinessDay(cal, day, inclusive)
    {
      if IsBusinessDay(cal, candidate) {
        return;
      }
      candidate := candidate - 1;
    }
  }

  /** What the capped search returns: everything skipped is closed, and it stops short of the cap
      only at a business day. */
  lemma {:induction false} NextFromSkipsClosed(cal: BusinessCalendar, c: Day, fuel: nat)
    ensures var r := NextFrom(cal, c, fuel);
            && c <= r <= c + fuel
            && (forall d :: c <= d < r ==> !IsBusinessDay(cal, d))
            && (r < c + fuel ==> IsBusinessDay(cal, r))
    decreases fuel
  {
    if fuel > 0 && !IsBusinessDay(cal, c) {
      NextFromSkipsClosed(cal, c + 1, fuel - 1);
    }
  }

  lemma {:induction false} PreviousFromSkipsClosed(cal: BusinessCalendar, c: Day, fuel: nat)
    ensures var r := PreviousFrom(cal, c, fuel);
            && c - fuel <= r <= c
            && (forall d :: r < d <= c ==> !IsBusinessDay(cal, d))
            && (c - fuel < r ==> IsBusinessDay(cal, r))
    decreases fuel
  {
    if fuel > 0 && !IsBusinessDay(cal, c) {
      PreviousFromSkipsClosed(cal, c - 1, fuel - 1);
    }
  }

  /** The searches give up after thirty closed days, thirty days from where they began. */
  lemma GivesUpAfterThirty(cal: BusinessCalendar, c: Day)
    requires forall d :: c <= d < c + 30 ==> !IsBusinessDay(cal, d)
    ensures NextBusinessDay(cal, c, true) == c + 30 && NextBusinessDay(cal, c - 1, false) == c + 30
    ensures PreviousBusinessDay(cal, c + 29, true) == c - 1 && PreviousBusinessDay(cal, c + 30, false) == c - 1
  {
    NextFromSkipsClosed(cal, c, STEP_CAP);
    PreviousFromSkipsClosed(cal, c + 29, STEP_CAP);
  }

  /** On every calendar, even where the cap is hit, the search never reorders two dates. */
  lemma NextIsMonotone(cal: BusinessCalendar, a: Day, b: Day, inclusive: bool)
    requires a <= b
    ensures NextBusinessDay(cal, a, inclusive) <= NextBusinessDay(cal, b, inclusive)
  {
    var shift := if inclusive then 0 else 1;
    NextFromSkipsClosed(cal, a + shift, STEP_CAP);
    NextFromSkipsClosed(cal, b + shift, STEP_CAP);
  }

  lemma PreviousIsMonotone(cal: BusinessCalendar, a: Day, b: Day, inclusive: bool)
    requires a <= b
    ensures PreviousBusinessDay(cal, a, inclusive) <= PreviousBusinessDay(cal, b, inclusive)
  {
    var shift := if inclusive then 0 else 1;
    PreviousFromSkipsClosed(cal, a - shift, STEP_CAP);
    PreviousFromSkipsClosed(cal, b - shift, STEP_CAP);
  }

  ghost predicate LeastOpenFrom(cal: BusinessCalendar, c: Day, r: Day) {
    c <= r && IsBusinessDay(cal, r) && forall d :: c <= d < r ==> !IsBusinessDay(cal, d)
  }

  ghost predicate GreatestOpenUpTo(cal: BusinessCalendar, c: Day, r: Day) {
    r <= c && IsBusinessDay(cal, r) && forall d :: r < d <= c ==> !IsBusinessDay(cal, d)
  }

  lemma NextReachesOpen(cal: BusinessCalendar, c: Day, open: Day)
    requires c <= open < c + STEP_CAP && IsBusinessDay(cal, open)
    ensures LeastOpenFrom(cal, c, NextFrom(cal, c, STEP_CAP)) && NextFrom(cal, c, STEP_CAP) <= open
  {
    NextFromSkipsClosed(cal, c, STEP_CAP);
  }

  lemma PreviousReachesOpen(cal: BusinessCalendar, c: Day, open: Day)
    requires c - STEP_CAP < open <= c && IsBusinessDay(cal, open)
    ensures GreatestOpenUpTo(cal, c, PreviousFrom(cal, c, STEP_CAP)) && PreviousFrom(cal, c, STEP_CAP) >= open
  {
    PreviousFromSkipsClosed(cal, c, STEP_CAP);
  }

  /** On the default calendar the result is the least business day from the starting candidate on,
      at most three days away, so the cap is never reached. */
  lemma DefaultNextIsLeast(day: Day, inclusive: bool)
    ensures var c := if inclusive then day else day + 1;
            var r := NextBusinessDay(DEFAULT_CALENDAR, day, inclusive);
            LeastOpenFrom(DEFAULT_CALENDAR, c, r) && r <= c + 3
  {
    var c := if inclusive then day else day + 1;
    var open := DefaultGap(c);
    NextReachesOpen(DEFAULT_CALENDAR, c, open);
  }

  lemma DefaultPreviousIsGreatest(day: Day, inclusive: bool)
    ensures var c := if inclusive then day else day - 1;
            var r := PreviousBusinessDay(DEFAULT_CALENDAR, day, inclusive);
            GreatestOpenUpTo(DEFAULT_CALENDAR, c, r) && c - 3 <= r
  {
    var c := if inclusive then day else day - 1;
    var open := DefaultGap(c - 3);
    PreviousReachesOpen(DEFAULT_CALENDAR, c, open);
  }

  // ------------------------------------------------------------------------- adding business days

  /** The number of business days in (lo, hi]. */
  ghost function BusinessDaysIn(cal: BusinessCalendar, lo: Day, hi: Day): nat
    decreases hi - lo
  {
    if hi <= lo then 0
    else BusinessDaysIn(cal, lo, hi - 1) + if IsBusinessDay(cal, hi) then 1 else 0
  }

  /** `r` is where moving `count` business days from `day` ends, counted on the interval it crosses. */
  ghost predicate Lands(cal: BusinessCalendar, day: Day, count: int, r: Day) {
    && count != 0
    && IsBusinessDay(cal, r)
    && (count > 0 ==> day < r && BusinessDaysIn(cal, day, r) == count)
    && (count < 0 ==> r < day && BusinessDaysIn(cal, r - 1, day - 1) == -count)
  }

  lemma {:induction false} CountSplits(cal: BusinessCalendar, lo: Day, mid: Day, hi: Day)
    requires lo <= mid <= hi
    ensures BusinessDaysIn(cal, lo, hi) == BusinessDaysIn(cal, lo, mid) + BusinessDaysIn(cal, mid, hi)
    decreases hi - mid
  {
    if mid < hi {
      CountSplits(cal, lo, mid, hi - 1);
    }
  }

  /** Terminates on every calendar with an open weekday; with none, `ClosedForever` shows no count
      could ever be met. */
  method AddBusinessDays(cal: BusinessCalendar, day: Day, count: int) returns (candidate: Day)
    requires count != 0 ==> HasOpenWeekday(cal)
    ensures count == 0 ==> candidate == NextBusinessDay(cal, day, true)
    ensures count != 0 ==> Lands(cal, day, count, candidate)
  {
    if count == 0 {
      candidate := FindNextBusinessDay(cal, day, true);
      return;
    }
    var step := if count > 0 then 1 else -1;
    var remaining := if count > 0 then count else -count;
    candidate := day;
    ghost var ahead := BusinessDayAfter(cal, candidate);
    ghost var behind := BusinessDayBefore(cal, candidate);
    while remaining != 0
      invariant 0 <= remaining
      invariant step == (if count > 0 then 1 else -1)
      invariant remaining == 0 ==> candidate != day && IsBusinessDay(cal, candidate)
      invariant count > 0 ==> day <= candidate && BusinessDaysIn(cal, day, candidate) == count - remaining
      invariant count < 0 ==> candidate <= day && BusinessDaysIn(cal, candidate - 1, day - 1) == -count - remaining
      invariant behind < candidate < ahead
      invariant IsBusinessDay(cal, behind) && IsBusinessDay(cal, ahead)
      decreases remaining, if step == 1 then ahead - candidate else candidate - behind
    {
      candidate := candidate + step;
      if count < 0 {
        CountSplits(cal, candidate - 1, candidate, day - 1);
      }
      if IsBusinessDay(cal, candidate) {
        remaining := remaining - 1;
        ahead := BusinessDayAfter(cal, candidate);
        behind := BusinessDayBefore(cal, candidate);
      }
    }
  }

  /** Counting pins the landing day down. */
  lemma LandsIsUnique(cal: BusinessCalendar, day: Day, count: int, r: Day, s: Day)
    requires Lands(cal, day, count, r) && Lands(cal, day, count, s)
    ensures r == s
  {
    var lo, hi := if r < s then r else s, if r < s then s else r;
    if lo < hi {
      if count > 0 {
        CountSplits(cal, day, lo, hi);
        CountSplits(cal, lo, hi - 1, hi);
      } else {
        CountSplits(cal, lo - 1, hi - 1, day - 1);
        CountSplits(cal, lo - 1, lo, hi - 1);
      }
    }
  }

  /** add(add(day, a), b) == add(day, a + b) for counts of the same sign. */
  lemma LandsComposes(cal: BusinessCalendar, day: Day, a: int, mid: Day, b: int, r: Day)
    requires Lands(cal, day, a, mid) && Lands(cal, mid, b, r)
    requires (a > 0) == (b > 0)
    ensures Lands(cal, day, a + b, r)
  {
    if a > 0 {
      CountSplits(cal, day, mid, r);
    } else {
      CountSplits(cal, r - 1, mid - 1, day - 1);
    }
  }

  /** From a business day, moving there and back again is the identity. */
  lemma LandsInverts(cal: BusinessCalendar, day: Day, count: int, r: Day)
    requires IsBusinessDay(cal, day) && Lands(cal, day, count, r)
    ensures Lands(cal, r, -count, day)
  {
    if count > 0 {
      CountSplits(cal, day - 1, day, r - 1);
      CountSplits(cal, day, r - 1, r);
    } else {
      CountSplits(cal, r - 1, r, day);
      CountSplits(cal, r - 1, day - 1, day);
    }
  }

  // ----------------------------------------------------------------------------- due-date policies

  datatype AdjustmentPolicy = NoAdjustment | PreviousDay | NextDay | JurisdictionSpecific | ManualReview | UnknownPolicy

  function ApplyAdjustment(cal: BusinessCalendar, day: Day, policy: AdjustmentPolicy): (Day, Option<AdjustmentPolicy>) {
    if policy == NoAdjustment || IsBusinessDay(cal, day) then (day, None)
    else if policy == NextDay then (NextBusinessDay(cal, day, false), Some(policy))
    else if policy == PreviousDay then (PreviousBusinessDay(cal, day, false), Some(policy))
    else if policy == JurisdictionSpecific then (day, Some(policy))
    else if policy == ManualReview then (day, Some(policy))
    else (day, None)
  }

  /** On every calendar a statutory date moves only under the two shifting policies and only off a
      closed day; a business day is kept under every policy. */
  lemma AdjustmentMovesOnlyClosedDays(cal: BusinessCalendar, day: Day, policy: AdjustmentPolicy)
    ensures ApplyAdjustment(cal, day, policy).0 != day <==> policy in {NextDay, PreviousDay} && !IsBusinessDay(cal, day)
  {
    NextFromSkipsClosed(cal, day + 1, STEP_CAP);
    PreviousFromSkipsClosed(cal, day - 1, STEP_CAP);
  }

  /** The policy is reported as applied exactly when it had something to do; and it moves forward or back
      only as it says. */
  lemma AdjustmentReported(cal: BusinessCalendar, day: Day, policy: AdjustmentPolicy)
    ensures var (adjusted, applied) := ApplyAdjustment(cal, day, policy);
            var closed := !IsBusinessDay(cal, day);
            && applied == (if closed && policy in {NextDay, PreviousDay, JurisdictionSpecific, ManualReview} then Some(policy) else None)
            && (closed && policy == NextDay ==> adjusted > day)
            && (closed && policy == PreviousDay ==> adjusted < day)
  {
    NextFromSkipsClosed(cal, day + 1, STEP_CAP);
    PreviousFromSkipsClosed(cal, day - 1, STEP_CAP);
  }

  lemma AdjustsToOpen(cal: BusinessCalendar, day: Day, after: Day, before: Day)
    requires !IsBusinessDay(cal, day)
    requires IsBusinessDay(cal, after) && day < after <= day + STEP_CAP
    requires IsBusinessDay(cal, before) && day - STEP_CAP <= before < day
    ensures LeastOpenFrom(cal, day, ApplyAdjustment(cal, day, NextDay).0) && ApplyAdjustment(cal, day, NextDay).0 <= after
    ensures GreatestOpenUpTo(cal, day, ApplyAdjustment(cal, day, PreviousDay).0)
    ensures ApplyAdjustment(cal, day, PreviousDay).0 >= before
  {
    NextReachesOpen(cal, day + 1, after);
    PreviousReachesOpen(cal, day - 1, before);
  }

  /** On the default calendar the shifting policies take a closed day to the nearest business day on
      their side, at most three days away. */
  lemma DefaultAdjustment(day: Day)
    requires !IsBusinessDay(DEFAULT_CALENDAR, day)
    ensures var r := ApplyAdjustment(DEFAULT_CALENDAR, day, NextDay).0;
            LeastOpenFrom(DEFAULT_CALENDAR, day, r) && r <= day + 3
    ensures var r := ApplyAdjustment(DEFAULT_CALENDAR, day, PreviousDay).0;
            GreatestOpenUpTo(DEFAULT_CALENDAR, day, r) && day - 3 <= r
  {
    var after := DefaultGap(day);
    var before := DefaultGap(day - 3);
    AdjustsToOpen(DEFAULT_CALENDAR, day, after, before);
  }
}
