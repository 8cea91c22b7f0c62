/** US federal holidays, and how far apart they are. */
module Holidays {
  import opened Dates

  const SATURDAY := 5
  const SUNDAY := 6

  /** Monday is 0. */
  function Weekday(day: Day): (w: int)
    ensures 0 <= w < 7
  {
    (day + 6) % 7
  }

  lemma WeekdayShift(day: Day, weekday: int, weeks: int)
    requires 0 <= weekday < 7
    ensures Weekday(day + (weekday - Weekday(day)) % 7 + 7 * weeks) == weekday
    ensures Weekday(day - (Weekday(day) - weekday) % 7) == weekday
    ensures Weekday(day + 7) == Weekday(day)
  {
    WeekPeriod(day + (weekday - Weekday(day)) % 7, weeks);
  }

  lemma WeekPeriod(day: Day, weeks: int)
    ensures Weekday(day + 7 * weeks) == Weekday(day)
  {
    assert day + 7 * weeks + 6 == 7 * (weeks + (day + 6) / 7) + (day + 6) % 7;
  }

  function FirstOf(year: int, month: int): Day
    requires 1 <= month <= 12
  {
    ToOrdinal(Civil(year, month, 1))
  }

  /** The `n`-th `weekday` of a month: it has that weekday and lies in the month's `n`-th week of days. */
  function NthWeekday(year: int, month: int, weekday: int, n: int): (r: Day)
    requires 1 <= month <= 12 && 0 <= weekday < 7
    ensures Weekday(r) == weekday
    ensures FirstOf(year, month) + 7 * (n - 1) <= r < FirstOf(year, month) + 7 * n
  {
    var first := FirstOf(year, month);
    var offset := (weekday - Weekday(first)) % 7;
    WeekdayShift(first, weekday, n - 1);
    first + offset + 7 * (n - 1)
  }

  /** The final `weekday` of a month: it has that weekday and is among the month's last seven days. */
  function LastWeekday(year: int, month: int, weekday: int): (r: Day)
    requires 1 <= month <= 12 && 0 <= weekday < 7
    ensures Weekday(r) == weekday
    ensures FirstOf(year, month) + DaysInMonth(year, month) - 7 <= r < FirstOf(year, month) + DaysInMonth(year, month)
  {
    YearStep(year);
    var next := if month == 12 then FirstOf(year + 1, 1) else FirstOf(year, month + 1);
    var last := next - 1;
    WeekdayShift(last, weekday, 0);
    last - (Weekday(last) - weekday) % 7
  }

  function Observed(day: Day): Day {
    if Weekday(day) == SATURDAY then day - 1
    else if Weekday(day) == SUNDAY then day + 1
    else day
  }

  function FixedHoliday(year: int, month: int, day: int): Day
    requires ValidCivil(Civil(year, month, day))
  {
    Observed(ToOrdinal(Civil(year, month, day)))
  }

  const HOLIDAYS := 11

  /** The eleven holidays of a year, in the order of the calendar. */
  function SlotDay(y: int, k: int): Day
    requires 0 <= k < HOLIDAYS
  {
    if k == 0 then FixedHoliday(y, 1, 1)
    else if k == 1 then NthWeekday(y, 1, 0, 3)
    else if k == 2 then NthWeekday(y, 2, 0, 3)
    else if k == 3 then LastWeekday(y, 5, 0)
    else if k == 4 then FixedHoliday(y, 6, 19)
    else if k == 5 then FixedHoliday(y, 7, 4)
    else if k == 6 then NthWeekday(y, 9, 0, 1)
    else if k == 7 then NthWeekday(y, 10, 0, 2)
    else if k == 8 then FixedHoliday(y, 11, 11)
    else if k == 9 then NthWeekday(y, 11, 3, 4)
    else FixedHoliday(y, 12, 25)
  }

  function FederalHolidays(year: int): set<Day> {
    set k | 0 <= k < HOLIDAYS :: SlotDay(year, k)
  }

  /** What `is_holiday` consults: only the holidays computed for the day's own year. */
  predicate IsFederal(day: Day) {
    day in FederalHolidays(YearOf(day))
  }

  // ---------------------------------------------------------------- spacing of federal holidays

  /** The window of days of the year, in order, that holiday number `k` can fall in. */
  function SlotLow(k: int): int
    requires 0 <= k < HOLIDAYS
  {
    [1, 15, 46, 145, 169, 184, 244, 281, 314, 326, 358][k]
  }

  function SlotHigh(k: int): int
    requires 0 <= k < HOLIDAYS
  {
    [2, 21, 52, 151, 171, 186, 250, 287, 316, 332, 360][k]
  }

  function SlotShift(y: int, k: int): int {
    if k >= 3 then LeapDay(y) else 0
  }

  lemma SlotWindow(y: int, k: int)
    requires 0 <= k < HOLIDAYS
    requires k == 0 ==> SlotDay(y, k) > DaysBeforeYear(y)
    ensures SlotLow(k) <= SlotDay(y, k) - DaysBeforeYear(y) - SlotShift(y, k) <= SlotHigh(k)
  {
  }

  lemma SlotsAreHolidays(y: int, day: Day) returns (k: int)
    requires day in FederalHolidays(y)
    ensures 0 <= k < HOLIDAYS && day == SlotDay(y, k)
  {
    k :| 0 <= k < HOLIDAYS && day == SlotDay(y, k);
  }

  lemma FederalSlot(day: Day) returns (k: int)
    requires IsFederal(day)
    ensures 0 <= k < HOLIDAYS && day == SlotDay(YearOf(day), k)
    ensures SlotLow(k) <= day - DaysBeforeYear(YearOf(day)) - SlotShift(YearOf(day), k) <= SlotHigh(k)
  {
    k := SlotsAreHolidays(YearOf(day), day);
    SlotWindow(YearOf(day), k);
  }

  lemma SlotGaps(i: int, j: int)
    requires 0 <= i < j < HOLIDAYS
    ensures SlotLow(j) - SlotHigh(i) >= 10
  {
  }

  lemma SlotSpacing(ya: int, i: int, a: Day, yb: int, j: int, b: Day)
    requires 0 <= i < HOLIDAYS && 0 <= j < HOLIDAYS && a < b
    requires SlotLow(i) <= a - DaysBeforeYear(ya) - SlotShift(ya, i) <= SlotHigh(i)
    requires SlotLow(j) <= b - DaysBeforeYear(yb) - SlotShift(yb, j) <= SlotHigh(j)
    requires ya == yb ==> i != j
    ensures b - a >= 6 && ya <= yb
    ensures ya == yb ==> b - a >= 10
  {
    if ya == yb {
      if i < j {
        SlotGaps(i, j);
      } else {
        SlotGaps(j, i);
      }
    } else if ya < yb {
      YearStep(ya);
      YearsIncrease(ya + 1, yb);
    } else {
      YearStep(yb);
      YearsIncrease(yb + 1, ya);
    }
  }

  /** Federal holidays are at least six days apart, and ten within a year. */
  lemma FederalSpacing(a: Day, b: Day)
    requires IsFederal(a) && IsFederal(b) && a < b
    ensures b - a >= 6 && YearOf(a) <= YearOf(b)
    ensures YearOf(a) == YearOf(b) ==> b - a >= 10
  {
    var i := FederalSlot(a);
    var j := FederalSlot(b);
    SlotSpacing(YearOf(a), i, a, YearOf(b), j, b);
  }

  /** So no three federal holidays fit in fifteen days. */
  lemma FederalTriple(a: Day, b: Day, c: Day)
    requires IsFederal(a) && IsFederal(b) && IsFederal(c) && a < b < c
    ensures c - a > 14
  {
    FederalSpacing(a, b);
    FederalSpacing(b, c);
    if YearOf(a) < YearOf(b) < YearOf(c) {
      YearsIncrease(YearOf(a) + 1, YearOf(b));
      YearsIncrease(YearOf(b), YearOf(b) + 1);
      YearsIncrease(YearOf(b) + 1, YearOf(c));
    }
  }

  lemma NewYearsEveIsOpen(y: int)
    ensures YearOf(DaysBeforeYear(y)) == y - 1
    ensures !IsFederal(DaysBeforeYear(y))
  {
    var eve := DaysBeforeYear(y);
    YearStep(y - 1);
    YearIsUnique(y - 1, eve);
    if IsFederal(eve) {
      var k := FederalSlot(eve);
    }
  }

  /** A Saturday New Year's Day is observed on 31 December, which belongs to the year before. Looking
      a day up under its own year misses exactly that observance and no other. */
  lemma MissedObservance(y: int, day: Day)
    requires day in FederalHolidays(y)
    ensures !IsFederal(day) <==> day == DaysBeforeYear(y)
    ensures day == DaysBeforeYear(y) ==> Weekday(day + 1) == SATURDAY
  {
    if day == DaysBeforeYear(y) {
      NewYearsEveIsOpen(y);
      SlotRange(y, day);
    } else {
      SlotRange(y, day);
      YearIsUnique(y, day);
    }
  }

  lemma SlotRange(y: int, day: Day)
    requires day in FederalHolidays(y)
    ensures DaysBeforeYear(y) <= day <= DaysBeforeYear(y + 1)
    ensures day == DaysBeforeYear(y) ==> Weekday(day + 1) == SATURDAY
  {
    var k := SlotsAreHolidays(y, day);
    YearStep(y);
    NewYearSlot(y);
    if k > 0 {
      SlotWindow(y, k);
    }
  }

  /** A Saturday New Year's Day is observed on the day before. */
  lemma NewYearObserved(y: int)
    requires Weekday(DaysBeforeYear(y) + 1) == SATURDAY
    ensures DaysBeforeYear(y) in FederalHolidays(y)
  {
    NewYearSlot(y);
    SlotIsHoliday(y, 0);
  }

  lemma SlotIsHoliday(y: int, k: int)
    requires 0 <= k < HOLIDAYS
    ensures SlotDay(y, k) in FederalHolidays(y)
  {
  }

  lemma NewYearSlot(y: int)
    ensures DaysBeforeYear(y) <= SlotDay(y, 0) <= DaysBeforeYear(y) + 2
    ensures SlotDay(y, 0) == DaysBeforeYear(y) <==> Weekday(DaysBeforeYear(y) + 1) == SATURDAY
  {
  }

  // ---------------------------------------------- which days are holidays, by civil date and weekday

  const MONDAY := 0
  const THURSDAY := 3
  const FRIDAY := 4

  /** A fixed date counts on itself from Monday to Friday, on the Friday before if it is a Saturday, and on
      the Monday after if it is a Sunday. */
  predicate KeepsFixed(day: Day, y: int, m: int, d: int)
    requires ValidCivil(Civil(y, m, d))
  {
    || (FromOrdinal(day) == Civil(y, m, d) && Weekday(day) <= FRIDAY)
    || (FromOrdinal(day + 1) == Civil(y, m, d) && Weekday(day) == FRIDAY)
    || (FromOrdinal(day - 1) == Civil(y, m, d) && Weekday(day) == MONDAY)
  }

  predicate InMonth(day: Day, y: int, m: int) {
    FromOrdinal(day).year == y && FromOrdinal(day).month == m
  }

  /** The weekday of the month's days 7(n - 1) + 1 to 7n. */
  predicate KeepsNth(day: Day, y: int, m: int, weekday: int, n: int) {
    InMonth(day, y, m) && Weekday(day) == weekday && 7 * (n - 1) < FromOrdinal(day).day <= 7 * n
  }

  /** The weekday of the month's last seven days. */
  predicate KeepsLast(day: Day, y: int, m: int, weekday: int)
    requires 1 <= m <= 12
  {
    InMonth(day, y, m) && Weekday(day) == weekday && FromOrdinal(day).day > DaysInMonth(y, m) - 7
  }

  /** The holidays of section 6103 of title 5 of the United States Code. */
  predicate KeepsFederal(day: Day, y: int) {
    || KeepsFixed(day, y, 1, 1) || KeepsFixed(day, y, 6, 19) || KeepsFixed(day, y, 7, 4)
    || KeepsFixed(day, y, 11, 11) || KeepsFixed(day, y, 12, 25)
    || KeepsNth(day, y, 1, MONDAY, 3) || KeepsNth(day, y, 2, MONDAY, 3) || KeepsLast(day, y, 5, MONDAY)
    || KeepsNth(day, y, 9, MONDAY, 1) || KeepsNth(day, y, 10, MONDAY, 2) || KeepsNth(day, y, 11, THURSDAY, 4)
  }

  lemma CivilIsOrdinal(day: Day, c: Civil)
    requires ValidCivil(c)
    ensures FromOrdinal(day) == c <==> day == ToOrdinal(c)
  {
    OrdinalRoundTrip(c);
  }

  lemma ObservedExactly(day: Day, holiday: Day)
    ensures day == Observed(holiday)
            <==> || (day == holiday && Weekday(day) <= FRIDAY)
                 || (day + 1 == holiday && Weekday(day) == FRIDAY)
                 || (day - 1 == holiday && Weekday(day) == MONDAY)
  {
  }

  lemma FixedExactly(day: Day, y: int, m: int, d: int)
    requires ValidCivil(Civil(y, m, d))
    ensures day == FixedHoliday(y, m, d) <==> KeepsFixed(day, y, m, d)
  {
    var c := Civil(y, m, d);
    CivilIsOrdinal(day, c);
    CivilIsOrdinal(day + 1, c);
    CivilIsOrdinal(day - 1, c);
    ObservedExactly(day, ToOrdinal(c));
  }

  lemma MonthExactly(day: Day, y: int, m: int)
    requires 1 <= m <= 12
    ensures InMonth(day, y, m) <==> FirstOf(y, m) <= day < FirstOf(y, m) + DaysInMonth(y, m)
    ensures InMonth(day, y, m) ==> FromOrdinal(day).day == day - FirstOf(y, m) + 1
  {
    if FirstOf(y, m) <= day < FirstOf(y, m) + DaysInMonth(y, m) {
      CivilIsOrdinal(day, Civil(y, m, day - FirstOf(y, m) + 1));
    }
  }

  lemma OneWeekdayInSeven(a: Day, b: Day)
    requires Weekday(a) == Weekday(b) && -7 < a - b < 7
    ensures a == b
  {
  }

  lemma NthExactly(day: Day, y: int, m: int, weekday: int, n: int)
    requires 1 <= m <= 12 && 0 <= weekday < 7 && 1 <= n <= 4
    ensures day == NthWeekday(y, m, weekday, n) <==> KeepsNth(day, y, m, weekday, n)
  {
    var r := NthWeekday(y, m, weekday, n);
    MonthExactly(day, y, m);
    if KeepsNth(day, y, m, weekday, n) {
      OneWeekdayInSeven(day, r);
    }
  }

  lemma LastExactly(day: Day, y: int, m: int, weekday: int)
    requires 1 <= m <= 12 && 0 <= weekday < 7
    ensures day == LastWeekday(y, m, weekday) <==> KeepsLast(day, y, m, weekday)
  {
    var r := LastWeekday(y, m, weekday);
    MonthExactly(day, y, m);
    if KeepsLast(day, y, m, weekday) {
      OneWeekdayInSeven(day, r);
    }
  }

  lemma FixedSlots(day: Day, y: int)
    ensures day in {SlotDay(y, 0), SlotDay(y, 4), SlotDay(y, 5), SlotDay(y, 8), SlotDay(y, 10)}
            <==> KeepsFixed(day, y, 1, 1) || KeepsFixed(day, y, 6, 19) || KeepsFixed(day, y, 7, 4)
                 || KeepsFixed(day, y, 11, 11) || KeepsFixed(day, y, 12, 25)
  {
    FixedExactly(day, y, 1, 1);
    FixedExactly(day, y, 6, 19);
    FixedExactly(day, y, 7, 4);
    FixedExactly(day, y, 11, 11);
    FixedExactly(day, y, 12, 25);
  }

  lemma FloatingSlots(day: Day, y: int)
    ensures day in {SlotDay(y, 1), SlotDay(y, 2), SlotDay(y, 3), SlotDay(y, 6), SlotDay(y, 7), SlotDay(y, 9)}
            <==> KeepsNth(day, y, 1, MONDAY, 3) || KeepsNth(day, y, 2, MONDAY, 3) || KeepsLast(day, y, 5, MONDAY)
                 || KeepsNth(day, y, 9, MONDAY, 1) || KeepsNth(day, y, 10, MONDAY, 2) || KeepsNth(day, y, 11, THURSDAY, 4)
  {
    NthExactly(day, y, 1, MONDAY, 3);
    NthExactly(day, y, 2, MONDAY, 3);
    LastExactly(day, y, 5, MONDAY);
    NthExactly(day, y, 9, MONDAY, 1);
    NthExactly(day, y, 10, MONDAY, 2);
    NthExactly(day, y, 11, THURSDAY, 4);
  }

  lemma SlotsSplit(slot: int -> Day, day: Day)
    ensures (exists k :: 0 <= k < HOLIDAYS && day == slot(k))
            <==> day in {slot(0), slot(4), slot(5), slot(8), slot(10)} || day in {slot(1), slot(2), slot(3), slot(6), slot(7), slot(9)}
  {
  }

  /** The holidays computed for a year are exactly those days. */
  lemma FederalExactly(day: Day, y: int)
    ensures day in FederalHolidays(y) <==> KeepsFederal(day, y)
  {
    FixedSlots(day, y);
    FloatingSlots(day, y);
    SlotsSplit(k => if 0 <= k < HOLIDAYS then SlotDay(y, k) else 0, day);
  }

  /** Every holiday is from Monday to Friday. */
  lemma HolidaysAreWeekdays(day: Day, y: int)
    requires day in FederalHolidays(y)
    ensures Weekday(day) <= FRIDAY
  {
    FederalExactly(day, y);
  }
}
