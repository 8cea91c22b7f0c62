/** The proleptic Gregorian calendar: a date is a day ordinal (ordinal 1 is Monday, 1 January of
    year 1), and `Civil` is its year/month/day reading. */
module Dates {

  type Day = int

  datatype Civil = Civil(year: int, month: int, day: int)

  predicate IsLeap(y: int) {
    y % 4 == 0 && (y % 100 != 0 || y % 400 == 0)
  }

  function LeapDay(y: int): int {
    if IsLeap(y) then 1 else 0
  }

  function DaysInMonth(y: int, m: int): (n: int)
    requires 1 <= m <= 12
    ensures 28 <= n <= 31
  {
    if m == 2 then 28 + LeapDay(y)
    else if m == 4 || m == 6 || m == 9 || m == 11 then 30
    else 31
  }

  function DaysBeforeYear(y: int): int {
    var p := y - 1;
    365 * p + p / 4 - p / 100 + p / 400
  }

  function CommonDaysBefore(m: int): int
    requires 3 <= m <= 13
  {
    if m == 3 then 59
    else if m == 4 then 90
    else if m == 5 then 120
    else if m == 6 then 151
    else if m == 7 then 181
    else if m == 8 then 212
    else if m == 9 then 243
    else if m == 10 then 273
    else if m == 11 then 304
    else if m == 12 then 334
    else 365
  }

  /** Days of year `y` before month `m`; month 13 is the start of the next year. */
  function DaysBeforeMonth(y: int, m: int): int
    requires 1 <= m <= 13
  {
    if m == 1 then 0
    else if m == 2 then 31
    else LeapDay(y) + CommonDaysBefore(m)
  }

  predicate ValidCivil(c: Civil) {
    1 <= c.month <= 12 && 1 <= c.day <= DaysInMonth(c.year, c.month)
  }

  function ToOrdinal(c: Civil): Day
    requires ValidCivil(c)
  {
    DaysBeforeYear(c.year) + DaysBeforeMonth(c.year, c.month) + c.day
  }

  lemma QuotientStep(y: int)
    ensures y / 4 - (y - 1) / 4 == (if y % 4 == 0 then 1 else 0)
    ensures y / 100 - (y - 1) / 100 == (if y % 100 == 0 then 1 else 0)
    ensures y / 400 - (y - 1) / 400 == (if y % 400 == 0 then 1 else 0)
  {
  }

  lemma YearStep(y: int)
    ensures DaysBeforeYear(y + 1) == DaysBeforeYear(y) + 365 + LeapDay(y)
  {
    QuotientStep(y);
    LeapCount(y);
  }

  lemma LeapCount(y: int)
    ensures LeapDay(y) == (if y % 4 == 0 then 1 else 0) - (if y % 100 == 0 then 1 else 0) + (if y % 400 == 0 then 1 else 0)
  {
    MultipleOfFactor(y, 4, 25);
    MultipleOfFactor(y, 100, 4);
  }

  lemma MultipleOfFactor(y: int, a: int, b: int)
    requires (a == 4 && b == 25) || (a == 100 && b == 4)
    ensures y % (a * b) == 0 ==> y % a == 0
  {
  }

  lemma {:induction false} YearsIncrease(a: int, b: int)
    requires a <= b
    ensures DaysBeforeYear(b) - DaysBeforeYear(a) >= 365 * (b - a)
    decreases b - a
  {
    if a < b {
      YearsIncrease(a, b - 1);
      YearStep(b - 1);
    }
  }

  /** The year whose days include ordinal `o`. */
  function YearOf(o: Day): (y: int)
    ensures DaysBeforeYear(y) < o <= DaysBeforeYear(y + 1)
  {
    var guess := (o - 1) * 400 / 146097 + 1;
    if o <= DaysBeforeYear(guess) then guess - 1
    else if o > DaysBeforeYear(guess + 1) then guess + 1
    else guess
  }

  lemma YearIsUnique(y: int, o: Day)
    requires DaysBeforeYear(y) < o <= DaysBeforeYear(y + 1)
    ensures YearOf(o) == y
  {
    var z := YearOf(o);
    if z < y {
      YearsIncrease(z + 1, y);
    } else if z > y {
      YearsIncrease(y + 1, z);
    }
  }

  /** The month of year `y` whose days include day-of-year `k`. */
  function MonthAt(y: int, k: int): (m: int)
    requires 1 <= k <= 365 + LeapDay(y)
    ensures 1 <= m <= 12
    ensures DaysBeforeMonth(y, m) < k <= DaysBeforeMonth(y, m) + DaysInMonth(y, m)
  {
    var l := LeapDay(y);
    if k <= 31 then 1
    else if k <= 59 + l then 2
    else if k <= 90 + l then 3
    else if k <= 120 + l then 4
    else if k <= 151 + l then 5
    else if k <= 181 + l then 6
    else if k <= 212 + l then 7
    else if k <= 243 + l then 8
    else if k <= 273 + l then 9
    else if k <= 304 + l then 10
    else if k <= 334 + l then 11
    else 12
  }

  function FromOrdinal(o: Day): (c: Civil)
    ensures ValidCivil(c) && c.year == YearOf(o)
    ensures ToOrdinal(c) == o
  {
    var y := YearOf(o);
    YearStep(y);
    var k := o - DaysBeforeYear(y);
    var m := MonthAt(y, k);
    Civil(y, m, k - DaysBeforeMonth(y, m))
  }

  predicate Earlier(a: Civil, b: Civil) {
    a.year < b.year || (a.year == b.year && (a.month < b.month || (a.month == b.month && a.day < b.day)))
  }

  lemma MonthsIncrease(y: int, a: int, b: int)
    requires 1 <= a < b <= 13
    ensures DaysBeforeMonth(y, a) + DaysInMonth(y, a) <= DaysBeforeMonth(y, b)
  {
  }

  lemma EarlierIsSmaller(a: Civil, b: Civil)
    requires ValidCivil(a) && ValidCivil(b) && Earlier(a, b)
    ensures ToOrdinal(a) < ToOrdinal(b)
  {
    MonthsIncrease(a.year, a.month, 13);
    if a.year < b.year {
      YearStep(a.year);
      YearsIncrease(a.year + 1, b.year);
      MonthsIncrease(a.year, a.month, 13);
      assert DaysBeforeMonth(a.year, 13) == 365 + LeapDay(a.year);
      assert DaysBeforeMonth(b.year, b.month) >= 0;
    } else if a.month < b.month {
      MonthsIncrease(a.year, a.month, b.month);
    }
  }

  /** Ordinals order dates exactly as year, month, day do. */
  lemma OrdinalOrder(a: Civil, b: Civil)
    requires ValidCivil(a) && ValidCivil(b)
    ensures ToOrdinal(a) < ToOrdinal(b) <==> Earlier(a, b)
    ensures ToOrdinal(a) == ToOrdinal(b) <==> a == b
  {
    if Earlier(a, b) {
      EarlierIsSmaller(a, b);
    } else if Earlier(b, a) {
      EarlierIsSmaller(b, a);
    }
  }

  /** Reading a valid date back from its ordinal gives the same date. */
  lemma OrdinalRoundTrip(c: Civil)
    requires ValidCivil(c)
    ensures FromOrdinal(ToOrdinal(c)) == c
    ensures YearOf(ToOrdinal(c)) == c.year
  {
    OrdinalOrder(FromOrdinal(ToOrdinal(c)), c);
  }
}
