/** Calendar dates and the month arithmetic that ActiveSupport adds to them. */
module Calendar {

  datatype Date = Date(y: int, m: int, d: int)

  predicate LeapYear(y: int) {
    y % 4 == 0 && (y % 100 != 0 || y % 400 == 0)
  }

  function DaysInMonth(y: int, m: int): (n: int)
    ensures 28 <= n <= 31
  {
    if m == 2 then if LeapYear(y) then 29 else 28
    else if m in [4, 6, 9, 11] then 30
    else 31
  }

  predicate RealDate(a: Date) {
    1 <= a.m <= 12 && 1 <= a.d <= DaysInMonth(a.y, a.m)
  }

  predicate Before(a: Date, b: Date) {
    a.y < b.y || (a.y == b.y && (a.m < b.m || (a.m == b.m && a.d < b.d)))
  }

  predicate NotAfter(a: Date, b: Date) {
    !Before(b, a)
  }

  function BeginningOfMonth(a: Date): Date {
    a.(d := 1)
  }

  function EndOfMonth(a: Date): Date {
    a.(d := DaysInMonth(a.y, a.m))
  }

  /** `1.month.ago(a)`: the same day of the previous month, or that month's last day when it is shorter. */
  function MonthAgo(a: Date): Date {
    var (y, m) := if a.m == 1 then (a.y - 1, 12) else (a.y, a.m - 1);
    Date(y, m, if a.d <= DaysInMonth(y, m) then a.d else DaysInMonth(y, m))
  }

  predicate SameMonth(a: Date, b: Date) {
    a.y == b.y && a.m == b.m
  }

  /** Whatever the day, leap years and clamping included, this is the day before the current month. */
  lemma EndOfLastMonth(a: Date)
    requires RealDate(a)
    ensures RealDate(MonthAgo(a)) && RealDate(EndOfMonth(MonthAgo(a)))
    ensures forall x | RealDate(x) :: Before(x, BeginningOfMonth(a)) <==> NotAfter(x, EndOfMonth(MonthAgo(a)))
  {
  }

  /** A month's first and last day bound exactly the days of that month. */
  lemma MonthBounds(a: Date, x: Date)
    requires RealDate(a) && RealDate(x)
    ensures SameMonth(x, a) <==> NotAfter(BeginningOfMonth(a), x) && NotAfter(x, EndOfMonth(a))
  {
  }

  /** The days before a year that is counted from March: 365 each, and the leap days. */
  function YearStart(y: int): int {
    365 * y + y / 4 - y / 100 + y / 400
  }

  /** The days of such a year before its month `m`, March being month 0. */
  function MonthStart(m: int): int {
    (153 * m + 2) / 5
  }

  /** The number of a day in the proleptic Gregorian calendar. */
  function DayNumber(a: Date): int {
    if a.m <= 2 then YearStart(a.y - 1) + MonthStart(a.m + 9) + a.d else YearStart(a.y) + MonthStart(a.m - 3) + a.d
  }

  /** The first of the next month. */
  function NextMonth(a: Date): Date {
    if a.m == 12 then Date(a.y + 1, 1, 1) else Date(a.y, a.m + 1, 1)
  }

  /** The length of every month is how many days there are from its first to the next month's first. */
  lemma MonthLengthIsDayCount(y: int, m: int)
    requires 1 <= m <= 12
    ensures DaysInMonth(y, m) == DayNumber(NextMonth(Date(y, m, 1))) - DayNumber(Date(y, m, 1))
  {
    YearLength(y);
    hide YearStart, LeapYear;
  }

  lemma YearLength(y: int)
    ensures YearStart(y) - YearStart(y - 1) == if LeapYear(y) then 366 else 365
  {
    LeapDays(y);
  }

  /** Between two first days of March there is a leap day exactly in a leap year. */
  lemma LeapDays(y: int)
    ensures y / 4 - (y - 1) / 4 == if y % 4 == 0 then 1 else 0
    ensures y / 100 - (y - 1) / 100 == if y % 100 == 0 then 1 else 0
    ensures y / 400 - (y - 1) / 400 == if y % 400 == 0 then 1 else 0
    ensures (y % 400 == 0 ==> y % 100 == 0) && (y % 100 == 0 ==> y % 4 == 0)
  {
    Fourth(y);
    Hundredth(y);
    FourHundredth(y);
    Multiples(y);
  }

  lemma Fourth(y: int)
    ensures y / 4 - (y - 1) / 4 == if y % 4 == 0 then 1 else 0
  {
  }

  lemma Hundredth(y: int)
    ensures y / 100 - (y - 1) / 100 == if y % 100 == 0 then 1 else 0
  {
  }

  lemma FourHundredth(y: int)
    ensures y / 400 - (y - 1) / 400 == if y % 400 == 0 then 1 else 0
  {
  }

  lemma Multiples(y: int)
    ensures (y % 400 == 0 ==> y % 100 == 0) && (y % 100 == 0 ==> y % 4 == 0)
  {
  }
}
