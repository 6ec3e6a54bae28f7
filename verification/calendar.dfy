/**
 * Proleptic Gregorian dates as Python's `datetime` accepts them: years 1
 * through 9999, months 1 through 12, days up to the length of the month.
 */
module Calendar {

  datatype Date = Date(year: int, month: int, day: int)

  const MinYear: int := 1
  const MaxYear: int := 9999

  predicate IsLeapYear(y: int) {
    y % 4 == 0 && (y % 100 != 0 || y % 400 == 0)
  }

  function DaysInMonth(y: int, m: int): (n: int)
    requires 1 <= m <= 12
    ensures 28 <= n <= 31
    ensures n == 29 <==> m == 2 && IsLeapYear(y)
  {
    if m == 2 then (if IsLeapYear(y) then 29 else 28)
    else if m == 4 || m == 6 || m == 9 || m == 11 then 30
    else 31
  }

  /** The dates `datetime` can represent; any other triple makes it raise `ValueError`. */
  predicate ValidDate(d: Date) {
    MinYear <= d.year <= MaxYear && 1 <= d.month <= 12 && 1 <= d.day <= DaysInMonth(d.year, d.month)
  }

  /** `(a.month, a.day) < (b.month, b.day)` as Python compares tuples. */
  predicate MonthDayBefore(a: Date, b: Date) {
    a.month < b.month || (a.month == b.month && a.day < b.day)
  }

  /** `a` is strictly earlier than `b` in (year, month, day) order. */
  predicate Before(a: Date, b: Date) {
    a.year < b.year || (a.year == b.year && MonthDayBefore(a, b))
  }

  /** The last date `datetime` can represent. */
  const LastDate: Date := Date(MaxYear, 12, 31)

  /** The following calendar day. */
  function NextDay(d: Date): (n: Date)
    requires ValidDate(d) && Before(d, LastDate)
    ensures ValidDate(n) && Before(d, n)
    ensures forall x :: ValidDate(x) && Before(d, x) ==> !Before(x, n)
  {
    if d.day < DaysInMonth(d.year, d.month) then Date(d.year, d.month, d.day + 1)
    else if d.month < 12 then Date(d.year, d.month + 1, 1)
    else Date(d.year + 1, 1, 1)
  }

  /**
   * The `k`-th anniversary of `d`: the same month and day `k` years later.
   * For a 29 February it need not be a real date; it is compared by its
   * (year, month, day) triple only.
   */
  function Anniversary(d: Date, k: int): Date {
    Date(d.year + k, d.month, d.day)
  }
}
