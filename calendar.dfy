/**
 * The part of java.time.LocalDate the schedule uses: ISO proleptic calendar
 * dates and `plusMonths(1)`.
 */
module Calendar {

  datatype LocalDate = LocalDate(year: int, month: int, day: int)

  /** ISO leap-year rule (`IsoChronology.isLeapYear`). */
  predicate IsLeapYear(year: int)
  {
    year % 4 == 0 && (year % 100 != 0 || year % 400 == 0)
  }

  function LengthOfMonth(year: int, month: int): (len: int)
    requires 1 <= month <= 12
    ensures 28 <= len <= 31
    ensures len == 29 <==> month == 2 && IsLeapYear(year)
  {
    if month == 2 then (if IsLeapYear(year) then 29 else 28)
    else if month == 4 || month == 6 || month == 9 || month == 11 then 30
    else 31
  }

  predicate IsValidDate(d: LocalDate)
  {
    1 <= d.month <= 12 && 1 <= d.day <= LengthOfMonth(d.year, d.month)
  }

  /** A LocalDate object always holds an existing calendar day. */
  type Date = d: LocalDate | IsValidDate(d) witness LocalDate(2000, 1, 1)

  /** Months since January of year 0 (`getProlepticMonth`). */
  function MonthIndex(d: LocalDate): int { d.year * 12 + d.month - 1 }

  function Min(a: int, b: int): int { if a <= b then a else b }

  /**
   * `plusMonths(1)`: move to the next calendar month and keep the day of the
   * month, clamped to the last day of that month when it is shorter.
   */
  function PlusOneMonth(d: Date): (next: Date)
    ensures MonthIndex(next) == MonthIndex(d) + 1
    ensures d.month < 12 ==> next.year == d.year && next.month == d.month + 1
    ensures d.month == 12 ==> next.year == d.year + 1 && next.month == 1
    ensures next.day <= d.day
    ensures next.day == d.day <==> d.day <= LengthOfMonth(next.year, next.month)
    ensures d.day > LengthOfMonth(next.year, next.month) ==> next.day == LengthOfMonth(next.year, next.month)
  {
    var calcMonths := MonthIndex(d) + 1;
    var year := calcMonths / 12;
    var month := calcMonths % 12 + 1;
    LocalDate(year, month, Min(d.day, LengthOfMonth(year, month)))
  }

  /** Applying `plusMonths(1)` k times advances the month index by exactly k. */
  function PlusMonthsStepwise(d: Date, k: nat): (r: Date)
    ensures MonthIndex(r) == MonthIndex(d) + k
    ensures r.day <= d.day
  {
    if k == 0 then d else PlusOneMonth(PlusMonthsStepwise(d, k - 1))
  }

  /**
   * Stepping month by month carries a clamped day forward: January 31 of a
   * leap year steps to February 29 and then to March 29, not March 31.
   */
  lemma EndOfMonthDrift()
    ensures PlusMonthsStepwise(LocalDate(2024, 1, 31), 1) == LocalDate(2024, 2, 29)
    ensures PlusMonthsStepwise(LocalDate(2024, 1, 31), 2) == LocalDate(2024, 3, 29)
  {
  }
}
