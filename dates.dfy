/** Calendar dates as java.time.LocalDate sees them (proleptic Gregorian), and the
    years component of java.time.Period.between, which counts full calendar years. */
module Dates {

  datatype Date = Date(year: int, month: int, day: int)

  predicate IsLeapYear(year: int) {
    year % 4 == 0 && (year % 100 != 0 || year % 400 == 0)
  }

  function LengthOfMonth(year: int, month: int): (n: int)
    requires 1 <= month <= 12
    ensures 28 <= n <= 31
    ensures month != 2 ==> n >= 30
  {
    if month == 2 then (if IsLeapYear(year) then 29 else 28)
    else if month == 4 || month == 6 || month == 9 || month == 11 then 30
    else 31
  }

  predicate IsValidDate(d: Date) {
    1 <= d.month <= 12 && 1 <= d.day <= LengthOfMonth(d.year, d.month)
  }

  /** A LocalDate always names an existing day. */
  type LocalDate = d: Date | IsValidDate(d) witness Date(1970, 1, 1)

  /** Chronological order: lexicographic on (year, month, day). */
  predicate OnOrBefore(a: Date, b: Date) {
    a.year < b.year || (a.year == b.year && (a.month < b.month || (a.month == b.month && a.day <= b.day)))
  }

  /** LocalDate.getProlepticMonth: months counted from year 0. */
  function ProlepticMonth(d: Date): int {
    d.year * 12 + d.month - 1
  }

  /** Java's integer division, which truncates toward zero. */
  function JavaDiv(a: int, b: int): (q: int)
    requires b > 0
    ensures a >= 0 ==> q == a / b
    ensures a < 0 ==> q == -((-a) / b)
  {
    if a >= 0 then a / b else -((-a) / b)
  }

  /** Period.between(start, end).getYears(): the month difference, less one when
      the end's day of month has not reached the start's, divided by 12 with truncation. */
  function PeriodYears(start: LocalDate, end: LocalDate): (years: int)
    ensures OnOrBefore(start, end) ==> 0 <= years && end.year - start.year - 1 <= years <= end.year - start.year
    ensures OnOrBefore(end, start) ==> years <= 0 && end.year - start.year <= years <= end.year - start.year + 1
  {
    var totalMonths := ProlepticMonth(end) - ProlepticMonth(start);
    var days := end.day - start.day;
    var months :=
      if totalMonths > 0 && days < 0 then totalMonths - 1
      else if totalMonths < 0 && days > 0 then totalMonths + 1
      else totalMonths;
    JavaDiv(months, 12)
  }

  /** LocalDate.minusYears: the same month and day n years earlier, the day clamped to the month's length. */
  function MinusYears(d: LocalDate, n: int): (r: LocalDate)
    ensures r.year == d.year - n && r.month == d.month && r.day <= d.day
  {
    var y := d.year - n;
    var len := LengthOfMonth(y, d.month);
    Date(y, d.month, if d.day <= len then d.day else len)
  }

  /** LocalDate.plusDays(1). */
  function NextDay(d: LocalDate): (r: LocalDate)
    ensures OnOrBefore(d, r) && r != d
  {
    if d.day < LengthOfMonth(d.year, d.month) then Date(d.year, d.month, d.day + 1)
    else if d.month < 12 then Date(d.year, d.month + 1, 1)
    else Date(d.year + 1, 1, 1)
  }

  /** At least n full years (n >= 1) lie between start and end exactly when the
      n-th anniversary of start, taken as (year + n, month, day), is on or before end. */
  lemma YearsReached(start: LocalDate, end: LocalDate, n: int)
    requires n >= 1
    ensures PeriodYears(start, end) >= n <==> OnOrBefore(Date(start.year + n, start.month, start.day), end)
  {
    var totalMonths := ProlepticMonth(end) - ProlepticMonth(start);
    var days := end.day - start.day;
    var months :=
      if totalMonths > 0 && days < 0 then totalMonths - 1
      else if totalMonths < 0 && days > 0 then totalMonths + 1
      else totalMonths;
    var gap := end.year - start.year - n;
    assert totalMonths - 12 * n == gap * 12 + (end.month - start.month);
    assert JavaDiv(months, 12) >= n <==> months >= 12 * n;
    if gap > 0 {
      assert totalMonths - 12 * n >= 1;
    } else if gap < 0 {
      assert totalMonths - 12 * n <= -1;
    }
  }

  /** A date of birth after today gives no full year at all. */
  lemma FutureBirthHasNoYears(dob: LocalDate, today: LocalDate)
    requires !OnOrBefore(dob, today)
    ensures PeriodYears(dob, today) <= 0
  {
    var totalMonths := ProlepticMonth(today) - ProlepticMonth(dob);
    var gap := today.year - dob.year;
    assert totalMonths == gap * 12 + (today.month - dob.month);
    if gap < 0 {
      assert totalMonths <= -1;
    }
  }

  /** The eighteenth birthday is the boundary: a date of birth exactly 18 calendar years
      before today gives 18 years, and the day after it gives fewer. */
  lemma EighteenthBirthday(today: LocalDate)
    ensures PeriodYears(MinusYears(today, 18), today) >= 18
    ensures PeriodYears(NextDay(MinusYears(today, 18)), today) < 18
  {
    var dob := MinusYears(today, 18);
    YearsReached(dob, today, 18);
    var next := NextDay(dob);
    YearsReached(next, today, 18);
    if dob.day < today.day {
      // the clamp only happens on 29 February, which is then followed by 1 March
      assert today.month == 2 && dob.day == 28;
      assert next == Date(dob.year, 3, 1);
    }
  }
}
