/**
 * Anniversary arithmetic of a repository's first commit (src/models.rs).
 *
 * Dates are proleptic Gregorian (year, month, day) triples, as chrono's
 * `NaiveDate` is. The clock the source reads (`Local::now()`) is the `today`
 * parameter of every function here.
 */
module Models {
  import opened Wrappers

  datatype Date = Date(year: int, month: int, day: int)

  /** The Gregorian leap-year rule. `%` is only compared with 0, where Rust's
    * truncating remainder and Dafny's Euclidean one agree. */
  predicate IsLeapYear(y: int) {
    y % 4 == 0 && (y % 100 != 0 || y % 400 == 0)
  }

  function DaysInMonth(y: int, m: int): int {
    if m == 2 then (if IsLeapYear(y) then 29 else 28)
    else if m == 4 || m == 6 || m == 9 || m == 11 then 30
    else 31
  }

  predicate IsValid(d: Date) {
    1 <= d.month <= 12 && 1 <= d.day <= DaysInMonth(d.year, d.month)
  }

  /** A date that exists on the calendar, the values `NaiveDate` can hold. */
  type ValidDate = d: Date | IsValid(d) witness Date(1970, 1, 1)

  /** `NaiveDate::from_ymd_opt`: the date, when it exists. */
  function FromYmd(year: int, month: int, day: int): (r: Option<ValidDate>)
    ensures r.Some? <==> IsValid(Date(year, month, day))
    ensures r.Some? ==> r.value == Date(year, month, day)
  {
    var d := Date(year, month, day);
    if IsValid(d) then Some(d) else None
  }

  /** Chronological order of dates, the order `NaiveDate` compares by. */
  predicate Before(a: Date, b: Date) {
    a.year < b.year || (a.year == b.year && (a.month < b.month || (a.month == b.month && a.day < b.day)))
  }

  predicate IsLeapDay(d: Date) {
    d.month == 2 && d.day == 29
  }

  /** A commit time stamp: the calendar date and the second of that day (UTC). */
  datatype Timestamp = Timestamp(date: ValidDate, secondOfDay: nat)

  /** The first commit of a repository, with the repository's name and owner login. */
  datatype FirstCommit = FirstCommit(message: string, date: Timestamp, name: string, owner: string)

  /**
   * `change_year`: the same day of the year in `year`. A February 29 moved to
   * a common year becomes March 1. The date it builds always exists, so the
   * source's panic branch is never taken.
   */
  function ChangeYear(original: ValidDate, year: int): (r: ValidDate)
    ensures r.year == year
    ensures year == original.year ==> r == original
    ensures IsLeapDay(original) && !IsLeapYear(year) ==> r.month == 3 && r.day == 1
    ensures !(IsLeapDay(original) && !IsLeapYear(year)) ==> r.month == original.month && r.day == original.day
  {
    if original.year == year then original
    else
      var shift := IsLeapDay(original) && !IsLeapYear(year);
      var month := if shift then 3 else original.month;
      var day := if shift then 1 else original.day;
      match FromYmd(year, month, day)
      case Some(date) => date
      case None => assert false; original
  }

  /**
   * `FirstCommit::next_aniversary`: the anniversary of the commit date that
   * is not before today, this year's when it has not passed yet, next year's
   * otherwise.
   */
  function NextAnniversary(commit: FirstCommit, today: ValidDate): (r: ValidDate)
    ensures !Before(r, today)
    ensures r.year == today.year || r.year == today.year + 1
    ensures r == ChangeYear(commit.date.date, r.year)
    ensures commit.date.date == today ==> r == today
    ensures r.year == today.year + 1 <==> Before(ChangeYear(commit.date.date, today.year), today)
  {
    var date := commit.date.date;
    if today == date then today
    else
      var result := ChangeYear(date, today.year);
      if Before(result, today) then ChangeYear(date, today.year + 1) else result
  }

  /** No anniversary in an earlier year is still ahead: the result is the earliest one not before today. */
  lemma NextAnniversaryIsEarliest(commit: FirstCommit, today: ValidDate, year: int)
    requires !Before(ChangeYear(commit.date.date, year), today)
    ensures NextAnniversary(commit, today).year <= year
  {
  }

  /** The anniversary falls on today exactly when this year's occurrence is today. */
  lemma NextAnniversaryIsToday(commit: FirstCommit, today: ValidDate)
    ensures NextAnniversary(commit, today) == today <==> ChangeYear(commit.date.date, today.year) == today
  {
  }

  // ---------------------------------------------------------------------------
  // Day numbers: the subtraction of two `NaiveDate`s counts days between them.

  function YearLength(y: int): int {
    if IsLeapYear(y) then 366 else 365
  }

  /** Days from 0001-01-01 to January 1 of `y` (negative before year 1). */
  function DaysBeforeYear(y: int): int {
    365 * (y - 1) + (y - 1) / 4 - (y - 1) / 100 + (y - 1) / 400
  }

  /** Days of `y` before the first of month `m`. */
  function DaysBeforeMonth(y: int, m: int): int
    requires 1 <= m <= 12
  {
    var common :=
      if m == 1 then 0 else if m == 2 then 31 else if m == 3 then 59
      else if m == 4 then 90 else if m == 5 then 120 else if m == 6 then 151
      else if m == 7 then 181 else if m == 8 then 212 else if m == 9 then 243
      else if m == 10 then 273 else if m == 11 then 304 else 334;
    common + (if m > 2 && IsLeapYear(y) then 1 else 0)
  }

  /** Position of `d` within its year, 0 for January 1. */
  function DayOfYear(d: ValidDate): int {
    DaysBeforeMonth(d.year, d.month) + d.day - 1
  }

  /** Days from 0001-01-01 to `d`, so that `DayNumber(a) - DayNumber(b)` is `(a - b).num_days()`. */
  function DayNumber(d: ValidDate): int {
    DaysBeforeYear(d.year) + DayOfYear(d)
  }

  /** Stepping back one year crosses a multiple of `d` exactly when `y` is one. */
  lemma DivStep(y: int, d: int)
    requires d == 4 || d == 100 || d == 400
    ensures y / d - (y - 1) / d == if y % d == 0 then 1 else 0
  {
    var q, r := y / d, y % d;
    assert y == d * q + r && 0 <= r < d;
    if r == 0 {
      assert y - 1 == d * (q - 1) + (d - 1);
    } else {
      assert y - 1 == d * q + (r - 1);
    }
  }

  /** The leap rule nests: a multiple of 400 is one of 100, which is one of 4. */
  lemma MultiplesNest(y: int)
    ensures y % 400 == 0 ==> y % 100 == 0
    ensures y % 100 == 0 ==> y % 4 == 0
  {
    var c, r := y / 100, y % 100;
    assert y == 100 * c + r;
    if y % 400 == 0 {
      var k := y / 400;
      assert y == 100 * (4 * k);
    }
    if r == 0 {
      assert y == 4 * (25 * c);
    }
  }

  lemma YearLengthStep(y: int)
    ensures DaysBeforeYear(y + 1) == DaysBeforeYear(y) + YearLength(y)
  {
    DivStep(y, 4);
    DivStep(y, 100);
    DivStep(y, 400);
    MultiplesNest(y);
  }

  lemma DayOfYearBounds(d: ValidDate)
    ensures 0 <= DayOfYear(d) < YearLength(d.year)
  {
  }

  /** Months are laid out one after another within a year. */
  lemma MonthOrder(y: int, m1: int, m2: int)
    requires 1 <= m1 < m2 <= 12
    ensures DaysBeforeMonth(y, m1) + DaysInMonth(y, m1) <= DaysBeforeMonth(y, m2)
  {
  }

  /** Years are laid out one after another. */
  lemma {:induction false} YearOrder(y1: int, y2: int)
    requires y1 < y2
    ensures DaysBeforeYear(y1) + YearLength(y1) <= DaysBeforeYear(y2)
    decreases y2 - y1
  {
    YearLengthStep(y1);
    if y1 + 1 < y2 {
      YearOrder(y1 + 1, y2);
    }
  }

  /** Day numbers put dates in chronological order: `NaiveDate`'s subtraction agrees with its comparison. */
  lemma DayNumberOrder(a: ValidDate, b: ValidDate)
    ensures Before(a, b) <==> DayNumber(a) < DayNumber(b)
    ensures a == b <==> DayNumber(a) == DayNumber(b)
  {
    DayOfYearBounds(a);
    DayOfYearBounds(b);
    if a.year < b.year {
      YearOrder(a.year, b.year);
    } else if b.year < a.year {
      YearOrder(b.year, a.year);
    } else if a.month < b.month {
      MonthOrder(a.year, a.month, b.month);
    } else if b.month < a.month {
      MonthOrder(a.year, b.month, a.month);
    }
  }

  /** Two consecutive anniversaries of a date are one year, 365 or 366 days, apart. */
  lemma ConsecutiveAnniversaries(date: ValidDate, y: int)
    ensures 365 <= DayNumber(ChangeYear(date, y + 1)) - DayNumber(ChangeYear(date, y)) <= 366
  {
    YearLengthStep(y);
    var a := ChangeYear(date, y);
    var b := ChangeYear(date, y + 1);
    assert IsLeapYear(y) ==> !IsLeapYear(y + 1);
  }

  /** 0001-01-01 is day 0 and 1970-01-01 is day 719162, chrono's `num_days_from_ce` minus one. */
  lemma DayNumberEpochs()
    ensures DayNumber(Date(1, 1, 1)) == 0
    ensures DayNumber(Date(1970, 1, 1)) == 719162
  {
  }

  /** The day after `d`. */
  function NextDay(d: ValidDate): ValidDate {
    if d.day < DaysInMonth(d.year, d.month) then Date(d.year, d.month, d.day + 1)
    else if d.month < 12 then Date(d.year, d.month + 1, 1)
    else Date(d.year + 1, 1, 1)
  }

  /** Consecutive dates are one day apart, as `NaiveDate` subtraction counts. */
  lemma NextDayIsPlusOne(d: ValidDate)
    ensures DayNumber(NextDay(d)) == DayNumber(d) + 1
  {
    if d.day == DaysInMonth(d.year, d.month) && d.month == 12 {
      YearLengthStep(d.year);
    }
  }

  /**
   * `FirstCommit::days_to_next_aniversary`: days from today to the next
   * anniversary; never negative, zero exactly on the anniversary, and at
   * most 365.
   */
  function DaysToNextAnniversary(commit: FirstCommit, today: ValidDate): (n: int)
    ensures 0 <= n <= 365
    ensures n == 0 <==> NextAnniversary(commit, today) == today
  {
    var next := NextAnniversary(commit, today);
    DaysToNextAnniversaryBounds(commit, today);
    DayNumber(next) - DayNumber(today)
  }

  lemma DaysToNextAnniversaryBounds(commit: FirstCommit, today: ValidDate)
    ensures 0 <= DayNumber(NextAnniversary(commit, today)) - DayNumber(today) <= 365
    ensures DayNumber(NextAnniversary(commit, today)) == DayNumber(today) <==> NextAnniversary(commit, today) == today
  {
    var next := NextAnniversary(commit, today);
    DayNumberOrder(next, today);
    if next.year == today.year {
      DayOfYearBounds(next);
      DayOfYearBounds(today);
    } else {
      var passed := ChangeYear(commit.date.date, today.year);
      DayNumberOrder(passed, today);
      ConsecutiveAnniversaries(commit.date.date, today.year);
    }
  }

  /**
   * `days_to_next_aniversary` as written reads the clock twice: once inside
   * `next_aniversary` (`first`) and once for the subtraction (`second`).
   * With one reading it is `DaysToNextAnniversary`.
   */
  function DaysToNextAnniversaryAsWritten(commit: FirstCommit, first: ValidDate, second: ValidDate): (n: int)
    ensures first == second ==> n == DaysToNextAnniversary(commit, first)
  {
    DayNumber(NextAnniversary(commit, first)) - DayNumber(second)
  }

  /**
   * On any anniversary, when midnight passes between the two readings, the
   * count is -1.
   */
  lemma MidnightBetweenReadings(commit: FirstCommit, first: ValidDate)
    requires ChangeYear(commit.date.date, first.year) == first
    ensures DaysToNextAnniversaryAsWritten(commit, first, NextDay(first)) == -1
  {
    NextDayIsPlusOne(first);
  }

  /**
   * `FirstCommit::age`: the number of years the repository turns on its next
   * anniversary; today's year minus the commit's year, or one more when this
   * year's anniversary has passed.
   */
  function Age(commit: FirstCommit, today: ValidDate): (a: int)
    ensures a == today.year - commit.date.date.year || a == today.year - commit.date.date.year + 1
    ensures a == today.year - commit.date.date.year + 1 <==> Before(ChangeYear(commit.date.date, today.year), today)
    ensures commit.date.date.year <= today.year ==> a >= 0
  {
    NextAnniversary(commit, today).year - commit.date.date.year
  }

  /** The leap-day cases: a 2020-02-29 commit seen from three different days. */
  lemma LeapDayAnniversaries(commit: FirstCommit)
    requires commit.date.date == Date(2020, 2, 29)
    ensures NextAnniversary(commit, Date(2023, 1, 10)) == Date(2023, 3, 1)
    ensures NextAnniversary(commit, Date(2023, 3, 15)) == Date(2024, 2, 29)
    ensures NextAnniversary(commit, Date(2024, 1, 1)) == Date(2024, 2, 29)
    ensures DaysToNextAnniversary(commit, Date(2023, 3, 15)) == 351
    ensures Age(commit, Date(2023, 3, 15)) == 4
  {
  }
}
