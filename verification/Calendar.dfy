/** Instants, days and the Gregorian calendar that `dates.rs` takes from `chrono`. */
module Calendar {
  import opened Wrappers

  /** Years the date library can represent. */
  const MIN_YEAR: int := -262143
  const MAX_YEAR: int := 262142

  /** Nanoseconds. */
  const SECOND: int := 1_000_000_000
  const DAY: int := 86_400 * SECOND

  /** RFC 3339, Appendix C. */
  predicate IsLeap(year: int) {
    year % 4 == 0 && (year % 100 != 0 || year % 400 == 0)
  }

  function YearLength(year: int): int {
    if IsLeap(year) then 366 else 365
  }

  function MonthLength(year: int, month: int): int {
    if month == 2 then (if IsLeap(year) then 29 else 28)
    else if month in {4, 6, 9, 11} then 30
    else 31
  }

  /** Days from the first day of year 0 to the first day of a year. */
  function YearStart(year: int): int {
    365 * year + (year + 3) / 4 - (year + 99) / 100 + (year + 399) / 400
  }

  lemma FourStep(y: int)
    ensures (y + 4) / 4 - (y + 3) / 4 == if y % 4 == 0 then 1 else 0
  {
  }

  lemma HundredStep(y: int)
    ensures (y + 100) / 100 - (y + 99) / 100 == if y % 100 == 0 then 1 else 0
    ensures y % 100 == 0 ==> y % 4 == 0
  {
  }

  lemma FourHundredStep(y: int)
    ensures (y + 400) / 400 - (y + 399) / 400 == if y % 400 == 0 then 1 else 0
    ensures y % 400 == 0 ==> y % 100 == 0
  {
  }

  lemma YearStep(year: int)
    ensures YearStart(year + 1) == YearStart(year) + YearLength(year)
  {
    FourStep(year);
    HundredStep(year);
    FourHundredStep(year);
    YearStartAfter(year);
  }

  lemma YearStartAfter(year: int)
    ensures YearStart(year + 1) == 365 * year + 365 + (year + 4) / 4 - (year + 100) / 100 + (year + 400) / 400
  {
  }

  /** Days from the first day of year 0 to the first day of a month; month 13 is the next January. */
  function MonthStart(year: int, month: int): int
    requires 1 <= month <= 13
    decreases month
  {
    if month == 1 then YearStart(year) else MonthStart(year, month - 1) + MonthLength(year, month - 1)
  }

  lemma MonthAfterDecember(year: int)
    ensures MonthStart(year, 13) == YearStart(year + 1)
  {
    YearStep(year);
    hide YearStart, IsLeap;
    assert MonthStart(year, 3) == YearStart(year) + 31 + MonthLength(year, 2);
    assert MonthStart(year, 5) == MonthStart(year, 3) + 61;
    assert MonthStart(year, 7) == MonthStart(year, 5) + 61;
    assert MonthStart(year, 9) == MonthStart(year, 7) + 62;
    assert MonthStart(year, 11) == MonthStart(year, 9) + 61;
    assert MonthStart(year, 13) == MonthStart(year, 11) + 61;
  }

  datatype Date = Date(year: int, month: int, day: int)

  predicate IsDate(d: Date) {
    1 <= d.month <= 12 && 1 <= d.day <= MonthLength(d.year, d.month)
  }

  predicate Representable(year: int) {
    MIN_YEAR <= year <= MAX_YEAR
  }

  function DayNumber(d: Date): int
    requires IsDate(d)
  {
    MonthStart(d.year, d.month) + d.day - 1
  }

  /** `NaiveDate::from_ymd_opt`. */
  function FromYmd(year: int, month: int, day: int): Option<Date> {
    if Representable(year) && IsDate(Date(year, month, day)) then Some(Date(year, month, day)) else None
  }

  /** `NaiveDate::pred_opt`. */
  function Pred(d: Date): Option<Date>
    requires IsDate(d)
  {
    if d.day > 1 then Some(d.(day := d.day - 1))
    else if d.month > 1 then Some(Date(d.year, d.month - 1, MonthLength(d.year, d.month - 1)))
    else if d.year > MIN_YEAR then Some(Date(d.year - 1, 12, 31))
    else None
  }

  /** The day before is the day before. */
  lemma PredIsDayBefore(d: Date)
    requires IsDate(d) && Pred(d).Some?
    ensures IsDate(Pred(d).value) && DayNumber(Pred(d).value) == DayNumber(d) - 1
  {
    if d.day == 1 && d.month == 1 {
      MonthAfterDecember(d.year - 1);
    }
  }

  // ----- the calendar date of a day -----

  /** The year that contains a day, searched upwards from an earlier one. */
  function YearUp(day: int, year: int): (r: int)
    requires YearStart(year) <= day
    ensures YearStart(r) <= day < YearStart(r + 1)
    decreases day - YearStart(year)
  {
    YearStep(year);
    if day < YearStart(year + 1) then year else YearUp(day, year + 1)
  }

  /** Some year that starts no later than a day, searched downwards. */
  function YearDown(day: int, year: int): (r: int)
    ensures YearStart(r) <= day
    decreases YearStart(year) - day
  {
    YearStep(year - 1);
    if YearStart(year) <= day then year else YearDown(day, year - 1)
  }

  function YearOf(day: int): (r: int)
    ensures YearStart(r) <= day < YearStart(r + 1)
  {
    YearUp(day, YearDown(day, 0))
  }

  function MonthUp(day: int, year: int, month: int): (r: int)
    requires 1 <= month <= 12 && MonthStart(year, month) <= day < YearStart(year + 1)
    ensures 1 <= r <= 12 && MonthStart(year, r) <= day < MonthStart(year, r + 1)
    decreases 12 - month
  {
    MonthAfterDecember(year);
    if day < MonthStart(year, month + 1) then month else MonthUp(day, year, month + 1)
  }

  /** The calendar date of a day. */
  function DateOf(day: int): (d: Date)
    ensures IsDate(d) && DayNumber(d) == day
  {
    var year := YearOf(day);
    var month := MonthUp(day, year, 1);
    assert MonthStart(year, month + 1) == MonthStart(year, month) + MonthLength(year, month);
    Date(year, month, day - MonthStart(year, month) + 1)
  }

  lemma {:induction false} YearsAscend(a: int, b: int)
    requires a <= b
    ensures YearStart(a) + 365 * (b - a) <= YearStart(b)
    decreases b - a
  {
    if a < b {
      YearStep(b - 1);
      YearsAscend(a, b - 1);
    }
  }

  lemma {:induction false} MonthsAscend(year: int, a: int, b: int)
    requires 1 <= a <= b <= 13
    ensures MonthStart(year, a) + 28 * (b - a) <= MonthStart(year, b)
    decreases b - a
  {
    if a < b {
      MonthsAscend(year, a, b - 1);
    }
  }

  /** Where a date lies: after the start of its month and year, before the start of the next. */
  lemma DateBounds(d: Date)
    requires IsDate(d)
    ensures MonthStart(d.year, d.month) <= DayNumber(d) < MonthStart(d.year, d.month + 1)
    ensures YearStart(d.year) <= DayNumber(d) < YearStart(d.year + 1)
  {
    MonthAfterDecember(d.year);
    MonthsAscend(d.year, 1, d.month);
    MonthsAscend(d.year, d.month + 1, 13);
  }

  /** Dates and days are in one-to-one correspondence. */
  lemma DateOfDayNumber(d: Date)
    requires IsDate(d)
    ensures DateOf(DayNumber(d)) == d
  {
    hide YearStart, MonthStart, MonthLength;
    var e := DateOf(DayNumber(d));
    DateBounds(d);
    DateBounds(e);
    if e.year < d.year {
      YearsAscend(e.year + 1, d.year);
    } else if d.year < e.year {
      YearsAscend(d.year + 1, e.year);
    }
    assert e.year == d.year;
    if e.month < d.month {
      MonthsAscend(d.year, e.month + 1, d.month);
    } else if d.month < e.month {
      MonthsAscend(d.year, d.month + 1, e.month);
    }
  }

  // ----- instants -----

  /** `Utc.with_ymd_and_hms`, in nanoseconds. */
  function At(year: int, month: int, day: int, hour: int, minute: int, second: int): Option<int> {
    if FromYmd(year, month, day).Some? && 0 <= hour < 24 && 0 <= minute < 60 && 0 <= second < 60 then
      Some(DayNumber(Date(year, month, day)) * DAY + ((hour * 60 + minute) * 60 + second) * SECOND)
    else None
  }

  /** The last nanosecond of an instant's second. */
  function EndOfSecond(instant: int): int {
    instant - instant % SECOND + SECOND - 1
  }

  const MIN_INSTANT: int := YearStart(MIN_YEAR) * DAY
  const MAX_INSTANT: int := YearStart(MAX_YEAR + 1) * DAY - 1

  predicate IsInstant(t: int) {
    MIN_INSTANT <= t <= MAX_INSTANT
  }
}
