/** Calendar periods as inclusive spans of instants (`date_bounds` and its helpers in `dates.rs`). */
module Spans {
  import opened Wrappers
  import opened Calendar

  /** From the first to the last nanosecond, both included. */
  datatype Span = Span(start: int, end: int)

  predicate In(t: int, span: Span) {
    span.start <= t <= span.end
  }

  /** The whole days from one to another. */
  function DaysSpan(first: int, last: int): Span {
    Span(first * DAY, (last + 1) * DAY - 1)
  }

  // ----- the functions of `dates.rs` -----

  /** A span from two instants that may each have failed. */
  function Between(start: Option<int>, end: Option<int>): Option<Span> {
    if start.Some? && end.Some? then Some(Span(start.value, EndOfSecond(end.value))) else None
  }

  function DaysInMonth(year: int, month: int): Option<int> {
    var (nextYear, nextMonth) := if month == 12 then (year + 1, 1) else (year, month + 1);
    match FromYmd(nextYear, nextMonth, 1)
    case None => None
    case Some(first) => if Pred(first).Some? then Some(Pred(first).value.day) else None
  }

  function DaySpan(year: int, month: int, day: int): Option<Span> {
    Between(At(year, month, day, 0, 0, 0), At(year, month, day, 23, 59, 59))
  }

  function MonthSpan(year: int, month: int): Option<Span> {
    match DaysInMonth(year, month)
    case None => None
    case Some(last) => Between(At(year, month, 1, 0, 0, 0), At(year, month, last, 23, 59, 59))
  }

  function StartOfYear(year: int): Option<int> {
    At(year, 1, 1, 0, 0, 0)
  }

  function EndOfYear(year: int): Option<int> {
    var last := At(year, 12, 31, 23, 59, 59);
    if last.Some? then Some(EndOfSecond(last.value)) else None
  }

  function YearsSpan(first: int, last: int): Option<Span> {
    var start, end := StartOfYear(first), EndOfYear(last);
    if start.Some? && end.Some? then Some(Span(start.value, end.value)) else None
  }

  datatype Season = Spring | Summer | Autumn | Winter

  function Joined(a: Option<Span>, b: Option<Span>): Option<Span> {
    if a.Some? && b.Some? then Some(Span(a.value.start, b.value.end)) else None
  }

  function SeasonSpan(year: int, season: Season): Option<Span> {
    match season
    case Spring => Joined(MonthSpan(year, 3), MonthSpan(year, 5))
    case Summer => Joined(MonthSpan(year, 6), MonthSpan(year, 8))
    case Autumn => Joined(MonthSpan(year, 9), MonthSpan(year, 11))
    case Winter => Joined(MonthSpan(year, 12), MonthSpan(year + 1, 2))
  }

  datatype Precision =
    | Century(year: int)
    | Decade(year: int)
    | Year(year: int)
    | MonthOfYear(year: int)
    | DayOfYear(year: int)
    | Month(year: int, month: int)
    | DayOfMonth(year: int, month: int)
    | Day(year: int, month: int, day: int)
    | InSeason(year: int, season: Season)

  function DateBoundsOf(p: Precision): Option<Span> {
    match p
    case Century(y) => YearsSpan(y, y + 99)
    case Decade(y) => YearsSpan(y, y + 9)
    case Year(y) => YearsSpan(y, y)
    case MonthOfYear(y) => YearsSpan(y, y)
    case DayOfYear(y) => YearsSpan(y, y)
    case Month(y, m) => MonthSpan(y, m)
    case DayOfMonth(y, m) => MonthSpan(y, m)
    case Day(y, m, d) => DaySpan(y, m, d)
    case InSeason(y, season) => SeasonSpan(y, season)
  }

  /** The first number from `from` to `max` that ends in a digit. */
  function FirstEndingIn(digit: int, from: int, max: int): (r: Option<int>)
    ensures r.Some? ==> from <= r.value <= max && r.value % 10 == digit && forall d | from <= d < r.value ::
              d % 10 != digit
    ensures r.None? ==> forall d | from <= d <= max :: d % 10 != digit
    decreases max - from
  {
    if from > max then None else if from % 10 == digit then Some(from) else FirstEndingIn(digit, from + 1, max)
  }

  /** The last number from `max` down to 1 that ends in a digit. */
  function LastEndingIn(digit: int, max: int): (r: Option<int>)
    ensures r.Some? ==> 1 <= r.value <= max && r.value % 10 == digit && forall d | r.value < d <= max :: d % 10 != digit
    ensures r.None? ==> forall d | 1 <= d <= max :: d % 10 != digit
    decreases max
  {
    if max < 1 then None else if max % 10 == digit then Some(max) else LastEndingIn(digit, max - 1)
  }

  function GetOr(o: Option<int>, default: int): int {
    if o.Some? then o.value else default
  }

  /** A digit of a day, or unspecified. */
  type Digit = Option<int>

  /** The first and last day a pattern of digits stands for, in a month of so many days. */
  function DigitDays(maxDay: int, tens: Digit, units: Digit): (int, int) {
    if tens.None? && units.None? then (1, maxDay)
    else if units.None? then
      (if tens.value * 10 < 1 then 1 else tens.value * 10,
        if maxDay < tens.value * 10 + 9 then maxDay else tens.value * 10 + 9)
    else
      var lo := GetOr(FirstEndingIn(units.value, 1, maxDay), 1);
      (lo, GetOr(LastEndingIn(units.value, maxDay), lo))
  }

  function DayXSpan(year: int, month: int, tens: Digit, units: Digit): Option<Span> {
    match DaysInMonth(year, month)
    case None => None
    case Some(maxDay) =>
      var (lo, hi) := DigitDays(maxDay, tens, units);
      Between(At(year, month, lo, 0, 0, 0), At(year, month, hi, 23, 59, 59))
  }

  function DaySpanOf(instant: int): Option<Span> {
    var d := DateOf(instant / DAY);
    DaySpan(d.year, d.month, d.day)
  }

  // ----- days -----

  /** Two dates of representable years give exactly the whole days between them, and nothing else gives a span. */
  lemma BetweenDays(year: int, month: int, lo: int, hi: int)
    ensures var span := Between(At(year, month, lo, 0, 0, 0), At(year, month, hi, 23, 59, 59));
            var valid := Representable(year) && IsDate(Date(year, month, lo)) && IsDate(Date(year, month, hi));
            && (span.Some? <==> valid)
            && (valid ==> span.value == DaysSpan(DayNumber(Date(year, month, lo)), DayNumber(Date(year, month, hi))))
  {
    hide DayNumber;
    if Representable(year) && IsDate(Date(year, month, hi)) {
      EndOfDay(DayNumber(Date(year, month, hi)));
    }
  }

  lemma EndOfDay(day: int)
    ensures EndOfSecond(day * DAY + ((23 * 60 + 59) * 60 + 59) * SECOND) == (day + 1) * DAY - 1
  {
    var seconds := day * 86_400 + (23 * 60 + 59) * 60 + 59;
    assert day * DAY + ((23 * 60 + 59) * 60 + 59) * SECOND == seconds * SECOND;
    assert seconds * SECOND % SECOND == 0;
  }

  /** A day's span is that whole day; it exists exactly for the dates of representable years. */
  lemma DaySpanExact(year: int, month: int, day: int)
    ensures DaySpan(year, month, day).Some? <==> Representable(year) && IsDate(Date(year, month, day))
    ensures DaySpan(year, month, day).Some? ==>
              DaySpan(year, month, day).value ==
                DaysSpan(DayNumber(Date(year, month, day)), DayNumber(Date(year, month, day)))
  {
    BetweenDays(year, month, day, day);
  }

  /** The span of a relative date is the UTC day that contains the instant, for every representable instant. */
  lemma DaySpanOfExact(t: int)
    requires IsInstant(t)
    ensures DaySpanOf(t) == Some(DaysSpan(t / DAY, t / DAY)) && In(t, DaySpanOf(t).value)
  {
    hide YearStart, MonthStart, DateOf;
    var day := t / DAY;
    var d := DateOf(day);
    DaySpanExact(d.year, d.month, d.day);
    DateBounds(d);
    assert YearStart(MIN_YEAR) <= day < YearStart(MAX_YEAR + 1);
    if d.year < MIN_YEAR {
      YearsAscend(d.year + 1, MIN_YEAR);
    } else if d.year > MAX_YEAR {
      YearsAscend(MAX_YEAR + 1, d.year);
    }
  }

  // ----- months -----

  /** The months a month span exists for: all but the last month of the last year. */
  predicate HasMonthSpan(year: int, month: int) {
    Representable(year) && 1 <= month <= 12 && !(year == MAX_YEAR && month == 12)
  }

  /** The number of days comes out right for every month that has a span. */
  lemma DaysInMonthExact(year: int, month: int)
    requires 1 <= month
    ensures HasMonthSpan(year, month) ==> DaysInMonth(year, month) == Some(MonthLength(year, month))
    ensures !HasMonthSpan(year, month) ==> DaysInMonth(year, month).None?
  {
  }

  function WholeMonth(year: int, month: int): Span
    requires 1 <= month <= 12
  {
    DaysSpan(MonthStart(year, month), MonthStart(year, month + 1) - 1)
  }

  /** Month 0 is refused, although its length is computed as that of the December before. */
  lemma MonthSpanExact(year: int, month: int)
    requires 0 <= month
    ensures MonthSpan(year, month).Some? <==> HasMonthSpan(year, month)
    ensures MonthSpan(year, month).Some? ==> MonthSpan(year, month).value == WholeMonth(year, month)
  {
    hide YearStart;
    if month > 0 {
      DaysInMonthExact(year, month);
      if HasMonthSpan(year, month) {
        BetweenDays(year, month, 1, MonthLength(year, month));
      }
    } else {
      assert !IsDate(Date(year, month, 1));
    }
  }

  /** The length of month 0 is computed as that of the December before; the month has no span all the same. */
  lemma MonthZeroRefused(year: int)
    requires Representable(year) && Representable(year - 1)
    ensures DaysInMonth(year, 0) == Some(31)
    ensures MonthSpan(year, 0).None? && forall tens, units :: DayXSpan(year, 0, tens, units).None?
  {
    forall day
      ensures At(year, 0, day, 0, 0, 0).None?
    {
    }
  }

  // ----- years -----

  function WholeYears(first: int, last: int): Span {
    DaysSpan(YearStart(first), YearStart(last + 1) - 1)
  }

  lemma YearsSpanExact(first: int, last: int)
    ensures YearsSpan(first, last).Some? <==> Representable(first) && Representable(last)
    ensures YearsSpan(first, last).Some? ==> YearsSpan(first, last).value == WholeYears(first, last)
  {
    BetweenDays(first, 1, 1, 1);
    LastDay(last);
    EndOfDay(YearStart(last + 1) - 1);
  }

  lemma LastDay(year: int)
    ensures DayNumber(Date(year, 12, 31)) == YearStart(year + 1) - 1
  {
    hide YearStart;
    MonthAfterDecember(year);
  }
}
