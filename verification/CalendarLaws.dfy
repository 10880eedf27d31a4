/** What calendar spans contain: exactly the instants whose date the expression describes. */
module CalendarLaws {
  import opened Wrappers
  import opened Calendar
  import opened Spans

  /** A date that an expression of some precision describes. */
  predicate Describes(p: Precision, d: Date) {
    match p
    case Century(y) => y <= d.year <= y + 99
    case Decade(y) => y <= d.year <= y + 9
    case Year(y) => d.year == y
    case MonthOfYear(y) => d.year == y
    case DayOfYear(y) => d.year == y
    case Month(y, m) => d.year == y && d.month == m
    case DayOfMonth(y, m) => d.year == y && d.month == m
    case Day(y, m, day) => d == Date(y, m, day)
    case InSeason(y, Spring) => d.year == y && 3 <= d.month <= 5
    case InSeason(y, Summer) => d.year == y && 6 <= d.month <= 8
    case InSeason(y, Autumn) => d.year == y && 9 <= d.month <= 11
    case InSeason(y, Winter) => (d.year == y && d.month == 12) || (d.year == y + 1 && d.month <= 2)
  }

  /** The expressions that have a span. */
  predicate HasSpan(p: Precision) {
    match p
    case Century(y) => Representable(y) && Representable(y + 99)
    case Decade(y) => Representable(y) && Representable(y + 9)
    case Month(y, m) => HasMonthSpan(y, m)
    case DayOfMonth(y, m) => HasMonthSpan(y, m)
    case Day(y, m, day) => Representable(y) && IsDate(Date(y, m, day))
    case InSeason(y, Winter) => Representable(y) && Representable(y + 1)
    case _ => Representable(p.year)
  }

  lemma InDays(t: int, first: int, last: int)
    ensures In(t, DaysSpan(first, last)) <==> first <= t / DAY <= last
  {
  }

  lemma InYears(d: Date, first: int, last: int)
    requires IsDate(d)
    ensures YearStart(first) <= DayNumber(d) < YearStart(last + 1) <==> first <= d.year <= last
  {
    hide YearStart, DayNumber;
    DateBounds(d);
    if d.year < first {
      YearsAscend(d.year + 1, first);
    } else if d.year <= last {
      YearsAscend(first, d.year);
      YearsAscend(d.year + 1, last + 1);
    } else {
      YearsAscend(last + 1, d.year);
    }
  }

  /** A run of months of one year contains exactly the days with those months. */
  lemma InMonths(d: Date, year: int, first: int, last: int)
    requires IsDate(d) && 1 <= first <= last <= 12
    ensures MonthStart(year, first) <= DayNumber(d) < MonthStart(year, last + 1) <==>
              d.year == year && first <= d.month <= last
  {
    hide YearStart, DayNumber, MonthLength, MonthStart;
    DateBounds(d);
    MonthsAscend(year, 1, first);
    MonthsAscend(year, last + 1, 13);
    StartOfJanuary(year);
    MonthAfterDecember(year);
    InYears(d, year, year);
    if d.year == year {
      if d.month < first {
        MonthsAscend(year, d.month + 1, first);
      } else if d.month <= last {
        MonthsAscend(year, first, d.month);
        MonthsAscend(year, d.month + 1, last + 1);
      } else {
        MonthsAscend(year, last + 1, d.month);
      }
    }
  }

  lemma StartOfJanuary(year: int)
    ensures MonthStart(year, 1) == YearStart(year)
  {
  }

  lemma InDay(d: Date, e: Date)
    requires IsDate(d) && IsDate(e)
    ensures DayNumber(d) == DayNumber(e) <==> d == e
  {
    DateOfDayNumber(d);
    DateOfDayNumber(e);
  }

  /** The whole days a span covers: from a first day to before another. */
  ghost predicate Covers(span: Option<Span>, first: int, after: int) {
    span == Some(DaysSpan(first, after - 1))
  }

  lemma SeasonCovers(year: int, season: Season)
    ensures SeasonSpan(year, season).Some? <==> HasSpan(InSeason(year, season))
    ensures SeasonSpan(year, season).Some? ==>
              match season
              case Spring => Covers(SeasonSpan(year, season), MonthStart(year, 3), MonthStart(year, 6))
              case Summer => Covers(SeasonSpan(year, season), MonthStart(year, 6), MonthStart(year, 9))
              case Autumn => Covers(SeasonSpan(year, season), MonthStart(year, 9), MonthStart(year, 12))
              case Winter => Covers(SeasonSpan(year, season), MonthStart(year, 12), MonthStart(year + 1, 3))
  {
    hide YearStart, MonthStart, MonthSpan;
    forall month | 1 <= month <= 12
      ensures MonthSpan(year, month).Some? <==> HasMonthSpan(year, month)
      ensures MonthSpan(year, month).Some? ==> MonthSpan(year, month).value == WholeMonth(year, month)
    {
      MonthSpanExact(year, month);
    }
    MonthSpanExact(year + 1, 2);
  }

  lemma WinterDays(d: Date, year: int)
    requires IsDate(d)
    ensures MonthStart(year, 12) <= DayNumber(d) < MonthStart(year + 1, 3) <==>
            (d.year == year && d.month == 12) || (d.year == year + 1 && d.month <= 2)
  {
    hide YearStart, DayNumber, MonthLength, MonthStart;
    InMonths(d, year, 12, 12);
    InMonths(d, year + 1, 1, 2);
    MonthAfterDecember(year);
    StartOfJanuary(year + 1);
    MonthsAscend(year + 1, 1, 3);
    MonthsAscend(year, 12, 13);
  }

  lemma SeasonDescribed(year: int, season: Season, t: int)
    requires SeasonSpan(year, season).Some?
    ensures In(t, SeasonSpan(year, season).value) <==> Describes(InSeason(year, season), DateOf(t / DAY))
  {
    hide YearStart, DayNumber, MonthLength, MonthStart, SeasonSpan, In, DaysSpan;
    var d := DateOf(t / DAY);
    SeasonCovers(year, season);
    match season {
      case Spring => InDays(t, MonthStart(year, 3), MonthStart(year, 6) - 1); InMonths(d, year, 3, 5);
      case Summer => InDays(t, MonthStart(year, 6), MonthStart(year, 9) - 1); InMonths(d, year, 6, 8);
      case Autumn => InDays(t, MonthStart(year, 9), MonthStart(year, 12) - 1); InMonths(d, year, 9, 11);
      case Winter => InDays(t, MonthStart(year, 12), MonthStart(year + 1, 3) - 1); WinterDays(d, year);
    }
  }

  lemma YearsDescribed(first: int, last: int, t: int)
    requires YearsSpan(first, last).Some?
    ensures In(t, YearsSpan(first, last).value) <==> first <= DateOf(t / DAY).year <= last
  {
    hide YearStart, DayNumber, YearsSpan, In, DaysSpan;
    YearsSpanExact(first, last);
    InDays(t, YearStart(first), YearStart(last + 1) - 1);
    InYears(DateOf(t / DAY), first, last);
  }

  lemma MonthDescribed(year: int, month: int, t: int)
    requires 0 <= month && MonthSpan(year, month).Some?
    ensures In(t, MonthSpan(year, month).value) <==> DateOf(t / DAY).year == year && DateOf(t / DAY).month == month
  {
    hide YearStart, DayNumber, MonthLength, MonthStart, MonthSpan, In, DaysSpan;
    MonthSpanExact(year, month);
    InDays(t, MonthStart(year, month), MonthStart(year, month + 1) - 1);
    InMonths(DateOf(t / DAY), year, month, month);
  }

  lemma DayDescribed(year: int, month: int, day: int, t: int)
    requires DaySpan(year, month, day).Some?
    ensures In(t, DaySpan(year, month, day).value) <==> DateOf(t / DAY) == Date(year, month, day)
  {
    hide YearStart, DayNumber, DaySpan, In, DaysSpan, IsDate;
    DaySpanExact(year, month, day);
    var e := Date(year, month, day);
    InDays(t, DayNumber(e), DayNumber(e));
    InDay(DateOf(t / DAY), e);
  }

  /**
   * A period has a span exactly when its days are all representable, and the span then contains exactly the instants
   * whose date the expression describes.  Centuries, decades, years and seasons are hence the exact unions of their
   * months, and these of their days.
   */
  lemma SpansExact(p: Precision)
    requires p.Month? || p.DayOfMonth? ==> p.month >= 0
    ensures DateBoundsOf(p).Some? <==> HasSpan(p)
    ensures DateBoundsOf(p).Some? ==> forall t :: In(t, DateBoundsOf(p).value) <==> Describes(p, DateOf(t / DAY))
  {
    hide In, DateOf, YearsSpan, MonthSpan, DaySpan, SeasonSpan;
    match p {
      case Century(y) => YearsSpanExact(y, y + 99);
      case Decade(y) => YearsSpanExact(y, y + 9);
      case Year(y) => YearsSpanExact(y, y);
      case MonthOfYear(y) => YearsSpanExact(y, y);
      case DayOfYear(y) => YearsSpanExact(y, y);
      case Month(y, m) => MonthSpanExact(y, m);
      case DayOfMonth(y, m) => MonthSpanExact(y, m);
      case Day(y, m, d) => DaySpanExact(y, m, d);
      case InSeason(y, season) => SeasonCovers(y, season);
    }
    if DateBoundsOf(p).Some? {
      forall t
        ensures In(t, DateBoundsOf(p).value) <==> Describes(p, DateOf(t / DAY))
      {
        match p {
          case Century(y) => YearsDescribed(y, y + 99, t);
          case Decade(y) => YearsDescribed(y, y + 9, t);
          case Year(y) => YearsDescribed(y, y, t);
          case MonthOfYear(y) => YearsDescribed(y, y, t);
          case DayOfYear(y) => YearsDescribed(y, y, t);
          case Month(y, m) => MonthDescribed(y, m, t);
          case DayOfMonth(y, m) => MonthDescribed(y, m, t);
          case Day(y, m, d) => DayDescribed(y, m, d, t);
          case InSeason(y, season) => SeasonDescribed(y, season, t);
        }
      }
    }
  }

  /** No period's span is reversed. */
  lemma SpanForward(p: Precision)
    requires p.Month? || p.DayOfMonth? ==> p.month >= 0
    ensures DateBoundsOf(p).Some? ==> DateBoundsOf(p).value.start < DateBoundsOf(p).value.end
  {
    hide YearStart, MonthStart, MonthLength, YearsSpan, MonthSpan, DaySpan, SeasonSpan;
    match p {
      case Century(y) => YearsForward(y, y + 99);
      case Decade(y) => YearsForward(y, y + 9);
      case Year(y) => YearsForward(y, y);
      case MonthOfYear(y) => YearsForward(y, y);
      case DayOfYear(y) => YearsForward(y, y);
      case Month(y, m) => MonthForward(y, m);
      case DayOfMonth(y, m) => MonthForward(y, m);
      case Day(y, m, d) => DaySpanExact(y, m, d);
      case InSeason(y, season) =>
        SeasonCovers(y, season);
        MonthsAscend(y, 3, 6);
        MonthsAscend(y, 6, 9);
        MonthsAscend(y, 9, 12);
        MonthsAscend(y, 12, 13);
        MonthAfterDecember(y);
        StartOfJanuary(y + 1);
        MonthsAscend(y + 1, 1, 3);
    }
  }

  lemma YearsForward(first: int, last: int)
    requires first <= last
    ensures YearsSpan(first, last).Some? ==> YearsSpan(first, last).value.start < YearsSpan(first, last).value.end
  {
    hide YearStart, YearsSpan;
    YearsSpanExact(first, last);
    YearsAscend(first, last + 1);
  }

  lemma MonthForward(year: int, month: int)
    requires 0 <= month
    ensures MonthSpan(year, month).Some? ==> MonthSpan(year, month).value.start < MonthSpan(year, month).value.end
  {
    hide MonthStart, MonthSpan;
    MonthSpanExact(year, month);
    if MonthSpan(year, month).Some? {
      MonthsAscend(year, month, month + 1);
    }
  }

  /** One span ends a nanosecond before the other begins. */
  predicate Abut(before: Option<Span>, after: Option<Span>) {
    before.Some? && after.Some? ==> before.value.end + 1 == after.value.start
  }

  /** Consecutive days abut. */
  lemma DaysAbut(d: Date)
    requires IsDate(d) && Pred(d).Some?
    ensures var before := Pred(d).value;
            Abut(DaySpan(before.year, before.month, before.day), DaySpan(d.year, d.month, d.day))
  {
    hide DayNumber, DaySpan, YearStart;
    var before := Pred(d).value;
    PredIsDayBefore(d);
    DaySpanExact(before.year, before.month, before.day);
    DaySpanExact(d.year, d.month, d.day);
  }

  /** Consecutive months abut, across the end of a year too. */
  lemma MonthsAbut(year: int, month: int)
    requires 1 <= month <= 12
    ensures Abut(MonthSpan(year, month), if month == 12 then MonthSpan(year + 1, 1) else MonthSpan(year, month + 1))
  {
    hide MonthSpan, YearStart;
    MonthSpanExact(year, month);
    if month == 12 {
      MonthAfterDecember(year);
      MonthSpanExact(year + 1, 1);
    } else {
      MonthSpanExact(year, month + 1);
    }
  }

  /** Consecutive years abut, and so do decades and centuries. */
  lemma YearsAbut(first: int, last: int, end: int)
    ensures Abut(YearsSpan(first, last), YearsSpan(last + 1, end))
  {
    hide YearsSpan, YearStart;
    YearsSpanExact(first, last);
    YearsSpanExact(last + 1, end);
  }

  // ----- unspecified digits of a day -----

  /** A day of a month that a pattern matches. */
  predicate MatchesDigits(day: int, tens: Digit, units: Digit) {
    (tens.Some? ==> day / 10 == tens.value) && (units.Some? ==> day % 10 == units.value)
  }

  predicate IsDigit(d: Digit) {
    d.Some? ==> 0 <= d.value <= 9
  }

  ghost predicate SomeDayMatches(length: int, tens: Digit, units: Digit) {
    exists day | 1 <= day <= length :: MatchesDigits(day, tens, units)
  }

  /** The first and the last matching day of a month. */
  ghost predicate Tightest(length: int, tens: Digit, units: Digit, lo: int, hi: int) {
    && 1 <= lo <= hi <= length
    && MatchesDigits(lo, tens, units) && MatchesDigits(hi, tens, units)
    && forall day | 1 <= day <= length && MatchesDigits(day, tens, units) :: lo <= day <= hi
  }

  /** Some day of every month ends in a digit. */
  lemma SomeDayEndsIn(length: int, digit: int)
    requires 28 <= length && 0 <= digit <= 9
    ensures exists day | 1 <= day <= length :: day % 10 == digit
  {
    assert (if digit == 0 then 10 else digit) % 10 == digit;
  }

  lemma UnitsTightest(length: int, units: Digit)
    requires 28 <= length <= 31 && IsDigit(units) && units.Some?
    ensures var (lo, hi) := DigitDays(length, None, units); Tightest(length, None, units, lo, hi)
  {
    SomeDayEndsIn(length, units.value);
  }

  lemma TensTightest(length: int, tens: Digit)
    requires 28 <= length <= 31 && IsDigit(tens) && tens.Some?
    ensures var (lo, hi) := DigitDays(length, tens, None);
            if SomeDayMatches(length, tens, None) then Tightest(length, tens, None, lo, hi) else lo > length
  {
    var (lo, hi) := DigitDays(length, tens, None);
    forall day | 1 <= day <= length
      ensures MatchesDigits(day, tens, None) <==> lo <= day <= hi
    {
    }
    if lo <= length {
      assert MatchesDigits(lo, tens, None);
    }
  }

  lemma DigitDaysTightest(length: int, tens: Digit, units: Digit)
    requires 28 <= length <= 31 && IsDigit(tens) && IsDigit(units) && (tens.None? || units.None?)
    ensures var (lo, hi) := DigitDays(length, tens, units);
            if SomeDayMatches(length, tens, units) then Tightest(length, tens, units, lo, hi) else lo > length
  {
    if units.Some? {
      UnitsTightest(length, units);
    } else if tens.Some? {
      TensTightest(length, tens);
    } else {
      assert MatchesDigits(1, tens, units);
    }
  }

  /**
   * A day with an unspecified digit has a span exactly when some day of the month matches; the span then runs from the
   * first matching day to the last, so it is the tightest one around all matching days.
   */
  lemma DayXExact(year: int, month: int, tens: Digit, units: Digit)
    requires 0 <= month && IsDigit(tens) && IsDigit(units) && (tens.None? || units.None?)
    ensures DayXSpan(year, month, tens, units).Some? <==>
              HasMonthSpan(year, month) && SomeDayMatches(MonthLength(year, month), tens, units)
    ensures DayXSpan(year, month, tens, units).Some? ==>
              exists lo, hi | Tightest(MonthLength(year, month), tens, units, lo, hi) ::
                DayXSpan(year, month, tens, units).value ==
                  DaysSpan(DayNumber(Date(year, month, lo)), DayNumber(Date(year, month, hi)))
  {
    hide DayNumber, SomeDayMatches, DigitDays, YearStart;
    if month > 0 {
      DaysInMonthExact(year, month);
      if HasMonthSpan(year, month) {
        var length := MonthLength(year, month);
        var (lo, hi) := DigitDays(length, tens, units);
        DigitDaysTightest(length, tens, units);
        BetweenDays(year, month, lo, hi);
      }
    }
  }
}
