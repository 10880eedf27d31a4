/** Date tokens and the `--since`, `--until` and `--when` flags (`parse_span` and `DateRange::resolve`). */
module DateRanges {
  import opened Wrappers
  import opened Text
  import opened Decimals
  import opened Calendar
  import opened Spans
  import opened CalendarLaws

  datatype Edtf =
    | OneDate(date: Precision)
    | Interval(from: Precision, to: Precision)
    | DateTime(instant: int)
    | Unsupported

  datatype PartialTime = PartialTime(year: int, month: int, day: int, hour: int, minute: Option<int>)

  datatype DayPattern = DayPattern(year: int, month: int, tens: Digit, units: Digit)

  /** The recognisers that come from regular expressions and libraries. */
  datatype Recognisers = Recognisers(
    duration: string -> Option<(string, string)>,
    datelike: string -> bool,
    rfc3339: string -> Option<int>,
    partialTime: string -> Option<PartialTime>,
    dayPattern: string -> Option<DayPattern>,
    edtf: string -> Option<Edtf>,
    natural: (string, int) -> Option<int>)

  predicate MonthIsUnsigned(p: Precision) {
    p.Month? || p.DayOfMonth? ==> p.month >= 0
  }

  predicate EdtfIsUnsigned(e: Edtf) {
    match e
    case OneDate(p) => MonthIsUnsigned(p)
    case Interval(a, b) => MonthIsUnsigned(a) && MonthIsUnsigned(b)
    case _ => true
  }

  /** Months are unsigned and pattern digits are digits; nothing else is needed of the recognisers. */
  ghost predicate IsGrammar(g: Recognisers) {
    && (forall s | g.edtf(s).Some? :: EdtfIsUnsigned(g.edtf(s).value))
    && (forall s | g.dayPattern(s).Some? ::
          var p := g.dayPattern(s).value; p.month >= 0 && CalendarLaws.IsDigit(p.tens) && CalendarLaws.IsDigit(p.units))
  }

  type Grammar = g: Recognisers | IsGrammar(g)
    witness Recognisers(_ => None, _ => false, _ => None, _ => None, _ => None, _ => None, (_, _) => None)

  // ----- durations -----

  const I64_MAX: int := 0x7FFF_FFFF_FFFF_FFFF
  /** The longest time difference the library holds, in seconds. */
  const MAX_DELTA_SECONDS: int := I64_MAX / 1000

  predicate AsciiDigits(s: string) {
    s != [] && AllDigits(s)
  }

  /** `parse::<i64>()` of a run of digits; digits outside ASCII are refused. */
  function ParseI64(s: string): Option<int> {
    if AsciiDigits(s) && FromDecimal(s) <= I64_MAX then Some(FromDecimal(s)) else None
  }

  /** Seconds in one unit of a duration. */
  function UnitSeconds(unit: string): Option<int> {
    if unit == "d" then Some(86_400)
    else if unit == "w" then Some(7 * 86_400)
    else if unit == "h" then Some(3_600)
    else if unit == "min" then Some(60)
    else if unit == "m" then Some(30 * 86_400)
    else if unit == "y" then Some(365 * 86_400)
    else None
  }

  /** A product that must stay within 64 bits. */
  function CheckedMul(a: int, b: int): Option<int> {
    if -I64_MAX - 1 <= a * b <= I64_MAX then Some(a * b) else None
  }

  /** `Duration::try_seconds`, in nanoseconds. */
  function TrySeconds(seconds: Option<int>): Option<int> {
    if seconds.Some? && seconds.value <= MAX_DELTA_SECONDS then Some(seconds.value * SECOND) else None
  }

  /** Months are 30 days and years 365, multiplied out before days become seconds. */
  function Delta(n: int, unit: string): Option<int> {
    if unit == "m" || unit == "y" then
      var days := CheckedMul(n, if unit == "m" then 30 else 365);
      if days.None? then None else TrySeconds(CheckedMul(days.value, 86_400))
    else
      match UnitSeconds(unit)
      case None => None
      case Some(seconds) => TrySeconds(CheckedMul(n, seconds))
  }

  function DurationSpan(digits: string, unit: string, now: int): Option<Span> {
    match ParseI64(digits)
    case None => None
    case Some(n) =>
      match Delta(n, AsciiLower(unit))
      case None => None
      case Some(delta) => if IsInstant(now - delta) then Some(Span(now - delta, now)) else None
  }

  lemma InstantsWithinDelta(now: int, n: int, unit: int)
    requires IsInstant(now) && 0 <= n && unit >= 60 && now - n * unit * SECOND >= MIN_INSTANT
    ensures n <= I64_MAX && n * unit <= MAX_DELTA_SECONDS && (n * unit) * SECOND == n * unit * SECOND
  {
    assert n * unit >= n;
    assert YearStart(MAX_YEAR + 1) - YearStart(MIN_YEAR) <= 200_000_000;
  }

  /**
   * A duration is refused exactly when its digits are not ASCII or it reaches back beyond the earliest instant: none
   * of the checks on 64-bit products or on the longest time difference refuses anything else.
   */
  lemma DurationExact(digits: string, unit: string, now: int)
    requires IsInstant(now) && UnitSeconds(AsciiLower(unit)).Some?
    ensures var seconds := UnitSeconds(AsciiLower(unit)).value;
            var start := now - FromDecimal(digits) * seconds * SECOND;
            DurationSpan(digits, unit, now) == if AsciiDigits(digits) && start >= MIN_INSTANT
              then Some(Span(start, now)) else None
  {
    hide AsciiLower, YearStart, FromDecimal;
    var seconds := UnitSeconds(AsciiLower(unit)).value;
    if AsciiDigits(digits) {
      var n := FromDecimal(digits);
      if now - n * seconds * SECOND >= MIN_INSTANT {
        InstantsWithinDelta(now, n, seconds);
      }
      DeltaProduct(n, AsciiLower(unit));
    }
  }

  /** Whatever the intermediate checks, a time difference that passes them is the product. */
  lemma DeltaProduct(n: int, unit: string)
    requires 0 <= n && UnitSeconds(unit).Some?
    ensures Delta(n, unit) ==
            if n * UnitSeconds(unit).value <= MAX_DELTA_SECONDS then Some(n * UnitSeconds(unit).value * SECOND)
              else None
  {
  }

  // ----- tokens -----

  function AsciiUpper(s: string): string {
    seq(|s|, i requires 0 <= i < |s| => if 'a' <= s[i] <= 'z' then ((s[i] as int) - 32) as char else s[i])
  }

  function PartialSpan(p: PartialTime): Option<Span> {
    match p.minute
    case None => Between(At(p.year, p.month, p.day, p.hour, 0, 0), At(p.year, p.month, p.day, p.hour, 59, 59))
    case Some(minute) => Between(At(p.year, p.month, p.day, p.hour, minute, 0),
      At(p.year, p.month, p.day, p.hour, minute, 59))
  }

  function EdtfSpan(e: Edtf): Option<Span> {
    match e
    case OneDate(date) => DateBoundsOf(date)
    case Interval(from, to) => Joined(DateBoundsOf(from), DateBoundsOf(to))
    case DateTime(instant) => Some(Span(instant, instant))
    case Unsupported => None
  }

  /** The digits pattern of a day, when a digit is unspecified. */
  function UnspecifiedDay(g: Grammar, s: string): Option<DayPattern> {
    var p := g.dayPattern(s);
    if p.Some? && (p.value.tens.None? || p.value.units.None?) then p else None
  }

  /** One token's span: the first recogniser that accepts the token decides, whether or not it then gives a span. */
  function ParseSpan(u: Unicode, g: Grammar, input: string, now: int): Option<Span> {
    var trimmed := Trim(u, input);
    if trimmed == [] then None
    else if g.duration(trimmed).Some? then DurationSpan(g.duration(trimmed).value.0, g.duration(trimmed).value.1, now)
    else
      var s := if g.datelike(trimmed) then AsciiUpper(trimmed) else trimmed;
      if g.rfc3339(s).Some? then Some(Span(g.rfc3339(s).value, g.rfc3339(s).value))
      else if g.partialTime(s).Some? then PartialSpan(g.partialTime(s).value)
      else if UnspecifiedDay(g, s).Some? then
        var p := UnspecifiedDay(g, s).value;
        DayXSpan(p.year, p.month, p.tens, p.units)
      else if g.edtf(s).Some? then EdtfSpan(g.edtf(s).value)
      else if g.natural(trimmed, now).Some? then DaySpanOf(g.natural(trimmed, now).value)
      else None
  }

  datatype Bound = Start | End

  function ParseBound(u: Unicode, g: Grammar, input: string, bound: Bound, now: int): Option<int> {
    match ParseSpan(u, g, input, now)
    case None => None
    case Some(span) => Some(if bound.Start? then span.start else span.end)
  }

  datatype DateRange = DateRange(since: Option<string>, until: Option<string>, when: Option<string>)

  datatype Bounds = Bounds(since: Option<int>, until: Option<int>)

  /** A flag that may be absent; absent is not a failure. */
  function OptionalBound(u: Unicode, g: Grammar, flag: Option<string>, bound: Bound, now: int): Option<Option<int>> {
    match flag
    case None => Some(None)
    case Some(raw) =>
      var t := ParseBound(u, g, raw, bound, now);
      if t.None? then None else Some(t)
  }

  function Resolve(u: Unicode, g: Grammar, range: DateRange, now: int): Option<Bounds> {
    match range.when
    case Some(when) =>
      var span := ParseSpan(u, g, when, now);
      if span.None? || span.value.start > span.value.end then None
      else Some(Bounds(Some(span.value.start), Some(span.value.end)))
    case None =>
      var since := OptionalBound(u, g, range.since, Start, now);
      var until := OptionalBound(u, g, range.until, End, now);
      if since.None? || until.None? then None
      else if since.value.Some? && until.value.Some? && since.value.value > until.value.value then None
      else Some(Bounds(since.value, until.value))
  }

  /** `Resolve` refuses a lower bound later than the upper bound. */
  lemma ResolvedInOrder(u: Unicode, g: Grammar, range: DateRange, now: int)
    ensures var r := Resolve(u, g, range, now);
            r.Some? && r.value.since.Some? && r.value.until.Some? ==> r.value.since.value <= r.value.until.value
  {
  }

  /** One token as `--when` is the same token as `--since` and `--until`: the same bounds, or both refused. */
  lemma WhenIsSinceAndUntil(u: Unicode, g: Grammar, token: string, now: int)
    ensures Resolve(u, g, DateRange(None, None, Some(token)), now) ==
              Resolve(u, g, DateRange(Some(token), Some(token), None), now)
  {
    hide ParseSpan;
  }

  predicate Reversed(span: Option<Span>) {
    span.Some? && span.value.start > span.value.end
  }

  lemma DurationForward(digits: string, unit: string, now: int)
    requires IsInstant(now)
    ensures !Reversed(DurationSpan(digits, unit, now))
  {
    hide AsciiLower, FromDecimal, YearStart;
    if UnitSeconds(AsciiLower(unit)).Some? {
      DurationExact(digits, unit, now);
    }
  }

  lemma PartialForward(p: PartialTime)
    ensures !Reversed(PartialSpan(p))
  {
    hide DayNumber, YearStart, IsDate;
  }

  lemma DayXForward(p: DayPattern)
    requires p.month >= 0 && CalendarLaws.IsDigit(p.tens) && CalendarLaws.IsDigit(p.units)
               && (p.tens.None? || p.units.None?)
    ensures !Reversed(DayXSpan(p.year, p.month, p.tens, p.units))
  {
    hide DayXSpan, SomeDayMatches, MatchesDigits, YearStart, MonthStart, MonthLength;
    DayXExact(p.year, p.month, p.tens, p.units);
  }

  lemma DayForward(t: int)
    ensures !Reversed(DaySpanOf(t))
  {
    hide DaySpan, DateOf, YearStart, MonthStart;
    var d := DateOf(t / DAY);
    DaySpanExact(d.year, d.month, d.day);
  }

  /** The token is read as an interval between two dates. */
  predicate ReadAsInterval(u: Unicode, g: Grammar, input: string, from: Precision, to: Precision) {
    var trimmed := Trim(u, input);
    var s := if g.datelike(trimmed) then AsciiUpper(trimmed) else trimmed;
    && trimmed != []
    && g.duration(trimmed).None? && g.rfc3339(s).None? && g.partialTime(s).None? && UnspecifiedDay(g, s).None?
    && g.edtf(s) == Some(Interval(from, to))
  }

  /**
   * The only tokens whose period is reversed, and which `--when` refuses for that, are intervals whose first date
   * starts after their last date ends.
   */
  lemma OnlyIntervalsReverse(u: Unicode, g: Grammar, input: string, now: int)
    requires IsInstant(now)
    ensures Reversed(ParseSpan(u, g, input, now)) <==>
            exists from, to ::
              && ReadAsInterval(u, g, input, from, to)
              && Reversed(Joined(DateBoundsOf(from), DateBoundsOf(to)))
  {
    hide Trim, AsciiUpper, DurationSpan, PartialSpan, DayXSpan, DaySpanOf, DateBoundsOf, YearStart;
    var trimmed := Trim(u, input);
    var s := if g.datelike(trimmed) then AsciiUpper(trimmed) else trimmed;
    if g.duration(trimmed).Some? {
      DurationForward(g.duration(trimmed).value.0, g.duration(trimmed).value.1, now);
    } else if g.partialTime(s).Some? {
      PartialForward(g.partialTime(s).value);
    } else if UnspecifiedDay(g, s).Some? {
      DayXForward(UnspecifiedDay(g, s).value);
    } else if g.edtf(s).Some? {
      match g.edtf(s).value {
        case OneDate(date) => SpanForward(date);
        case Interval(from, to) => assert trimmed != [] && g.rfc3339(s).None? ==> ReadAsInterval(u, g, input, from, to);
        case _ =>
      }
    } else if g.natural(trimmed, now).Some? {
      DayForward(g.natural(trimmed, now).value);
    }
  }

  /**
   * A token is refused as `--when` exactly when it has no period at all, or it is read as an interval whose first date
   * starts after its last date ends.
   */
  lemma WhenRefusedExactly(u: Unicode, g: Grammar, token: string, now: int)
    requires IsInstant(now)
    ensures Resolve(u, g, DateRange(None, None, Some(token)), now).None? <==>
              || ParseSpan(u, g, token, now).None?
              || exists from, to ::
                   && ReadAsInterval(u, g, token, from, to)
                   && Reversed(Joined(DateBoundsOf(from), DateBoundsOf(to)))
  {
    OnlyIntervalsReverse(u, g, token, now);
    hide ParseSpan, ReadAsInterval, DateBoundsOf;
  }

  // ----- units, instants, hours and minutes -----

  /** A period of so many nanoseconds up to now, when it starts at an instant. */
  function Reaching(now: int, nanoseconds: int): Option<Span> {
    if now - nanoseconds >= MIN_INSTANT then Some(Span(now - nanoseconds, now)) else None
  }

  /** Each unit reaches back its own length: a minute, an hour, a day, a week, 30 days and 365 days; no other is one. */
  lemma UnitsExact(n: nat, unit: string, now: int)
    requires IsInstant(now)
    ensures DurationSpan(ToDecimal(n), "min", now) == Reaching(now, n * 60 * SECOND)
    ensures DurationSpan(ToDecimal(n), "h", now) == Reaching(now, n * 3_600 * SECOND)
    ensures DurationSpan(ToDecimal(n), "d", now) == Reaching(now, n * 86_400 * SECOND)
    ensures DurationSpan(ToDecimal(n), "w", now) == Reaching(now, n * 604_800 * SECOND)
    ensures DurationSpan(ToDecimal(n), "m", now) == Reaching(now, n * 2_592_000 * SECOND)
    ensures DurationSpan(ToDecimal(n), "y", now) == Reaching(now, n * 31_536_000 * SECOND)
    ensures AsciiLower(unit) !in {"min", "h", "d", "w", "m", "y"} ==> DurationSpan(ToDecimal(n), unit, now).None?
  {
    LowerUnits();
    DecimalRoundTrip(n);
    hide YearStart, ToDecimal, FromDecimal, AsciiLower, DurationSpan;
    DurationExact(ToDecimal(n), "min", now);
    DurationExact(ToDecimal(n), "h", now);
    DurationExact(ToDecimal(n), "d", now);
    DurationExact(ToDecimal(n), "w", now);
    DurationExact(ToDecimal(n), "m", now);
    DurationExact(ToDecimal(n), "y", now);
    if AsciiLower(unit) !in {"min", "h", "d", "w", "m", "y"} {
      NoUnit(ToDecimal(n), unit, now);
    }
  }

  lemma NoUnit(digits: string, unit: string, now: int)
    requires AsciiLower(unit) !in {"min", "h", "d", "w", "m", "y"}
    ensures DurationSpan(digits, unit, now).None?
  {
    hide AsciiLower, FromDecimal, YearStart;
  }

  lemma LowerUnits()
    ensures AsciiLower("min") == "min" && AsciiLower("h") == "h" && AsciiLower("d") == "d"
    ensures AsciiLower("w") == "w" && AsciiLower("m") == "m" && AsciiLower("y") == "y"
  {
  }

  lemma Scaled(n: int, k: int, seconds: int)
    ensures (k * n) * seconds * SECOND == n * (k * seconds) * SECOND
  {
  }

  lemma HoursAndDays(n: nat, now: int)
    requires IsInstant(now)
    ensures DurationSpan(ToDecimal(60 * n), "min", now) == DurationSpan(ToDecimal(n), "h", now)
    ensures DurationSpan(ToDecimal(24 * n), "h", now) == DurationSpan(ToDecimal(n), "d", now)
  {
    hide DurationSpan, ToDecimal, YearStart, Reaching, IsInstant;
    Scaled(n, 60, 60);
    Scaled(n, 24, 3_600);
    UnitsExact(n, "d", now);
    UnitsExact(60 * n, "d", now);
    UnitsExact(24 * n, "d", now);
  }

  lemma DaysTogether(n: nat, days: nat, unit: string, now: int)
    requires IsInstant(now) && (days, unit) in {(7, "w"), (30, "m"), (365, "y")}
    ensures DurationSpan(ToDecimal(days * n), "d", now) == DurationSpan(ToDecimal(n), unit, now)
  {
    hide DurationSpan, ToDecimal, YearStart, Reaching, IsInstant;
    Scaled(n, days, 86_400);
    UnitsExact(n, "d", now);
    UnitsExact(days * n, "d", now);
  }

  /** 24 hours are a day, 60 minutes an hour, a week seven days, a month 30 days and a year 365 days. */
  lemma UnitsAgree(n: nat, now: int)
    requires IsInstant(now)
    ensures DurationSpan(ToDecimal(60 * n), "min", now) == DurationSpan(ToDecimal(n), "h", now)
    ensures DurationSpan(ToDecimal(24 * n), "h", now) == DurationSpan(ToDecimal(n), "d", now)
    ensures DurationSpan(ToDecimal(7 * n), "d", now) == DurationSpan(ToDecimal(n), "w", now)
    ensures DurationSpan(ToDecimal(30 * n), "d", now) == DurationSpan(ToDecimal(n), "m", now)
    ensures DurationSpan(ToDecimal(365 * n), "d", now) == DurationSpan(ToDecimal(n), "y", now)
    ensures DurationSpan(ToDecimal(n), "d", now) == Reaching(now, n * DAY)
  {
    hide DurationSpan, ToDecimal, YearStart, Reaching, IsInstant;
    HoursAndDays(n, now);
    DaysTogether(n, 7, "w", now);
    DaysTogether(n, 30, "m", now);
    DaysTogether(n, 365, "y", now);
    UnitsExact(n, "d", now);
    Scaled(n, 1, 86_400);
  }

  /** Units may be written in capitals. */
  lemma UnitsIgnoreCase(digits: string, unit: string, now: int)
    ensures DurationSpan(digits, unit, now) == DurationSpan(digits, AsciiLower(unit), now)
  {
    hide FromDecimal, YearStart;
    assert AsciiLower(AsciiLower(unit)) == AsciiLower(unit);
  }

  /** An exact instant is its own period. */
  lemma InstantIsItsPeriod(u: Unicode, g: Grammar, token: string, now: int)
    requires var trimmed := Trim(u, token);
             trimmed != [] && g.duration(trimmed).None? &&
             g.rfc3339(if g.datelike(trimmed) then AsciiUpper(trimmed) else trimmed).Some?
    ensures var trimmed := Trim(u, token);
            var instant := g.rfc3339(if g.datelike(trimmed) then AsciiUpper(trimmed) else trimmed).value;
            ParseSpan(u, g, token, now) == Some(Span(instant, instant))
  {
  }

  lemma ClockTime(day: int, seconds: int)
    requires 0 <= seconds < 86_400
    ensures var t := day * DAY + seconds * SECOND; t / DAY == day && t % DAY / SECOND == seconds
    ensures EndOfSecond(day * DAY + seconds * SECOND) == day * DAY + seconds * SECOND + SECOND - 1
  {
    assert (day * 86_400 + seconds) * SECOND % SECOND == 0;
  }

  /** The instants of some seconds of a day. */
  lemma InSeconds(t: int, day: int, from: int, to: int)
    requires 0 <= from <= to < 86_400
    ensures In(t, Span(day * DAY + from * SECOND, day * DAY + to * SECOND + SECOND - 1)) <==>
              t / DAY == day && from <= t % DAY / SECOND <= to
  {
  }

  /**
   * A date and an hour, or an hour and a minute, have a period exactly when they exist, and it then contains
   * exactly the instants of that hour or minute.
   */
  lemma PartialExact(p: PartialTime, t: int)
    ensures PartialSpan(p).Some? <==>
              && Representable(p.year) && IsDate(Date(p.year, p.month, p.day))
              && 0 <= p.hour < 24 && (p.minute.Some? ==> 0 <= p.minute.value < 60)
    ensures PartialSpan(p).Some? ==>
              (In(t, PartialSpan(p).value) <==>
                && DateOf(t / DAY) == Date(p.year, p.month, p.day)
                && t % DAY / SECOND / 3_600 == p.hour
                && (p.minute.Some? ==> t % DAY / SECOND / 60 % 60 == p.minute.value))
  {
    hide DayNumber, YearStart, DateOf, IsDate, In, EndOfSecond, PartialSpan;
    PartialSeconds(p);
    if PartialSpan(p).Some? {
      var d := Date(p.year, p.month, p.day);
      var (from, to) := SecondsOf(p);
      InSeconds(t, DayNumber(d), from, to);
      InDay(DateOf(t / DAY), d);
      SecondsExact(p, t % DAY / SECOND);
    }
  }

  /** The first and last second of the day that a partial time stands for. */
  function SecondsOf(p: PartialTime): (int, int) {
    if p.minute.Some? then (p.hour * 3_600 + p.minute.value * 60, p.hour * 3_600 + p.minute.value * 60 + 59)
    else (p.hour * 3_600, p.hour * 3_600 + 3_599)
  }

  lemma SecondsExact(p: PartialTime, second: int)
    requires 0 <= second < 86_400 && 0 <= p.hour < 24 && (p.minute.Some? ==> 0 <= p.minute.value < 60)
    ensures SecondsOf(p).0 <= second <= SecondsOf(p).1 <==>
              second / 3_600 == p.hour && (p.minute.Some? ==> second / 60 % 60 == p.minute.value)
  {
    assert second / 3_600 == second / 60 / 60;
  }

  lemma PartialSeconds(p: PartialTime)
    ensures PartialSpan(p).Some? <==>
              && Representable(p.year) && IsDate(Date(p.year, p.month, p.day))
              && 0 <= p.hour < 24 && (p.minute.Some? ==> 0 <= p.minute.value < 60)
    ensures PartialSpan(p).Some? ==>
              var day := DayNumber(Date(p.year, p.month, p.day));
              0 <= SecondsOf(p).0 <= SecondsOf(p).1 < 86_400 &&
              PartialSpan(p).value == Span(day * DAY + SecondsOf(p).0 * SECOND,
                day * DAY + SecondsOf(p).1 * SECOND + SECOND - 1)
  {
    hide DayNumber, YearStart, IsDate, EndOfSecond;
    if Representable(p.year) && IsDate(Date(p.year, p.month, p.day))
      && 0 <= p.hour < 24 && (p.minute.Some? ==> 0 <= p.minute.value < 60) {
      ClockTime(DayNumber(Date(p.year, p.month, p.day)), SecondsOf(p).1);
    }
  }

  /**
   * After durations and exact instants come hours and minutes, unspecified days, EDTF and natural language, in
   * order.
   */
  lemma ReadingOrder(u: Unicode, g: Grammar, token: string, now: int)
    ensures var trimmed := Trim(u, token);
            var s := if g.datelike(trimmed) then AsciiUpper(trimmed) else trimmed;
            var span := ParseSpan(u, g, token, now);
            && (trimmed == [] ==> span.None?)
            && (trimmed != [] && g.duration(trimmed).Some? ==>
                  span == DurationSpan(g.duration(trimmed).value.0, g.duration(trimmed).value.1, now))
            && (trimmed != [] && g.duration(trimmed).None? && g.rfc3339(s).None? ==>
                  match (g.partialTime(s), UnspecifiedDay(g, s), g.edtf(s), g.natural(trimmed, now))
                  case (Some(time), _, _, _) => span == PartialSpan(time)
                  case (None, Some(day), _, _) => span == DayXSpan(day.year, day.month, day.tens, day.units)
                  case (None, None, Some(Interval(from, to)), _) => span == Joined(DateBoundsOf(from), DateBoundsOf(to))
                  case (None, None, Some(OneDate(date)), _) => span == DateBoundsOf(date)
                  case (None, None, Some(DateTime(t)), _) => span == Some(Span(t, t))
                  case (None, None, Some(Unsupported), _) => span.None?
                  case (None, None, None, Some(t)) => span == DaySpanOf(t)
                  case (None, None, None, None) => span.None?)
  {
    hide Trim, AsciiUpper, DurationSpan, PartialSpan, DayXSpan, DateBoundsOf, DaySpanOf;
  }
}
