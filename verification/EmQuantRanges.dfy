/** The range of days asked for bars when the caller gives none: its texts, its order and its length. */
module EmQuantRanges {
  import opened Wrappers
  import opened Texts
  import opened Decimals
  import opened EmQuantCalendar
  import opened EmQuantDates

  datatype Interval = Minute1 | Minute5 | Minute15 | Minute30 | Hour1 | Day | Week | Month | Year

  datatype RangeError = StartWithoutEnd

  const FLOOR := "1990-01-01"

  function MinuteWidth(interval: Interval): nat {
    match interval
    case Minute1 => 1
    case Minute5 => 5
    case Minute15 => 15
    case Minute30 => 30
    case Hour1 => 60
    case _ => 0
  }

  function LookbackDays(interval: Interval, count: nat): nat {
    match interval
    case Day => count * 2 + 30
    case Week => count * 8 + 30
    case Month => count * 32 + 31
    case Year => count * 367 + 366
    case _ => (count * MinuteWidth(interval) + 239) / 240 + 7
  }

  /** The range asked of the provider: the caller's own, or one that ends today and is clamped. */
  function DefaultDateRange(start: Option<string>, end: Option<string>, limit: nat, interval: Interval, today: nat):
    Result<(string, string), RangeError>
  {
    if start.Some? && end.Some? then Ok((start.value, end.value))
    else if start.Some? || end.Some? then Err(StartWithoutEnd)
    else
      var calculated := DateFromEpochDays(today - LookbackDays(interval, limit));
      Ok((if Before(calculated, FLOOR) then FLOOR else calculated, DateFromEpochDays(today)))
  }

  // ---- Order ----------------------------------------------------------------------------------------------

  /** 1990-01-01 and 10000-01-01 as epoch days. */
  const DAY_1990 := 7_305
  const DAY_10000 := 2_932_897

  lemma KnownDays()
    ensures CivilFromDays(DAY_1990) == Date(1990, 1, 1) && CivilFromDays(DAY_10000) == Date(10000, 1, 1)
    ensures DateFromEpochDays(DAY_1990) == FLOOR
  {
    hide CivilFromDays, DateText, Before;
    assert DayNumber(Date(1990, 1, 1)) == DAY_1990 && DayNumber(Date(10000, 1, 1)) == DAY_10000;
    DatesAndDaysCorrespond(Date(1990, 1, 1), 0);
    DatesAndDaysCorrespond(Date(10000, 1, 1), 0);
    FloorIsADateText();
  }

  lemma FloorIsADateText()
    ensures DateText(Date(1990, 1, 1)) == FLOOR
  {
    hide Padded, Numeral;
    FourDigits(1990);
    TwoDigits(1);
    assert Padded(1990, 4) == "1990" && Padded(1, 2) == "01";
  }

  lemma LongerYears(a: nat, b: nat)
    requires a <= b
    ensures |Padded(a, 4)| <= |Padded(b, 4)|
  {
    hide Numeral;
    NumeralsGrow(a, b);
  }

  /** The text of an earlier or equal day is not after that of a later one exactly when the leading
      digits of the later year, as many as the earlier year shows, are not less than it. */
  lemma EarlierTextIsAtMost(m: int, n: nat)
    requires m <= n
    ensures var y, y' := CivilFromDays(m).year, CivilFromDays(n).year;
            && 1970 <= y' && y <= y'
            && (AtMost(DateFromEpochDays(m), DateFromEpochDays(n)) <==> y < 0 || y <= Leading(y', |Padded(y, 4)|))
  {
    hide CivilFromDays, Before, DateText, IsDate, Leading, Padded;
    var a, b := CivilFromDays(m), CivilFromDays(n);
    CivilStep(m);
    CivilStep(n);
    Epoch();
    if 0 < n {
      CivilAscends(0, n);
    }
    if m < n {
      CivilAscends(m, n);
    }
    if a.year < 0 {
      MinusSortsFirst(a, b);
      BeforeIsTotal(DateText(a), DateText(b));
    } else {
      LongerYears(a.year, b.year);
      DateTextsOfUnequalWidth(a, b);
    }
  }

  /** A computed day is before the floor as text exactly when its year shows less than 1990 in its
      first four digits, or is negative. */
  lemma BelowTheFloor(n: int)
    ensures var y := CivilFromDays(n).year;
            Before(DateFromEpochDays(n), "1990-01-01") <==> y < 0 || Leading(y, 4) < 1990
  {
    hide CivilFromDays, Before, DateText, IsDate, Leading, Padded;
    KnownDays();
    var a, b := CivilFromDays(DAY_1990), CivilFromDays(n);
    CivilStep(DAY_1990);
    CivilStep(n);
    PaddedLength(1990, 4);
    if b.year < 0 {
      MinusSortsFirst(b, a);
    } else {
      AtLeastFourWide(b.year);
      DateTextsOfUnequalWidth(a, b);
      assert IsDate(b) ==> b.month >= 1 && b.day >= 1 by {
        ValidParts(b);
      }
    }
  }

  lemma ValidParts(d: Date)
    ensures IsDate(d) ==> d.month >= 1 && d.day >= 1
  {
  }

  lemma AtLeastFourWide(n: nat)
    ensures |Padded(n, 4)| >= 4
  {
  }

  lemma FourDigitYear(year: nat)
    requires year < 10000
    ensures Leading(year, 4) == year
  {
    hide Padded, Value;
    PaddedLength(year, 4);
    PaddedParses(year, 4);
    assert Padded(year, 4)[..4] == Padded(year, 4);
  }

  lemma FiveDigitYear(year: nat)
    requires 10000 <= year < 100000
    ensures Leading(year, 4) == year / 10
  {
    hide Value;
    ValueOfNumeral(year / 10);
    LongNumeral(year);
    PaddedLength(year / 10, 4);
    assert Numeral(year) == Numeral(year / 10) + [DigitChar(year % 10)];
    assert year / 10 >= 1000;
    FourLong(year / 10);
    assert Padded(year, 4)[..4] == Numeral(year / 10);
  }

  lemma FourLong(n: nat)
    requires 1000 <= n < 10000
    ensures |Numeral(n)| == 4
  {
    assert |Numeral(n / 1000)| == 1;
    assert |Numeral(n / 100)| == 2;
    assert |Numeral(n / 10)| == 3;
  }

  /** Without a caller's range, for every limit, interval and clock: the default range starts no earlier than
      1990-01-01, even when the computed year is negative; and it is in order exactly when today's year shows
      at least 1990 in its first four digits and its leading digits are not less than the computed year. */
  lemma DefaultRangeIsOrdered(limit: nat, interval: Interval, today: nat)
    ensures var r := DefaultDateRange(None, None, limit, interval, today);
            var first := CivilFromDays(today - LookbackDays(interval, limit)).year;
            var last := CivilFromDays(today).year;
            && r.Ok? && last >= 1970
            && AtMost("1990-01-01", r.value.0)
            && (AtMost(r.value.0, r.value.1)
                <==> Leading(last, 4) >= 1990 && (first < 0 || first <= Leading(last, |Padded(first, 4)|)))
  {
    hide CivilFromDays, Before, DateText, DateFromEpochDays, Leading, Padded, LookbackDays;
    var calculated, end := DateFromEpochDays(today - LookbackDays(interval, limit)), DateFromEpochDays(today);
    EarlierTextIsAtMost(today - LookbackDays(interval, limit), today);
    BelowTheFloor(today);
    BeforeIsTotal(calculated, FLOOR);
    BeforeIsTotal(FLOOR, FLOOR);
    if Before(calculated, FLOOR) && AtMost(FLOOR, end) {
      AtMostIsTransitive(calculated, FLOOR, end);
    } else if !Before(calculated, FLOOR) && AtMost(calculated, end) {
      AtMostIsTransitive(FLOOR, calculated, end);
    }
  }

  /** Clamping the text is clamping the day, so that the start is the later of 1990-01-01 and the day that lies
      the lookback before today, exactly if that day is before 1990 or shows at least 1990 in four digits. */
  lemma DefaultRangeIsClamped(limit: nat, interval: Interval, today: nat)
    ensures var first := today - LookbackDays(interval, limit);
            var year := CivilFromDays(first).year;
            DefaultDateRange(None, None, limit, interval, today)
            == Ok((DateFromEpochDays(if first < 7_305 then 7_305 else first), DateFromEpochDays(today)))
            <==> first < 7_305 || Leading(year, 4) >= 1990
  {
    hide CivilFromDays, Before, DateText, DateFromEpochDays, Leading, LookbackDays;
    var first := today - LookbackDays(interval, limit);
    KnownDays();
    BelowTheFloor(first);
    BeforeIsTotal(DateFromEpochDays(first), FLOOR);
    if first < DAY_1990 {
      CivilAscends(first, DAY_1990);
      CivilStep(first);
      if CivilFromDays(first).year >= 0 {
        FourDigitYear(CivilFromDays(first).year);
      }
    } else if first > DAY_1990 {
      CivilAscends(DAY_1990, first);
    }
  }

  /** With the clock before the year 10000 the range is in order exactly from 1990-01-01 on, and the
      start is always the clamped day. */
  lemma FourDigitYearsAreOrdered(limit: nat, interval: Interval, today: nat)
    requires today < 2_932_897
    ensures var r := DefaultDateRange(None, None, limit, interval, today);
            var first := today - LookbackDays(interval, limit);
            && r.Ok? && (AtMost(r.value.0, r.value.1) <==> today >= 7_305)
            && r.value.0 == DateFromEpochDays(if first < 7_305 then 7_305 else first)
  {
    hide CivilFromDays, Before, DateText, DateFromEpochDays, Leading, LookbackDays, Padded;
    var first := today - LookbackDays(interval, limit);
    DefaultRangeIsOrdered(limit, interval, today);
    DefaultRangeIsClamped(limit, interval, today);
    YearsFollowDays(today);
    FourDigitYear(CivilFromDays(today).year);
    if first < today {
      CivilAscends(first, today);
    }
    var year := CivilFromDays(first).year;
    if year >= 0 {
      PaddedLength(year, 4);
      FourDigitYear(year);
    }
    if first > DAY_1990 {
      CivilAscends(DAY_1990, first);
    }
    KnownDays();
  }

  lemma YearsFollowDays(n: nat)
    requires n < 2_932_897
    ensures 1970 <= CivilFromDays(n).year < 10000
    ensures n >= 7_305 <==> CivilFromDays(n).year >= 1990
  {
    hide CivilFromDays;
    Epoch();
    KnownDays();
    if n > 0 {
      CivilAscends(0, n);
    }
    CivilAscends(n, DAY_10000);
    CivilStep(n);
    if n < DAY_1990 {
      CivilAscends(n, DAY_1990);
    } else if n > DAY_1990 {
      CivilAscends(DAY_1990, n);
    }
  }

  /** In the years 10000 to 19899 no default range is in order. */
  lemma FiveDigitYearsBreakTheOrder(limit: nat, interval: Interval, today: nat)
    requires 10000 <= CivilFromDays(today).year < 19900
    ensures var r := DefaultDateRange(None, None, limit, interval, today);
            r.Ok? && Before(r.value.1, r.value.0)
  {
    hide CivilFromDays, Before, DateFromEpochDays, Leading, LookbackDays, Padded;
    DefaultRangeIsOrdered(limit, interval, today);
    FiveDigitYear(CivilFromDays(today).year);
  }

  // ---- What is asked for ------------------------------------------------------------------------------------

  /** A caller's own range is asked for as it is, and half a range is refused. */
  lemma CallersRangeIsKept(start: Option<string>, end: Option<string>, limit: nat, interval: Interval, today: nat)
    ensures var r := DefaultDateRange(start, end, limit, interval, today);
            && (r == Err(StartWithoutEnd) <==> (start.Some? <==> end.None?))
            && (start.Some? && end.Some? ==> r.Ok? && start == Some(r.value.0) && end == Some(r.value.1))
            && (start.None? && end.None? ==> r == DefaultDateRange(None, None, limit, interval, today))
  {
  }

  /** The lookback in days: two, eight, 32 or 367 for each daily, weekly, monthly or yearly bar and 30, 30, 31 or 366
      more; for bars of minutes a week and as many days of 240 minutes as they begin. */
  lemma LookbacksAreExact(interval: Interval, count: nat, minutes: nat)
    ensures interval == Day ==> LookbackDays(interval, count) == 2 * count + 30
    ensures interval == Week ==> LookbackDays(interval, count) == 8 * count + 30
    ensures interval == Month ==> LookbackDays(interval, count) == 32 * count + 31
    ensures interval == Year ==> LookbackDays(interval, count) == 367 * count + 366
    ensures (interval, minutes) in {(Minute1, 1), (Minute5, 5), (Minute15, 15), (Minute30, 30), (Hour1, 60)} ==>
              && MinuteWidth(interval) == minutes && LookbackDays(interval, count) >= 7
              && 240 * (LookbackDays(interval, count) - 7) - 240 < minutes * count <= 240 * (LookbackDays(interval, count) - 7)
  {
  }

  // ---- Length ---------------------------------------------------------------------------------------------

  /** Saturday and Sunday are the days 2 and 3 behind a Thursday, which 1970-01-01 was. */
  predicate IsWeekday(day: int) {
    day % 7 != 2 && day % 7 != 3
  }

  /** The weekdays among the `days` days from `first` on. */
  function Weekdays(first: int, days: nat): nat {
    if days == 0 then 0 else Weekdays(first, days - 1) + if IsWeekday(first + days - 1) then 1 else 0
  }

  /** The weekdays of the calendar's weeks, Monday to Sunday, before a day. */
  function WeekdaysBefore(day: int): int {
    var n := day + 3;
    5 * (n / 7) + if n % 7 < 5 then n % 7 else 5
  }

  lemma {:induction false} WeekdaysCount(first: int, days: nat)
    ensures Weekdays(first, days) == WeekdaysBefore(first + days) - WeekdaysBefore(first)
  {
    if days > 0 {
      WeekdaysCount(first, days - 1);
      WeekdayStep(first + days - 1);
    }
  }

  lemma WeekdayStep(day: int)
    ensures WeekdaysBefore(day + 1) == WeekdaysBefore(day) + if IsWeekday(day) then 1 else 0
  {
    var q, r := (day + 3) / 7, (day + 3) % 7;
    assert day + 3 == 7 * q + r;
    assert day % 7 == if r >= 3 then r - 3 else r + 4;
    assert (day + 4) / 7 == if r == 6 then q + 1 else q;
  }

  /** The fewest weekdays among `days` consecutive days; a stretch that starts on a Saturday has no more. */
  function FewestWeekdays(days: nat): nat {
    5 * (days / 7) + if days % 7 > 2 then days % 7 - 2 else 0
  }

  lemma WeekdaysAreSpread(first: int, days: nat)
    ensures Weekdays(first, days) >= FewestWeekdays(days)
    ensures first % 7 == 2 ==> Weekdays(first, days) == FewestWeekdays(days)
  {
    hide Weekdays;
    WeekdaysCount(first, days);
    Carry(first + 3, days);
    assert first % 7 == 2 ==> (first + 3) % 7 == 5;
  }

  /** Weeks and days of a sum. */
  lemma Carry(m: int, n: nat)
    ensures (m + n) / 7 == m / 7 + n / 7 + if m % 7 + n % 7 >= 7 then 1 else 0
    ensures (m + n) % 7 == m % 7 + n % 7 - if m % 7 + n % 7 >= 7 then 7 else 0
  {
    var q, r := m / 7 + n / 7, m % 7 + n % 7;
    assert m + n == 7 * q + r;
    DivideSmall(q, r);
  }

  lemma DivideSmall(q: int, r: int)
    requires 0 <= r < 14
    ensures (7 * q + r) / 7 == q + if r >= 7 then 1 else 0
    ensures (7 * q + r) % 7 == r - if r >= 7 then 7 else 0
  {
  }

  function WeekIndex(day: int): int {
    (day + 3) / 7
  }

  function MonthIndex(day: int): int {
    12 * CivilFromDays(day).year + CivilFromDays(day).month
  }

  /** A later day of the same month has a later number. */
  lemma {:induction false} WithinMonth(day: int, more: nat)
    ensures MonthIndex(day) <= MonthIndex(day + more)
    ensures MonthIndex(day) == MonthIndex(day + more) ==> CivilFromDays(day + more).day == CivilFromDays(day).day + more
  {
    hide CivilFromDays, DaysInMonth;
    if more > 0 {
      WithinMonth(day, more - 1);
      CivilStep(day + more - 1);
    }
  }

  /** Thirty-one days on lies another month. */
  lemma {:induction false} MonthsPass(day: int, months: nat, more: nat)
    requires more >= 31 * months
    ensures MonthIndex(day + more) >= MonthIndex(day) + months
  {
    hide CivilFromDays;
    if months == 0 {
      WithinMonth(day, more);
    } else {
      MonthsPass(day, months - 1, more - 31);
      WithinMonth(day + more - 31, 31);
      CivilStep(day + more - 31);
      CivilStep(day + more);
      assert day + (more - 31) == day + more - 31;
    }
  }

  function DayOfYear(d: Date): int {
    DayNumber(d) - DayNumber(Date(d.year, 1, 1))
  }

  lemma DayOfYearIsBounded(d: Date)
    requires IsDate(d)
    ensures 0 <= DayOfYear(d) < 366
  {
    var y := d.year;
    YearLength(y - 1);
    assert YearStart(y) - YearStart(y - 1) == MarchYearLength(y - 1) <= 366;
    assert d.month > 2 ==> DayOfYear(d) == MarchYearLength(y - 1) - 306 + MonthStart(d.month - 3) + d.day - 1;
  }

  /** Three hundred and sixty-six days on lies another year. */
  lemma {:induction false} YearsPass(day: int, years: nat, more: nat)
    requires more >= 366 * years
    ensures CivilFromDays(day + more).year >= CivilFromDays(day).year + years
  {
    hide CivilFromDays, DayNumber, IsDate;
    if years == 0 {
      if more > 0 {
        CivilAscends(day, day + more);
      }
    } else {
      YearsPass(day, years - 1, more - 366);
      var d := day + more - 366;
      assert day + (more - 366) == d;
      CivilAscends(d, d + 366);
      CivilStep(d);
      CivilStep(d + 366);
      DatesAndDaysCorrespond(CivilFromDays(d), d);
      DatesAndDaysCorrespond(CivilFromDays(d + 366), d + 366);
      DayOfYearIsBounded(CivilFromDays(d));
      DayOfYearIsBounded(CivilFromDays(d + 366));
    }
  }

  /** Whatever the day, the lookback for `count` bars goes back over `count` weekdays, or over as many changes
      of the week, the calendar month or the calendar year. */
  lemma LookbackIsLongEnough(interval: Interval, count: nat, today: int)
    ensures var days := LookbackDays(interval, count);
            match interval
            case Day => Weekdays(today - days, days) >= count
            case Week => WeekIndex(today) - WeekIndex(today - days) >= count
            case Month => MonthIndex(today) - MonthIndex(today - days) >= count
            case Year => CivilFromDays(today).year - CivilFromDays(today - days).year >= count
            case _ => true
  {
    hide Weekdays, MonthIndex, CivilFromDays;
    var days := LookbackDays(interval, count);
    match interval
    case Day =>
      WeekdaysAreSpread(today - days, days);
      assert 7 * (days / 7) >= count * 2 + 24;
    case Week =>
    case Month => MonthsPass(today - days, count, days);
    case Year => YearsPass(today - days, count, days);
    case _ =>
  }

  /** Days of 240 trading minutes that `count` intraday bars fill. */
  function TradingDays(interval: Interval, count: nat): nat {
    (count * MinuteWidth(interval) + 239) / 240
  }

  /** Wherever it starts, a stretch of `days` days holds `needed` weekdays. */
  ghost predicate AlwaysHolds(days: nat, needed: nat) {
    forall first: int :: Weekdays(first, days) >= needed
  }

  /** An intraday lookback adds one week and does not stretch over weekends: the days from it up to today are
      sure to hold a weekday for each trading day exactly up to twenty trading days. */
  lemma IntradayLookback(interval: Interval, count: nat)
    requires MinuteWidth(interval) > 0
    ensures AlwaysHolds(LookbackDays(interval, count) + 1, TradingDays(interval, count))
            <==> TradingDays(interval, count) <= 20
  {
    hide Weekdays, MinuteWidth, TradingDays, LookbackDays, FewestWeekdays;
    var needed, days := TradingDays(interval, count), LookbackDays(interval, count) + 1;
    IntradayDays(interval, count);
    TwentyDays(needed);
    forall first: int ensures Weekdays(first, days) >= FewestWeekdays(days) {
      WeekdaysAreSpread(first, days);
    }
    WeekdaysAreSpread(2, days);
    assert days == needed + 8;
  }

  lemma IntradayDays(interval: Interval, count: nat)
    requires MinuteWidth(interval) > 0
    ensures LookbackDays(interval, count) == TradingDays(interval, count) + 7
  {
  }

  lemma TwentyDays(needed: nat)
    ensures FewestWeekdays(needed + 8) >= needed <==> needed <= 20
  {
    var q, r := needed / 7, needed % 7;
    assert needed + 8 == if r == 6 then 7 * (q + 2) else 7 * (q + 1) + (r + 1);
    assert (needed + 8) / 7 == if r == 6 then q + 2 else q + 1;
    assert (needed + 8) % 7 == if r == 6 then 0 else r + 1;
  }
}
