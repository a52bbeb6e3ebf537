/** Dates as text: what the date check accepts and how texts compare. */
module EmQuantDates {
  import opened Texts
  import opened Decimals
  import opened EmQuantCalendar

  function DateFromEpochDays(days: int): string {
    CivilStep(days);
    DateText(CivilFromDays(days))
  }

  // ---- The inverse of the closed form -------------------------------------------------------------

  /** The epoch day of a calendar date. */
  function DayNumber(d: Date): int {
    var y := if d.month <= 2 then d.year - 1 else d.year;
    var m := if d.month <= 2 then d.month + 9 else d.month - 3;
    YearStart(y) + MonthStart(m) + d.day - 1 - 719_468
  }

  lemma MarchDateOf(d: Date)
    requires IsDate(d)
    ensures var y := if d.month <= 2 then d.year - 1 else d.year;
            var m := if d.month <= 2 then d.month + 9 else d.month - 3;
            var n := MonthStart(m) + d.day - 1;
            0 <= n < MarchYearLength(y) && MarchDate(y, n) == d
  {
  }

  lemma DayNumberOfMarchDate(y: int, n: int)
    requires 0 <= n < MarchYearLength(y)
    ensures DayNumber(MarchDate(y, n)) == YearStart(y) + n - 719_468
  {
    hide YearStart;
  }

  /** Every calendar date is the date of exactly one epoch day. */
  lemma DatesAndDaysCorrespond(d: Date, days: int)
    ensures IsDate(d) ==> CivilFromDays(DayNumber(d)) == d
    ensures DayNumber(CivilFromDays(days)) == days
  {
    hide MarchDate, YearStart, MonthStart, IsDate, CivilFromDays, MarchYearLength;
    var y := YearOf(days + 719_468);
    YearLength(y);
    DayNumberOfMarchDate(y, days + 719_468 - YearStart(y));
    if IsDate(d) {
      MarchDateOf(d);
      var y' := if d.month <= 2 then d.year - 1 else d.year;
      var z := DayNumber(d) + 719_468;
      YearLength(y');
      var y'' := YearOf(z);
      SameYear(z, y', y'');
    }
  }

  // ---- The textual check -----------------------------------------------------------------------------

  predicate IsDateShaped(v: string) {
    && |v| == 10 && v[4] == '-' && v[7] == '-'
    && forall i | 0 <= i < 10 && i != 4 && i != 7 :: IsDigit(v[i])
  }

  predicate ValidIsoDate(v: string) {
    && IsDateShaped(v)
    && var year, month, day := Value(v[0..4]), Value(v[5..7]), Value(v[8..10]);
    && year >= 1900 && day >= 1 && day <= DaysInMonth(year, month)
  }

  /** The parts of a ten-character date text. */
  lemma DateTextParts(d: Date)
    requires IsDate(d) && 0 <= d.year < 10000
    ensures var v := DateText(d);
            && IsDateShaped(v)
            && v[0..4] == Padded(d.year, 4) && v[5..7] == Padded(d.month, 2) && v[8..10] == Padded(d.day, 2)
  {
    hide Padded;
    PaddedLength(d.year, 4);
    PaddedLength(d.month, 2);
    PaddedLength(d.day, 2);
    var v := DateText(d);
    assert v[0..4] == Padded(d.year, 4) && v[5..7] == Padded(d.month, 2) && v[8..10] == Padded(d.day, 2);
    forall i | 0 <= i < 10 && i != 4 && i != 7 ensures IsDigit(v[i]) {
      if i < 4 {
        assert v[i] == Padded(d.year, 4)[i];
      } else if i < 7 {
        assert v[i] == Padded(d.month, 2)[i - 5];
      } else {
        assert v[i] == Padded(d.day, 2)[i - 8];
      }
    }
  }

  lemma AcceptedTextIsADate(v: string) returns (d: Date)
    requires ValidIsoDate(v)
    ensures IsDate(d) && 1900 <= d.year < 10000 && v == DateText(d)
  {
    hide Padded, Value;
    d := Date(Value(v[0..4]), Value(v[5..7]), Value(v[8..10]));
    ValueBound(v[0..4]);
    FieldRoundTrip(v[0..4]);
    FieldRoundTrip(v[5..7]);
    FieldRoundTrip(v[8..10]);
    assert v == v[0..4] + "-" + v[5..7] + "-" + v[8..10];
  }

  lemma DateTextIsAccepted(d: Date)
    requires IsDate(d) && 1900 <= d.year < 10000
    ensures ValidIsoDate(DateText(d))
  {
    hide DateText, Padded, Value;
    DateTextParts(d);
    PaddedParses(d.year, 4);
    PaddedParses(d.month, 2);
    PaddedParses(d.day, 2);
  }

  /** The check accepts exactly the texts of the calendar's dates of the years 1900 to 9999. */
  lemma AcceptedExactly(v: string)
    ensures ValidIsoDate(v) <==> exists days :: 1900 <= CivilFromDays(days).year <= 9999 && v == DateFromEpochDays(days)
  {
    hide ValidIsoDate, CivilFromDays, DateText, IsDate;
    if ValidIsoDate(v) {
      var d := AcceptedTextIsADate(v);
      DatesAndDaysCorrespond(d, 0);
      assert CivilFromDays(DayNumber(d)).year == d.year && v == DateFromEpochDays(DayNumber(d));
    }
    forall days | 1900 <= CivilFromDays(days).year <= 9999 && v == DateFromEpochDays(days) ensures ValidIsoDate(v) {
      CivilStep(days);
      DateTextIsAccepted(CivilFromDays(days));
    }
  }

  /** A computed date passes the check exactly in the years 1900 to 9999. */
  lemma ComputedDateIsAccepted(days: int)
    ensures ValidIsoDate(DateFromEpochDays(days)) <==> 1900 <= CivilFromDays(days).year <= 9999
  {
    hide CivilFromDays, Padded, Value;
    CivilStep(days);
    var d := CivilFromDays(days);
    if 0 <= d.year < 10000 {
      if d.year >= 1900 {
        DateTextIsAccepted(d);
      } else {
        DateTextParts(d);
        PaddedParses(d.year, 4);
      }
    } else if d.year >= 10000 {
      PaddedLength(d.year, 4);
      PaddedLength(d.month, 2);
      PaddedLength(d.day, 2);
    } else {
      assert DateText(d)[0] == '-';
    }
  }

  // ---- What a printed date shows --------------------------------------------------------------------------

  /** At least `width` digits that show `n`, with no zero in front beyond that width. */
  predicate ShowsPadded(text: string, n: nat, width: nat) {
    AllDigits(text) && |text| >= width && Value(text) == n && (|text| > width ==> text[0] != '0')
  }

  lemma PaddedShows(n: nat, width: nat)
    requires width > 0
    ensures ShowsPadded(Padded(n, width), n, width)
  {
    hide Numeral, Value;
    PaddedParses(n, width);
    ValueOfNumeral(n);
    OneDigitNumeral(n);
  }

  lemma OneDigitNumeral(n: nat)
    ensures n < 10 ==> |Numeral(n)| == 1
  {
  }

  /** A printed date shows the year in four columns, of which a minus sign takes one, and behind dashes the month and the
      day in two digits each. */
  lemma DateTextsShowTheirDates(d: Date)
    requires IsDate(d)
    ensures var text := DateText(d);
            && |text| >= 10 && text[|text| - 6] == '-' && text[|text| - 3] == '-'
            && |text[|text| - 5..|text| - 3]| == 2 && ShowsPadded(text[|text| - 5..|text| - 3], d.month, 2)
            && |text[|text| - 2..]| == 2 && ShowsPadded(text[|text| - 2..], d.day, 2)
            && if d.year >= 0 then ShowsPadded(text[..|text| - 6], d.year, 4)
               else text[0] == '-' && ShowsPadded(text[1..|text| - 6], -d.year, 3)
  {
    hide Padded, ShowsPadded, DaysInMonth;
    SmallDay(d);
    var text, year, month, day := DateText(d), YearText(d.year), Padded(d.month, 2), Padded(d.day, 2);
    PaddedLength(d.month, 2);
    PaddedLength(d.day, 2);
    PaddedShows(d.month, 2);
    PaddedShows(d.day, 2);
    assert text == year + "-" + month + "-" + day;
    assert text[|text| - 5..|text| - 3] == month && text[|text| - 2..] == day && text[..|text| - 6] == year;
    if d.year >= 0 {
      PaddedShows(d.year, 4);
    } else {
      PaddedShows(-d.year, 3);
      assert text[1..|text| - 6] == Padded(-d.year, 3);
    }
  }

  // ---- Order ----------------------------------------------------------------------------------------------

  predicate DateBefore(a: Date, b: Date) {
    a.year < b.year || (a.year == b.year && (a.month < b.month || (a.month == b.month && a.day < b.day)))
  }

  lemma {:induction false} CivilAscends(m: int, n: int)
    requires m < n
    ensures DateBefore(CivilFromDays(m), CivilFromDays(n))
    decreases n - m
  {
    hide CivilFromDays, DaysInMonth;
    CivilStep(n - 1);
    if m < n - 1 {
      CivilAscends(m, n - 1);
    }
  }

  /** What follows the year in the text of a date. */
  function RestText(d: Date): string
    requires d.month >= 0 && d.day >= 0
  {
    "-" + (Padded(d.month, 2) + ("-" + Padded(d.day, 2)))
  }

  lemma DateTextSplits(d: Date)
    requires d.month >= 0 && d.day >= 0 && d.year >= 0
    ensures DateText(d) == Padded(d.year, 4) + RestText(d) && RestText(d) != [] && RestText(d)[0] == '-'
  {
    hide Padded;
    assert DateText(d) == Padded(d.year, 4) + "-" + Padded(d.month, 2) + "-" + Padded(d.day, 2);
  }

  lemma SmallDay(d: Date)
    requires IsDate(d)
    ensures d.day < 100
  {
  }

  /** Within a year, what follows the year is ordered as the dates are. */
  lemma RestsCompare(a: Date, b: Date)
    requires IsDate(a) && IsDate(b) && a.year == b.year
    ensures Before(RestText(a), RestText(b)) <==> DateBefore(a, b)
  {
    hide Padded, Before, DaysInMonth;
    SmallDay(a);
    SmallDay(b);
    PaddedLength(a.month, 2);
    PaddedLength(b.month, 2);
    PaddedLength(a.day, 2);
    PaddedLength(b.day, 2);
    PaddedCompare(a.month, b.month, 2);
    PaddedCompare(a.day, b.day, 2);
    BeforeIsTotal("-", "-");
    BeforeByParts("-", Padded(a.month, 2) + ("-" + Padded(a.day, 2)), "-", Padded(b.month, 2) + ("-" + Padded(b.day, 2)));
    BeforeByParts(Padded(a.month, 2), "-" + Padded(a.day, 2), Padded(b.month, 2), "-" + Padded(b.day, 2));
    BeforeByParts("-", Padded(a.day, 2), "-", Padded(b.day, 2));
  }

  /** The number that the first `width` digits of a printed year show; the year itself if it has no
      more digits than that. */
  function Leading(year: nat, width: nat): nat {
    var digits := Padded(year, 4);
    Value(if width <= |digits| then digits[..width] else digits)
  }

  /** How dates compare as texts when the year of `b` is printed no shorter than that of `a`: its leading
      digits decide, a dash sorting before every digit, and in one year the rest of the date. */
  lemma DateTextsOfUnequalWidth(a: Date, b: Date)
    requires IsDate(a) && IsDate(b) && 0 <= a.year && 0 <= b.year
    requires |Padded(a.year, 4)| <= |Padded(b.year, 4)|
    ensures Before(DateText(b), DateText(a))
            <==> Leading(b.year, |Padded(a.year, 4)|) < a.year || (a.year == b.year && DateBefore(b, a))
  {
    hide Padded, Before, DateText, RestText, Value, DaysInMonth;
    var x, y := Padded(a.year, 4), Padded(b.year, 4);
    var w := |x|;
    DateTextSplits(a);
    DateTextSplits(b);
    assert y + RestText(b) == y[..w] + (y[w..] + RestText(b));
    BeforeByParts(y[..w], y[w..] + RestText(b), x, RestText(a));
    DigitsCompare(y[..w], x);
    PaddedParses(a.year, 4);
    PaddedParses(b.year, 4);
    if w == |y| {
      assert y[..w] == y && y[w..] + RestText(b) == RestText(b);
      if a.year == b.year {
        RestsCompare(b, a);
      }
    } else {
      var tail := y[w..] + RestText(b);
      assert tail[0] == y[w] && IsDigit(y[w]);
      FirstCharacterDecides(RestText(a), tail);
      BeforeIsTotal(RestText(a), tail);
    }
  }

  lemma FirstCharacterDecides(a: string, b: string)
    ensures a != [] && b != [] && a[0] < b[0] ==> Before(a, b)
  {
  }

  /** Texts of dates in the years 0 to 9999 are ordered as the dates are. */
  lemma DateTextsCompare(a: Date, b: Date)
    requires IsDate(a) && IsDate(b) && 0 <= a.year < 10000 && 0 <= b.year < 10000
    ensures Before(DateText(a), DateText(b)) <==> DateBefore(a, b)
  {
    hide Padded, Before, DateText, IsDate, Value;
    PaddedLength(a.year, 4);
    PaddedLength(b.year, 4);
    PaddedParses(a.year, 4);
    assert Padded(a.year, 4)[..4] == Padded(a.year, 4);
    DateTextsOfUnequalWidth(b, a);
  }

  lemma MinusSortsFirst(a: Date, b: Date)
    requires IsDate(a) && IsDate(b) && a.year < 0 <= b.year
    ensures Before(DateText(a), DateText(b))
  {
    var x, y := DateText(a), DateText(b);
    assert x[0] == '-' && IsDigit(Padded(b.year, 4)[0]) && y[0] == Padded(b.year, 4)[0];
  }
}
