/** The times of minute bars as texts: which ones the bar constructor accepts and which ones have a bucket. */
module MinuteBarTimes {
  import opened Clocks
  import opened Decimals
  import opened EmQuantCalendar
  import opened EmQuantDates
  import opened MinuteBarLaws
  import opened MinuteBars
  import opened Texts
  import opened Wrappers

  // ---- The bar constructor --------------------------------------------------------------------------------

  /** A printed date of the years 1900 to 9999, a separator and a printed second of the day. */
  predicate IsStamp(v: string, day: int, separator: char, second: nat) {
    && 1900 <= CivilFromDays(day).year <= 9999 && separator in {' ', 'T'} && second < 86400
    && v == DateFromEpochDays(day) + [separator] + ClockText(second)
  }

  lemma StampParts(v: string, day: int, separator: char, second: nat)
    requires IsStamp(v, day, separator, second)
    ensures ValidBarTime(v) && v[..10] == DateFromEpochDays(day) && v[10] == separator && v[11..] == ClockText(second)
    ensures SecondsOf(v[11..]) == second
  {
    hide CivilFromDays, DateFromEpochDays, ClockText, ValidIsoDate, ValidClockTime, SecondsOf;
    AcceptedExactly(DateFromEpochDays(day));
    ClockCheckIsExact(ClockText(second));
    TimeParts(DateFromEpochDays(day), separator, ClockText(second));
  }

  lemma ValidTimeIsStamp(v: string) returns (day: int)
    requires ValidBarTime(v)
    ensures IsStamp(v, day, v[10], SecondsOf(v[11..]))
  {
    hide CivilFromDays, DateFromEpochDays, ClockText, ValidIsoDate, ValidClockTime, SecondsOf;
    AcceptedExactly(v[..10]);
    ClockCheckIsExact(v[11..]);
    day :| 1900 <= CivilFromDays(day).year <= 9999 && v[..10] == DateFromEpochDays(day);
    assert v == v[..10] + [v[10]] + v[11..];
  }

  /** Two stamps of one day with one separator, the second not before the first and at most `seconds` later. */
  ghost predicate AreStamps(start: string, end: string, seconds: nat) {
    exists day, separator, a: nat, b: nat ::
      IsStamp(start, day, separator, a) && IsStamp(end, day, separator, b) && a <= b <= a + seconds
  }

  lemma TimesMean(start: string, end: string, width: Width)
    ensures TimesFit(start, end, width) <==> AreStamps(start, end, 60 * width)
  {
    hide ValidBarTime, IsStamp, SecondsOf, Before;
    if TimesFit(start, end, width) {
      TenCharacters(start);
      TenCharacters(end);
      var day := ValidTimeIsStamp(start);
      var other := ValidTimeIsStamp(end);
      SameDay(start, end, day, other, SecondsOf(end[11..]));
      assert IsStamp(end, day, start[10], SecondsOf(end[11..]));
    }
    forall day, separator, a: nat, b: nat |
      IsStamp(start, day, separator, a) && IsStamp(end, day, separator, b) && a <= b <= a + 60 * width
      ensures TimesFit(start, end, width)
    {
      StampParts(start, day, separator, a);
      StampParts(end, day, separator, b);
      TenCharacters(start);
      TenCharacters(end);
      SameStart(start, end);
      SpanOrders(start, end);
    }
  }

  lemma TenCharacters(v: string)
    requires ValidBarTime(v)
    ensures |v| == 19 && ValidClockTime(v[11..])
  {
  }

  lemma SameDay(start: string, end: string, day: int, other: int, second: nat)
    requires ValidBarTime(start) && ValidBarTime(end) && start[..10] == end[..10] && start[10] == end[10]
    requires IsStamp(start, day, start[10], SecondsOf(start[11..])) && IsStamp(end, other, end[10], second)
    ensures IsStamp(end, day, start[10], second)
  {
    hide CivilFromDays, DateFromEpochDays, ClockText, ValidIsoDate, ValidClockTime, SecondsOf;
    StampParts(start, day, start[10], SecondsOf(start[11..]));
    StampParts(end, other, end[10], second);
  }

  /** Neither the first nor the last price is below the low or above the high. */
  predicate PricesFit(b: Bar) {
    b.low <= b.open && b.low <= b.close && b.open <= b.high && b.close <= b.high
  }

  /** The constructor accepts a bar of `width` minutes exactly if its times are stamps of one day, at most `width`
      minutes apart, its prices fit, and its amount, if it has one, is not negative. */
  lemma AcceptedMeans(b: Bar, width: Width)
    ensures Accepted(b, width)
            <==> AreStamps(b.start, b.end, 60 * width) && PricesFit(b) && (b.amount.Some? ==> b.amount.value >= 0.0)
  {
    hide TimesFit, AreStamps;
    TimesMean(b.start, b.end, width);
  }

  // ---- Buckets ----------------------------------------------------------------------------------------------

  /** Digits, perhaps behind a plus sign, that show `n`. */
  predicate Shows(text: string, n: nat) {
    var digits := if text != [] && text[0] == '+' then text[1..] else text;
    digits != [] && AllDigits(digits) && Value(digits) == n
  }

  /** A date, a space, an hour and a minute with a colon between, and nothing more or a colon and more. */
  predicate IsMinuteStamp(v: string, date: string, hour: string, minute: string, rest: string) {
    && ' ' !in date && v == date + " " + (hour + ":" + (minute + rest)) && (rest != [] ==> rest[0] == ':')
  }

  lemma NumbersMean(text: string, n: nat, maximum: nat)
    ensures ParseUnsigned(text, maximum) == Some(n) <==> Shows(text, n) && n <= maximum
  {
    hide Value;
  }

  lemma NoColonInNumber(text: string, n: nat)
    requires Shows(text, n)
    ensures ':' !in text
  {
    hide Value;
    if text != [] && text[0] == '+' {
      assert text == [text[0]] + text[1..];
    }
  }

  /** The first field of a text that begins with one. */
  lemma {:induction false} FirstFieldOf(field: string, rest: string)
    requires ':' !in field && (rest != [] ==> rest[0] == ':')
    ensures Split(field + rest, ':')[0] == field
  {
    if field == [] {
      assert field + rest == rest;
    } else {
      FirstFieldOf(field[1..], rest);
      assert (field + rest)[1..] == field[1..] + rest;
      assert field == [field[0]] + field[1..];
    }
  }

  /** And what is behind it. */
  lemma {:induction false} BehindFirstField(s: string) returns (rest: string)
    ensures s == Split(s, ':')[0] + rest && (rest != [] ==> rest[0] == ':')
    ensures rest == [] <==> |Split(s, ':')| == 1
    ensures rest != [] ==> Split(rest[1..], ':') == Split(s, ':')[1..]
  {
    if s == [] || s[0] == ':' {
      rest := s;
    } else {
      rest := BehindFirstField(s[1..]);
      assert s == [s[0]] + s[1..];
    }
  }

  /** A time has a bucket exactly if it is a minute stamp of an hour up to 23 and a minute up to 59; the bucket is that
      of its date and of the stretch of `width` minutes it lies in. */
  lemma BucketsMean(v: string, width: Width, key: string, minuteOfDay: nat)
    ensures MinuteBucket(v, width) == Ok((key, minuteOfDay))
            <==> exists date, hour, minute, rest, h: nat, m: nat ::
                   && IsMinuteStamp(v, date, hour, minute, rest) && Shows(hour, h) && Shows(minute, m)
                   && h <= 23 && m <= 59 && minuteOfDay == 60 * h + m
                   && key == date + ":" + Numeral(Slot(minuteOfDay, width))
  {
    hide MinuteBucket, IsMinuteStamp, Numeral, Shows, Slot;
    if MinuteBucket(v, width) == Ok((key, minuteOfDay)) {
      var date, hour, minute, rest, h, m := BucketedIsMinuteStamp(v, width);
    }
    forall date, hour, minute, rest, h: nat, m: nat |
      && IsMinuteStamp(v, date, hour, minute, rest) && Shows(hour, h) && Shows(minute, m)
      && h <= 23 && m <= 59 && minuteOfDay == 60 * h + m
      && key == date + ":" + Numeral(Slot(minuteOfDay, width))
      ensures MinuteBucket(v, width) == Ok((key, minuteOfDay))
    {
      StampHasBucket(v, width, date, hour, minute, rest, h, m);
    }
  }

  lemma BucketedIsMinuteStamp(v: string, width: Width)
    returns (date: string, hour: string, minute: string, rest: string, h: nat, m: nat)
    requires MinuteBucket(v, width).Ok?
    ensures IsMinuteStamp(v, date, hour, minute, rest) && Shows(hour, h) && Shows(minute, m) && h <= 23 && m <= 59
    ensures MinuteBucket(v, width).value == (date + ":" + Numeral(Slot(60 * h + m, width)), 60 * h + m)
  {
    hide SplitOnce, Split, ParseUnsigned, Numeral, Shows, Slot;
    var time := SplitOnce(v, ' ').value.1;
    date := SplitOnce(v, ' ').value.0;
    var behind := BehindFirstField(time);
    rest := BehindFirstField(behind[1..]);
    hour, minute := Split(time, ':')[0], Split(time, ':')[1];
    h, m := ParseUnsigned(hour, 65_535).value, ParseUnsigned(minute, 65_535).value;
    NumbersMean(hour, h, 65_535);
    NumbersMean(minute, m, 65_535);
    assert behind == ":" + behind[1..];
    assert time == hour + ":" + (minute + rest);
  }

  lemma StampHasBucket(
    v: string, width: Width, date: string, hour: string, minute: string, rest: string, h: nat, m: nat
  )
    requires IsMinuteStamp(v, date, hour, minute, rest) && Shows(hour, h) && Shows(minute, m) && h <= 23 && m <= 59
    ensures MinuteBucket(v, width) == Ok((date + ":" + Numeral(Slot(60 * h + m, width)), 60 * h + m))
  {
    hide SplitOnce, Split, ParseUnsigned, Numeral, Shows, Slot;
    SplitOnceAt(date, ' ', hour + ":" + (minute + rest));
    NoColonInNumber(hour, h);
    NoColonInNumber(minute, m);
    SplitFirst(hour, ':', minute + rest);
    FirstFieldOf(minute, rest);
    NumbersMean(hour, h, 65_535);
    NumbersMean(minute, m, 65_535);
  }
}
