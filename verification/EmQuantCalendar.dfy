/** The EMQuant adapter's calendar: dates from epoch days by closed form, and the calendar they are proved against. */
module EmQuantCalendar {
  import opened Decimals

  datatype Date = Date(year: int, month: int, day: int)

  /** Integer division as Rust computes it: toward zero. */
  function TruncDiv(a: int, b: int): int
    requires b > 0
  {
    if a >= 0 then a / b else -(-a / b)
  }

  function CivilFromDays(days: int): Date {
    var z := days + 719_468;
    var era := TruncDiv(if z >= 0 then z else z - 146_096, 146_097);
    DateInEra(era, z - era * 146_097)
  }

  /** The date of a day of a 400-year era. */
  function DateInEra(era: int, dayOfEra: int): Date {
    var yearOfEra := TruncDiv(
      dayOfEra - TruncDiv(dayOfEra, 1_460) + TruncDiv(dayOfEra, 36_524) - TruncDiv(dayOfEra, 146_096), 365);
    var dayOfYear := dayOfEra - (365 * yearOfEra + TruncDiv(yearOfEra, 4) - TruncDiv(yearOfEra, 100));
    DateInYear(yearOfEra + era * 400, dayOfYear)
  }

  /** The date of a day of a year that starts in March. */
  function DateInYear(year: int, dayOfYear: int): Date {
    var monthPrime := TruncDiv(5 * dayOfYear + 2, 153);
    var day := dayOfYear - TruncDiv(153 * monthPrime + 2, 5) + 1;
    var month := monthPrime + if monthPrime < 10 then 3 else -9;
    Date(year + if month <= 2 then 1 else 0, month, day)
  }

  /** Four columns for the year; a minus sign takes one of them. */
  function YearText(year: int): string {
    if year >= 0 then Padded(year, 4) else "-" + Padded(-year, 3)
  }

  function DateText(d: Date): string
    requires d.month >= 0 && d.day >= 0
  {
    YearText(d.year) + "-" + Padded(d.month, 2) + "-" + Padded(d.day, 2)
  }

  // ---- The reference calendar ----------------------------------------------------------------

  predicate IsLeap(year: int) {
    year % 4 == 0 && (year % 100 != 0 || year % 400 == 0)
  }

  function DaysInMonth(year: int, month: int): int {
    if month in {1, 3, 5, 7, 8, 10, 12} then 31
    else if month in {4, 6, 9, 11} then 30
    else if month == 2 then (if IsLeap(year) then 29 else 28)
    else 0
  }

  predicate IsDate(d: Date) {
    1 <= d.month <= 12 && 1 <= d.day <= DaysInMonth(d.year, d.month)
  }

  function NextDay(d: Date): Date {
    if d.day < DaysInMonth(d.year, d.month) then Date(d.year, d.month, d.day + 1)
    else if d.month < 12 then Date(d.year, d.month + 1, 1)
    else Date(d.year + 1, 1, 1)
  }

  function PreviousDay(d: Date): Date {
    if d.day > 1 then Date(d.year, d.month, d.day - 1)
    else if d.month > 1 then Date(d.year, d.month - 1, DaysInMonth(d.year, d.month - 1))
    else Date(d.year - 1, 12, 31)
  }

  /** The date `n` days after 1970-01-01, one day at a time. */
  function DateAfter(n: int): Date
    decreases if n >= 0 then n else -n
  {
    if n == 0 then Date(1970, 1, 1)
    else if n > 0 then NextDay(DateAfter(n - 1))
    else PreviousDay(DateAfter(n + 1))
  }

  // ---- Years that start in March ----------------------------------------------------------------

  /** The first day of March-based year `y` of an era. */
  function YearStart(y: int): int {
    365 * y + y / 4 - y / 100 + y / 400
  }

  function MonthStart(m: int): int {
    (153 * m + 2) / 5
  }

  /** Day `n` of the March-based year `y`. */
  function MarchDate(y: int, n: int): Date {
    var m := (5 * n + 2) / 153;
    var month := if m < 10 then m + 3 else m - 9;
    Date(if month <= 2 then y + 1 else y, month, n - MonthStart(m) + 1)
  }

  function MarchYearLength(y: int): int {
    if IsLeap(y + 1) then 366 else 365
  }

  lemma EraIsFloor(z: int)
    ensures TruncDiv(if z >= 0 then z else z - 146_096, 146_097) == z / 146_097
  {
  }

  /** The closed form for the year of the era is the year whose days contain `n`. */
  lemma YearOfEraBrackets(n: int) returns (y: int)
    requires 0 <= n < 146_097
    ensures y == (n - n / 1_460 + n / 36_524 - n / 146_096) / 365
    ensures 0 <= y < 400 && YearStart(y) <= n < YearStart(y + 1)
  {
    var c := if n == 146_096 then 3 else n / 36_524;
    var r := n - 36_524 * c;
    var q := if r == 36_524 then 24 else r / 1_461;
    var t := r - 1_461 * q;
    var k := if t >= 1_460 then 3 else t / 365;
    y := 100 * c + 4 * q + k;
    YearInCentury(c, q, t, k, n);
  }

  lemma YearInCentury(c: int, q: int, t: int, k: int, n: int)
    requires 0 <= c < 4 && 0 <= q < 25 && 0 <= t <= 1_460 && n == 36_524 * c + 1_461 * q + t
    requires q == 24 && c < 3 ==> t < 1_460
    requires 0 <= k < 4 && 365 * k <= t && (t < 365 * (k + 1) || (k == 3 && t == 1_460))
    ensures (n - n / 1_460 + n / 36_524 - n / 146_096) / 365 == 100 * c + 4 * q + k
    ensures var y := 100 * c + 4 * q + k; YearStart(y) <= n < YearStart(y + 1)
  {
    var e := if 24 * c + q + t >= 1_460 then 1 else 0;
    assert n / 1_460 == 25 * c + q + e;
    var last := if n == 146_096 then 1 else 0;
    assert n / 146_096 == last;
    assert n / 36_524 == c + last;
    assert n - n / 1_460 + n / 36_524 - n / 146_096 == 365 * (100 * c + 4 * q) + t - e;
    YearInCenturyStarts(c, q, k);
    if k < 3 {
      YearInCenturyStarts(c, q, k + 1);
    } else {
      NextFourYears(c, q);
    }
  }

  lemma YearInCenturyStarts(c: int, q: int, k: int)
    requires 0 <= c < 4 && 0 <= q < 25 && 0 <= k < 4
    ensures YearStart(100 * c + 4 * q + k) == 36_524 * c + 1_461 * q + 365 * k
  {
    var y := 100 * c + 4 * q + k;
    assert y / 4 == 25 * c + q && y / 100 == c && y / 400 == 0;
  }

  lemma NextFourYears(c: int, q: int)
    requires 0 <= c < 4 && 0 <= q < 25
    ensures YearStart(100 * c + 4 * q + 4) == 36_524 * c + 1_461 * q + 1_460 + if q < 24 || c == 3 then 1 else 0
  {
    if q < 24 {
      YearInCenturyStarts(c, q + 1, 0);
    } else if c < 3 {
      YearInCenturyStarts(c + 1, 0, 0);
    }
  }

  lemma DivStep(y: int)
    ensures (y + 1) / 4 == y / 4 + if (y + 1) % 4 == 0 then 1 else 0
    ensures (y + 1) / 100 == y / 100 + if (y + 1) % 100 == 0 then 1 else 0
    ensures (y + 1) / 400 == y / 400 + if (y + 1) % 400 == 0 then 1 else 0
  {
  }

  lemma YearLength(y: int)
    ensures YearStart(y + 1) - YearStart(y) == MarchYearLength(y)
  {
    DivStep(y);
    assert (y + 1) % 100 == 0 ==> (y + 1) % 4 == 0;
    assert (y + 1) % 400 == 0 ==> (y + 1) % 100 == 0;
  }

  /** Stepping one day inside a March-based year, and over its end. */
  lemma MarchStep(y: int, n: int)
    requires 0 <= n < MarchYearLength(y)
    ensures IsDate(MarchDate(y, n))
    ensures NextDay(MarchDate(y, n)) == if n + 1 < MarchYearLength(y) then MarchDate(y, n + 1) else MarchDate(y + 1, 0)
  {
  }

  lemma BackAgain(d: Date)
    requires IsDate(d)
    ensures PreviousDay(NextDay(d)) == d
  {
  }

  lemma {:induction false} YearsAscend(a: int, b: int)
    requires a <= b
    ensures YearStart(a) + 365 * (b - a) <= YearStart(b)
    decreases b - a
  {
    if a < b {
      YearLength(b - 1);
      YearsAscend(a, b - 1);
    }
  }

  /** The March-based year that contains day `z`. */
  lemma YearOf(z: int) returns (y: int)
    ensures YearStart(y) <= z < YearStart(y + 1)
    ensures CivilFromDays(z - 719_468) == MarchDate(y, z - YearStart(y))
  {
    hide MarchDate, DateInEra, YearStart;
    var era, n := z / 146_097, z % 146_097;
    EraIsFloor(z);
    var k := YearOfEraBrackets(n);
    y := k + 400 * era;
    WholeEras(k, era);
    WholeEras(k + 1, era);
    ClosedForm(era, n, k);
    assert z - 719_468 + 719_468 == z == 146_097 * era + n;
  }

  lemma WholeEras(k: int, era: int)
    ensures YearStart(k + 400 * era) == YearStart(k) + 146_097 * era
  {
    assert (k + 400 * era) / 4 == k / 4 + 100 * era;
    assert (k + 400 * era) / 100 == k / 100 + 4 * era;
    assert (k + 400 * era) / 400 == k / 400 + era;
  }

  lemma ClosedForm(era: int, n: int, k: int)
    requires 0 <= n < 146_097
    requires k == (n - n / 1_460 + n / 36_524 - n / 146_096) / 365
    requires 0 <= k < 400 && YearStart(k) <= n < YearStart(k + 1)
    ensures DateInEra(era, n) == MarchDate(k + 400 * era, n - YearStart(k))
  {
    hide MarchDate, DateInYear, TruncDiv, YearStart;
    var numerator := n - n / 1_460 + n / 36_524 - n / 146_096;
    TruncIsFloor(n, 1_460);
    TruncIsFloor(n, 36_524);
    TruncIsFloor(n, 146_096);
    NonNegative(numerator, k);
    TruncIsFloor(numerator, 365);
    TruncIsFloor(k, 4);
    TruncIsFloor(k, 100);
    YearStartInEra(k);
    MonthsAgree(k + 400 * era, n - YearStart(k));
  }

  lemma TruncIsFloor(a: nat, b: int)
    requires b > 0
    ensures TruncDiv(a, b) == a / b
  {
  }

  lemma NonNegative(numerator: int, k: nat)
    requires k == numerator / 365
    ensures numerator >= 0
  {
  }

  lemma YearStartInEra(k: nat)
    requires k < 400
    ensures YearStart(k) == 365 * k + k / 4 - k / 100
  {
  }

  lemma MonthsAgree(y: int, n: nat)
    ensures DateInYear(y, n) == MarchDate(y, n)
  {
    var m := (5 * n + 2) / 153;
    assert TruncDiv(5 * n + 2, 153) == m >= 0;
  }

  lemma SameYear(z: int, a: int, b: int)
    requires YearStart(a) <= z < YearStart(a + 1) && YearStart(b) <= z < YearStart(b + 1)
    ensures a == b
  {
    if a < b {
      YearsAscend(a + 1, b);
    } else if b < a {
      YearsAscend(b + 1, a);
    }
  }

  /** One more epoch day is one day later on the calendar, and back. */
  lemma CivilStep(days: int)
    ensures IsDate(CivilFromDays(days))
    ensures CivilFromDays(days + 1) == NextDay(CivilFromDays(days))
    ensures CivilFromDays(days) == PreviousDay(CivilFromDays(days + 1))
  {
    hide CivilFromDays, MarchDate, IsDate, NextDay, PreviousDay, YearStart, MarchYearLength;
    var z := days + 719_468;
    var y := YearOf(z);
    var y' := YearOf(z + 1);
    YearLength(y);
    MarchStep(y, z - YearStart(y));
    BackAgain(MarchDate(y, z - YearStart(y)));
    if z + 1 < YearStart(y + 1) {
      SameYear(z + 1, y, y');
    } else {
      YearLength(y + 1);
      LongYear(y + 1);
      SameYear(z + 1, y + 1, y');
    }
  }

  lemma LongYear(y: int)
    ensures MarchYearLength(y) >= 365
  {
  }

  /** The closed form is the calendar: for every day count, negative ones included, it is the date
      reached from 1970-01-01 one day at a time. */
  lemma {:induction false} CivilFromDaysIsCalendar(n: int)
    ensures CivilFromDays(n) == DateAfter(n) && IsDate(DateAfter(n))
    decreases if n >= 0 then n else -n
  {
    hide CivilFromDays, NextDay, PreviousDay, IsDate;
    CivilStep(n);
    if n == 0 {
      Epoch();
    } else if n > 0 {
      CivilStep(n - 1);
      CivilFromDaysIsCalendar(n - 1);
    } else {
      CivilFromDaysIsCalendar(n + 1);
    }
  }

  lemma Epoch()
    ensures CivilFromDays(0) == Date(1970, 1, 1)
  {
  }
}
