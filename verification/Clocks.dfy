/** Clock texts of the form hh:mm:ss: how seconds of the day are printed, checked, read and compared. */
module Clocks {
  import opened Texts
  import opened Decimals

  const DAY_SECONDS := 86400

  /** The clock text of a second of the day. */
  function ClockText(second: nat): string {
    Padded(second / 3600, 2) + ":" + Padded(second / 60 % 60, 2) + ":" + Padded(second % 60, 2)
  }

  predicate IsClockShaped(v: string) {
    && |v| == 8 && v[2] == ':' && v[5] == ':'
    && forall i | 0 <= i < 8 && i != 2 && i != 5 :: IsDigit(v[i])
  }

  predicate ValidClockTime(v: string) {
    && IsClockShaped(v)
    && Value(v[0..2]) < 24 && Value(v[3..5]) < 60 && Value(v[6..8]) < 60
  }

  function SecondsOf(v: string): nat
    requires ValidClockTime(v)
  {
    3600 * Value(v[0..2]) + 60 * Value(v[3..5]) + Value(v[6..8])
  }

  // ---- What the check accepts -----------------------------------------------------------------------

  lemma ThreeFields(x: string, y: string, z: string)
    requires AllDigits(x) && AllDigits(y) && AllDigits(z) && |x| == |y| == |z| == 2
    ensures var v := x + ":" + y + ":" + z;
            IsClockShaped(v) && v[0..2] == x && v[3..5] == y && v[6..8] == z
  {
    var v := x + ":" + y + ":" + z;
    assert v[0..2] == x && v[3..5] == y && v[6..8] == z;
    forall i | 0 <= i < 8 && i != 2 && i != 5 ensures IsDigit(v[i]) {
      assert v[i] == if i < 2 then x[i] else if i < 5 then y[i - 3] else z[i - 6];
    }
  }

  lemma FieldsOf(v: string)
    requires IsClockShaped(v)
    ensures v == v[0..2] + ":" + v[3..5] + ":" + v[6..8]
  {
  }

  /** A printed clock text passes the check and reads as its second. */
  lemma ClockTextIsValid(second: nat)
    requires second < DAY_SECONDS
    ensures ValidClockTime(ClockText(second)) && SecondsOf(ClockText(second)) == second
  {
    hide Padded, Value, ClockParts, ClockText, IsClockShaped;
    var (h, m, s) := ClockParts(second);
    ClockPartsCompare(second, second);
    ClockTextParts(second);
    TwoDigitTextsCompare(h, m);
    TwoDigitTextsCompare(s, s);
    ThreeFields(Padded(h, 2), Padded(m, 2), Padded(s, 2));
    PaddedParses(h, 2);
    PaddedParses(m, 2);
    PaddedParses(s, 2);
  }

  /** What the check accepts are the printed texts of the seconds of a day. */
  lemma ValidClockTimeIsASecond(v: string)
    requires ValidClockTime(v)
    ensures SecondsOf(v) < DAY_SECONDS && v == ClockText(SecondsOf(v))
  {
    hide Padded, Value, ClockText;
    var h, m, s := Value(v[0..2]), Value(v[3..5]), Value(v[6..8]);
    FieldRoundTrip(v[0..2]);
    FieldRoundTrip(v[3..5]);
    FieldRoundTrip(v[6..8]);
    FieldsOf(v);
    PartsOfSum(h, m, s);
    ClockTextParts(3600 * h + 60 * m + s);
  }

  /** The check accepts exactly the printed texts of the seconds of a day, and each reads as its second. */
  lemma ClockCheckIsExact(v: string)
    ensures ValidClockTime(v) <==> exists second: nat :: second < DAY_SECONDS && v == ClockText(second)
    ensures ValidClockTime(v) ==> SecondsOf(v) < DAY_SECONDS && v == ClockText(SecondsOf(v))
    ensures forall second: nat | second < DAY_SECONDS && v == ClockText(second) :: SecondsOf(v) == second
  {
    hide ValidClockTime, ClockText, SecondsOf;
    if ValidClockTime(v) {
      ValidClockTimeIsASecond(v);
    }
    forall second: nat | second < DAY_SECONDS && v == ClockText(second)
      ensures ValidClockTime(v) && SecondsOf(v) == second
    {
      ClockTextIsValid(second);
    }
  }

  lemma PartsOfSum(h: nat, m: nat, s: nat)
    requires m < 60 && s < 60
    ensures ClockParts(3600 * h + 60 * m + s) == (h, m, s)
  {
    var n := 3600 * h + 60 * m + s;
    assert n / 60 == 60 * h + m && n % 60 == s;
    assert (60 * h + m) / 60 == h && (60 * h + m) % 60 == m;
    assert n / 3600 == h;
  }

  // ---- Order --------------------------------------------------------------------------------------------

  lemma ClockTextsCompare(a: nat, b: nat)
    requires a < 86400 && b < 86400
    ensures Before(ClockText(a), ClockText(b)) <==> a < b
    ensures ClockText(a) == ClockText(b) <==> a == b
  {
    hide ClockText, Before;
    ClockTextsAscend(a, b);
    ClockTextsAscend(b, a);
    BeforeIsTotal(ClockText(a), ClockText(b));
  }

  lemma ClockTextsAscend(a: nat, b: nat)
    requires a < 86400 && b < 86400
    ensures Before(ClockText(a), ClockText(b)) <==> a < b
  {
    hide Before, Padded, ClockParts;
    ClockPartsCompare(a, b);
    var (h, m, s) := ClockParts(a);
    var (h', m', s') := ClockParts(b);
    TwoDigitTextsCompare(h, h');
    TwoDigitTextsCompare(m, m');
    TwoDigitTextsCompare(s, s');
    ThreePartsCompare(Padded(h, 2), Padded(m, 2), Padded(s, 2), Padded(h', 2), Padded(m', 2), Padded(s', 2));
    ClockTextParts(a);
    ClockTextParts(b);
  }

  function ClockParts(second: nat): (nat, nat, nat) {
    (second / 3600, second / 60 % 60, second % 60)
  }

  lemma ClockTextParts(second: nat)
    ensures var (h, m, s) := ClockParts(second); ClockText(second) == Padded(h, 2) + ":" + Padded(m, 2) + ":" + Padded(s, 2)
  {
  }

  lemma ClockPartsCompare(a: nat, b: nat)
    requires a < 86400 && b < 86400
    ensures var (h, m, s) := ClockParts(a); h < 24 && m < 60 && s < 60 && a == 3600 * h + 60 * m + s
    ensures var (h, m, s) := ClockParts(b); h < 24 && m < 60 && s < 60
    ensures var ((h, m, s), (h', m', s')) := (ClockParts(a), ClockParts(b));
            a < b <==> h < h' || (h == h' && (m < m' || (m == m' && s < s')))
  {
    assert a == 3600 * (a / 3600) + 60 * (a / 60 % 60) + a % 60;
    assert b == 3600 * (b / 3600) + 60 * (b / 60 % 60) + b % 60;
  }

  lemma ThreePartsCompare(x: string, y: string, z: string, x': string, y': string, z': string)
    requires |x| == |x'| && |y| == |y'|
    ensures Before(x + ":" + y + ":" + z, x' + ":" + y' + ":" + z')
            <==> Before(x, x') || (x == x' && (Before(y, y') || (y == y' && Before(z, z'))))
  {
    hide Before;
    var rest, rest' := y + (":" + z), y' + (":" + z');
    assert x + ":" + y + ":" + z == x + (":" + rest) && x' + ":" + y' + ":" + z' == x' + (":" + rest');
    BeforeByParts(x, ":" + rest, x', ":" + rest');
    BeforeByParts(":", rest, ":", rest');
    BeforeByParts(y, ":" + z, y', ":" + z');
    BeforeByParts(":", z, ":", z');
    BeforeIsTotal(":", ":");
  }

  lemma TwoDigitTextsCompare(a: nat, b: nat)
    requires a < 100 && b < 100
    ensures |Padded(a, 2)| == |Padded(b, 2)| == 2
    ensures Before(Padded(a, 2), Padded(b, 2)) <==> a < b
    ensures Padded(a, 2) == Padded(b, 2) <==> a == b
  {
    hide Padded, Before, Value;
    PaddedLength(a, 2);
    PaddedLength(b, 2);
    PaddedParses(a, 2);
    PaddedParses(b, 2);
    DigitsCompare(Padded(a, 2), Padded(b, 2));
  }

  lemma ClockTextOf(second: nat, hours: nat, minutes: nat, text: string)
    requires hours < 24 && minutes < 60 && second == 3600 * hours + 60 * minutes
    requires text == [DigitChar(hours / 10), DigitChar(hours % 10), ':', DigitChar(minutes / 10), DigitChar(minutes % 10)]
                     + ":00"
    ensures ClockText(second) == text
  {
    hide Padded, ClockText, ClockParts, DigitChar;
    TwoDigits(hours);
    TwoDigits(minutes);
    TwoDigits(0);
    PartsOfSum(hours, minutes, 0);
    ClockTextParts(second);
    ZeroDigit();
  }

  lemma ZeroDigit()
    ensures DigitChar(0 / 10) == DigitChar(0 % 10) == '0'
  {
  }
}
