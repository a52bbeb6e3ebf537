/** Decimal numerals: how numbers are printed, padded and read back. */
module Decimals {
  import opened Wrappers
  import opened Texts

  function DigitChar(d: nat): (c: char)
    requires d < 10
    ensures IsDigit(c) && DigitValue(c) == d
  {
    ('0' as int + d) as char
  }

  function DigitValue(c: char): (d: nat)
    requires IsDigit(c)
    ensures d < 10
  {
    c as int - '0' as int
  }

  /** The decimal numeral of `n`, without leading zeros. */
  function Numeral(n: nat): (s: string)
    ensures s != [] && AllDigits(s)
  {
    if n < 10 then [DigitChar(n)] else Numeral(n / 10) + [DigitChar(n % 10)]
  }

  /** The value of a string of digits. */
  function Value(s: string): nat
    requires AllDigits(s)
  {
    if s == [] then 0 else 10 * Value(s[..|s| - 1]) + DigitValue(s[|s| - 1])
  }

  /** Rust's unsigned integer parser: an optional plus sign, then at least one digit, no overflow. */
  function ParseUnsigned(s: string, maximum: nat): Option<nat> {
    var digits := if s != [] && s[0] == '+' then s[1..] else s;
    if digits == [] || !AllDigits(digits) || Value(digits) > maximum then None else Some(Value(digits))
  }

  function Zeros(n: nat): (s: string)
    ensures |s| == n && AllDigits(s)
  {
    seq(n, _ => '0')
  }

  /** `n` printed with at least `width` digits. */
  function Padded(n: nat, width: nat): (s: string)
    ensures |s| >= width && AllDigits(s)
  {
    var s := Numeral(n);
    if |s| < width then Zeros(width - |s|) + s else s
  }

  lemma {:induction false} ValueOfNumeral(n: nat)
    ensures Value(Numeral(n)) == n
    ensures n > 0 ==> Numeral(n)[0] != '0'
  {
    if n >= 10 {
      ValueOfNumeral(n / 10);
      assert Numeral(n)[..|Numeral(n)| - 1] == Numeral(n / 10);
    }
  }

  /** A numeral printed without leading zeros is the numeral of its value. */
  lemma {:induction false} NumeralOfValue(s: string)
    requires s != [] && AllDigits(s) && (s[0] != '0' || |s| == 1)
    ensures Numeral(Value(s)) == s
    ensures s[0] != '0' ==> Value(s) > 0
  {
    hide Numeral, Value;
    var init, last := s[..|s| - 1], s[|s| - 1];
    LastDigit(s);
    if init == [] {
      OneDigit(last);
    } else {
      NumeralOfValue(init);
      NumeralEnds(Value(init), DigitValue(last));
      assert s == init + [last];
    }
  }

  lemma LastDigit(s: string)
    requires s != [] && AllDigits(s)
    ensures Value(s) == 10 * Value(s[..|s| - 1]) + DigitValue(s[|s| - 1])
    ensures |s| == 1 ==> Value(s) == DigitValue(s[0])
  {
    assert |s| == 1 ==> Value(s[..0]) == 0;
  }

  lemma OneDigit(c: char)
    requires IsDigit(c)
    ensures Numeral(DigitValue(c)) == [c]
    ensures c != '0' ==> DigitValue(c) > 0
  {
  }

  lemma NumeralEnds(n: nat, d: nat)
    requires n > 0 && d < 10
    ensures Numeral(10 * n + d) == Numeral(n) + [DigitChar(d)]
  {
    assert (10 * n + d) / 10 == n && (10 * n + d) % 10 == d;
  }

  lemma {:induction false} LeadingZeros(k: nat, s: string)
    requires AllDigits(s)
    ensures AllDigits(Zeros(k) + s) && Value(Zeros(k) + s) == Value(s)
    decreases k + |s|
  {
    var z := Zeros(k) + s;
    if s != [] {
      assert z[..|z| - 1] == Zeros(k) + s[..|s| - 1];
      LeadingZeros(k, s[..|s| - 1]);
    } else if k > 0 {
      assert z[..|z| - 1] == Zeros(k - 1) + s;
      LeadingZeros(k - 1, s);
    }
  }

  lemma TwoDigits(n: nat)
    requires n < 100
    ensures Padded(n, 2) == [DigitChar(n / 10), DigitChar(n % 10)]
  {
    if n >= 10 {
      assert Numeral(n / 10) == [DigitChar(n / 10)];
    }
  }

  lemma NumeralStep(n: nat)
    ensures Numeral(n) == if n < 10 then [DigitChar(n)] else Numeral(n / 10) + [DigitChar(n % 10)]
  {
  }

  lemma UpToThreeDigits(n: nat)
    requires n < 1000
    ensures Padded(n, 3) == [DigitChar(n / 100), DigitChar(n / 10 % 10), DigitChar(n % 10)]
    ensures n >= 100 ==> Numeral(n) == Padded(n, 3)
  {
    hide Numeral;
    NumeralStep(n);
    NumeralStep(n / 10);
    NumeralStep(n / 100);
    assert n / 10 / 10 == n / 100;
  }

  lemma FourDigits(n: nat)
    requires n < 10000
    ensures Padded(n, 4) == [DigitChar(n / 1000), DigitChar(n / 100 % 10), DigitChar(n / 10 % 10), DigitChar(n % 10)]
  {
    hide Numeral;
    if n < 1000 {
      UpToThreeDigits(n);
      MorePadding(n);
    } else {
      NumeralStep(n);
      UpToThreeDigits(n / 10);
      assert n / 10 / 100 == n / 1000 && n / 10 / 10 == n / 100;
    }
  }

  lemma MorePadding(n: nat)
    requires |Padded(n, 3)| == 3
    ensures Padded(n, 4) == ['0'] + Padded(n, 3)
  {
    hide Numeral;
  }

  lemma {:induction false} LongNumeral(n: nat)
    requires n >= 10000
    ensures |Numeral(n)| >= 5
  {
    assert n / 10 >= 1000 && n / 10 / 10 >= 100 && n / 10 / 10 / 10 >= 10 && n / 10 / 10 / 10 / 10 >= 1;
    assert |Numeral(n / 10 / 10 / 10)| >= 2;
    assert |Numeral(n / 10 / 10)| >= 3;
    assert |Numeral(n / 10)| >= 4;
  }

  /** Greater numbers are printed no shorter. */
  lemma {:induction false} NumeralsGrow(m: nat, n: nat)
    requires m <= n
    ensures |Numeral(m)| <= |Numeral(n)|
  {
    if m >= 10 {
      NumeralsGrow(m / 10, n / 10);
    }
  }

  lemma PaddedParses(n: nat, width: nat)
    ensures Value(Padded(n, width)) == n
  {
    ValueOfNumeral(n);
    if |Numeral(n)| < width {
      LeadingZeros(width - |Numeral(n)|, Numeral(n));
    }
  }

  /** Digit strings of one length are equal, or ordered, as their values are. */
  lemma {:induction false} DigitsCompare(a: string, b: string)
    requires |a| == |b| && AllDigits(a) && AllDigits(b)
    ensures Before(a, b) <==> Value(a) < Value(b)
    ensures a == b <==> Value(a) == Value(b)
  {
    if a != [] {
      var n := |a| - 1;
      DigitsCompare(a[..n], b[..n]);
      assert a == a[..n] + [a[n]] && b == b[..n] + [b[n]];
      BeforeByParts(a[..n], [a[n]], b[..n], [b[n]]);
    }
  }

  lemma PaddedLength(n: nat, width: nat)
    ensures n < 100 && width == 2 ==> |Padded(n, 2)| == 2
    ensures n < 10000 && width == 4 ==> |Padded(n, 4)| == 4
    ensures n >= 10000 ==> |Padded(n, width)| >= 5
  {
    if n < 100 {
      TwoDigits(n);
    }
    if n < 10000 {
      FourDigits(n);
    } else {
      LongNumeral(n);
    }
  }

  lemma DigitsParse(s: string, maximum: nat)
    requires s != [] && AllDigits(s)
    ensures ParseUnsigned(s, maximum) == if Value(s) <= maximum then Some(Value(s)) else None
  {
    hide Value;
    assert IsDigit(s[0]);
  }

  lemma {:induction false} ValueBound(s: string)
    requires AllDigits(s)
    ensures |s| == 2 ==> Value(s) < 100
    ensures |s| == 4 ==> Value(s) < 10000
  {
    if |s| == 2 || |s| == 4 {
      assert Value(s[..1]) < 10;
      assert s[..2][..1] == s[..1] && Value(s[..2]) < 100;
      if |s| == 4 {
        assert s[..3][..2] == s[..2] && Value(s[..3]) < 1000;
      } else {
        assert s[..2] == s;
      }
    }
  }

  /** Reading a fixed-width field and printing it again gives the field. */
  lemma FieldRoundTrip(s: string)
    requires AllDigits(s) && (|s| == 2 || |s| == 4)
    ensures Padded(Value(s), |s|) == s
  {
    hide Padded;
    ValueBound(s);
    PaddedLength(Value(s), |s|);
    PaddedParses(Value(s), |s|);
    DigitsCompare(Padded(Value(s), |s|), s);
  }

  lemma PaddedCompare(a: nat, b: nat, width: nat)
    requires |Padded(a, width)| == |Padded(b, width)|
    ensures Before(Padded(a, width), Padded(b, width)) <==> a < b
    ensures Padded(a, width) == Padded(b, width) <==> a == b
  {
    hide Padded;
    PaddedParses(a, width);
    PaddedParses(b, width);
    DigitsCompare(Padded(a, width), Padded(b, width));
  }
}
