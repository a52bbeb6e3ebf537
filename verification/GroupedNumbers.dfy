/** Comma-grouped decimal numbers: the exchange's strict parser and the looser source-count parser. */
module GroupedNumbers {
  import opened Decimals
  import opened Paging
  import opened Texts
  import opened Wrappers

  const MAX_EXACT := 0x20_0000_0000_0000
  const MAX_U64 := 0xFFFF_FFFF_FFFF_FFFF
  const MAX_U32 := 0xFFFF_FFFF
  const MAX_FRACTION := 6

  // ---- The parsers ------------------------------------------------------------------------------------

  predicate AllGroups(groups: seq<string>) {
    forall g | g in groups :: |g| == 3 && AllDigits(g)
  }

  /** One to three digits, then groups of exactly three. */
  predicate WellGrouped(groups: seq<string>) {
    groups != [] && 1 <= |groups[0]| <= 3 && AllDigits(groups[0]) && AllGroups(groups[1..])
  }

  function Without(s: string, c: char): string {
    if s == [] then [] else (if s[0] == c then [] else [s[0]]) + Without(s[1..], c)
  }

  function ValidateGroupedNumber(value: string, allowDecimal: bool): Option<string> {
    if value == [] || Trim(value) != value || value[0] == '-' || value[0] == '+' then None
    else
      var parts := Split(value, '.');
      if |parts| > 2 || (|parts| == 2 && (!allowDecimal || parts[1] == [] || !AllDigits(parts[1]))) then None
      else if !WellGrouped(Split(parts[0], ',')) then None
      else Some(Without(value, ','))
  }

  function ParseCount(value: string): Option<nat> {
    match ValidateGroupedNumber(value, false)
    case None => None
    case Some(normalized) =>
      match ParseUnsigned(normalized, MAX_U64)
      case None => None
      case Some(parsed) => if parsed > MAX_EXACT then None else Some(parsed)
  }

  predicate ZeroFraction(fraction: string) {
    1 <= |fraction| <= MAX_FRACTION && forall i | 0 <= i < |fraction| :: fraction[i] == '0'
  }

  /** The part before a decimal point, if what follows the point is a few zeros. */
  function IntegerPart(value: string): Option<string> {
    match SplitOnce(value, '.')
    case None => Some(value)
    case Some((integer, fraction)) => if integer != [] && ZeroFraction(fraction) then Some(integer) else None
  }

  function Canonical(integer: string): Option<string> {
    if AllDigits(integer) then Some(integer)
    else
      var groups := Split(integer, ',');
      if |groups| > 1 && WellGrouped(groups) then Some(Concat(groups)) else None
  }

  function ParseSourceCount(value: string): Option<nat> {
    match IntegerPart(value)
    case None => None
    case Some(integer) =>
      match Canonical(integer)
      case None => None
      case Some(canonical) => ParseUnsigned(canonical, MAX_U32)
  }

  // ---- What the texts mean --------------------------------------------------------------------------------

  /** The number whose digits in base one thousand are the groups. */
  function Base1000(groups: seq<string>): nat
    requires forall g | g in groups :: AllDigits(g)
  {
    if groups == [] then 0 else 1000 * Base1000(groups[..|groups| - 1]) + Value(groups[|groups| - 1])
  }

  /** Digits with a comma before every third one from the right. */
  function WithCommas(digits: string): string {
    if |digits| <= 3 then digits else WithCommas(digits[..|digits| - 3]) + "," + digits[|digits| - 3..]
  }

  function Grouped(n: nat): string {
    WithCommas(Numeral(n))
  }

  // ---- Splitting -----------------------------------------------------------------------------------------

  lemma {:induction false} SplitLast(before: string, separator: char, last: string)
    requires separator !in last
    ensures Split(before + [separator] + last, separator) == Split(before, separator) + [last]
  {
    var whole := before + [separator] + last;
    if before == [] {
      assert whole[1..] == last;
      SplitWithout(last, separator);
    } else {
      assert whole[1..] == before[1..] + [separator] + last;
      SplitLast(before[1..], separator, last);
    }
  }

  /** Removing the separators leaves the fields joined. */
  lemma {:induction false} WithoutIsConcat(s: string, separator: char)
    ensures Without(s, separator) == Concat(Split(s, separator))
  {
    hide Concat;
    if s == [] {
      ConcatOfOne([]);
    } else {
      var rest := Split(s[1..], separator);
      WithoutIsConcat(s[1..], separator);
      if s[0] == separator {
        ConcatCons([], rest);
      } else {
        LongerFirst(s[0], rest);
      }
    }
  }

  lemma ConcatOfOne(first: string)
    ensures Concat([first]) == first
  {
    assert [first][..0] == [];
  }

  lemma LongerFirst(c: char, fields: seq<string>)
    requires fields != []
    ensures Concat([[c] + fields[0]] + fields[1..]) == [c] + Concat(fields)
  {
    hide Concat;
    ConcatCons([c] + fields[0], fields[1..]);
    ConcatCons(fields[0], fields[1..]);
    assert fields == [fields[0]] + fields[1..];
  }

  lemma {:induction false} ConcatCons(first: string, rest: seq<string>)
    ensures Concat([first] + rest) == first + Concat(rest)
    decreases |rest|
  {
    var all := [first] + rest;
    if rest == [] {
      assert all[..0] == [];
    } else {
      assert all[..|all| - 1] == [first] + rest[..|rest| - 1];
      ConcatCons(first, rest[..|rest| - 1]);
    }
  }

  lemma {:induction false} FieldsOfDigits(s: string, separator: char)
    requires forall f | f in Split(s, separator) :: AllDigits(f)
    ensures forall i | 0 <= i < |s| :: IsDigit(s[i]) || s[i] == separator
  {
    if s != [] {
      var fields, rest := Split(s, separator), Split(s[1..], separator);
      assert fields[0] in fields;
      forall f | f in rest ensures AllDigits(f) {
        if s[0] == separator {
          assert fields == [""] + rest;
        } else {
          assert fields == [[s[0]] + rest[0]] + rest[1..];
          assert rest[0] == fields[0][1..];
          assert f == rest[0] || f in rest[1..];
        }
      }
      FieldsOfDigits(s[1..], separator);
      assert s[0] == separator || fields[0][0] == s[0];
      assert forall i | 1 <= i < |s| :: s[i] == s[1..][i - 1];
    }
  }

  // ---- Values ------------------------------------------------------------------------------------------------

  lemma ThreeMoreDigits(s: string, group: string)
    requires AllDigits(s) && AllDigits(group) && |group| == 3
    ensures AllDigits(s + group) && Value(s + group) == 1000 * Value(s) + Value(group)
  {
    var a, b, c := group[0], group[1], group[2];
    LastDigit(s + [a] + [b], c);
    LastDigit(s + [a], b);
    LastDigit(s, a);
    LastDigit([a] + [b], c);
    LastDigit([a], b);
    LastDigit([], a);
    assert s + group == s + [a] + [b] + [c];
    assert group == [a] + [b] + [c] && [] + [a] == [a];
  }

  lemma LastDigit(s: string, c: char)
    requires AllDigits(s) && IsDigit(c)
    ensures AllDigits(s + [c]) && Value(s + [c]) == 10 * Value(s) + DigitValue(c)
  {
    assert (s + [c])[..|s|] == s;
  }

  /** Well-grouped groups, joined, are a numeral of their base-1000 value. */
  lemma {:induction false} ConcatenatedValue(groups: seq<string>)
    requires WellGrouped(groups)
    ensures (forall g | g in groups :: AllDigits(g)) && AllDigits(Concat(groups)) && Concat(groups) != []
    ensures Value(Concat(groups)) == Base1000(groups)
    decreases |groups|
  {
    DigitsInGroups(groups);
    var init, last := groups[..|groups| - 1], groups[|groups| - 1];
    if init == [] {
      assert Concat(groups) == [] + last == last;
      assert Base1000(init) == 0;
    } else {
      assert last in groups[1..] && groups[1..][..|groups| - 2] == init[1..];
      assert init[0] == groups[0];
      ConcatenatedValue(init);
      ThreeMoreDigits(Concat(init), last);
    }
  }

  lemma DigitsInGroups(groups: seq<string>)
    requires WellGrouped(groups)
    ensures forall g | g in groups :: AllDigits(g)
  {
    assert forall g | g in groups :: g == groups[0] || g in groups[1..];
  }

  lemma {:induction false} OneField(s: string, separator: char)
    requires |Split(s, separator)| == 1
    ensures Split(s, separator) == [s]
  {
    if s != [] {
      assert s[0] != separator;
      OneField(s[1..], separator);
      assert s == [s[0]] + s[1..];
    }
  }

  // ---- What the strict parser accepts -----------------------------------------------------------------------

  /** Exactly the well-grouped texts of an exact value are accepted, and they read as their base-1000 value. */
  lemma CountsAreGroupedNumbers(s: string)
    ensures !WellGrouped(Split(s, ',')) ==> ParseCount(s) == None
    ensures WellGrouped(Split(s, ',')) ==>
              && (forall g | g in Split(s, ',') :: AllDigits(g))
              && ParseCount(s) == if Base1000(Split(s, ',')) <= 9_007_199_254_740_992 then Some(Base1000(Split(s, ','))) else None
  {
    hide Trim, Split, Without, Concat, Value, Base1000, WellGrouped, ParseUnsigned;
    if WellGrouped(Split(s, ',')) {
      WellGroupedIsValid(s);
      ConcatenatedValue(Split(s, ','));
      DigitsParse(Concat(Split(s, ',')), MAX_U64);
    } else if ValidateGroupedNumber(s, false).Some? {
      OneField(s, '.');
    }
  }

  lemma WellGroupedIsValid(s: string)
    requires WellGrouped(Split(s, ','))
    ensures ValidateGroupedNumber(s, false) == Some(Concat(Split(s, ',')))
  {
    hide Trim, Concat, Without;
    var groups := Split(s, ',');
    DigitsInGroups(groups);
    FieldsOfDigits(s, ',');
    assert s != [] && s[0] != ',' by { FirstField(s); }
    hide Split, WellGrouped;
    assert '.' !in s;
    SplitWithout(s, '.');
    TrimKeeps(s);
    WithoutIsConcat(s, ',');
  }

  /** Where a decimal point is allowed, the texts accepted are those with at most one point, a well-grouped part
      before it and digits after it; they are normalized by joining the groups. */
  lemma DecimalsAreGroupedNumbers(s: string)
    ensures var parts := Split(s, '.');
            ValidateGroupedNumber(s, true)
            == if |parts| <= 2 && WellGrouped(Split(parts[0], ',')) && (|parts| == 2 ==> parts[1] != [] && AllDigits(parts[1]))
               then Some(Concat(Split(parts[0], ',')) + if |parts| == 2 then "." + parts[1] else [])
               else None
  {
    hide Trim, Without, Concat;
    var parts := Split(s, '.');
    if |parts| == 1 {
      OneField(s, '.');
      if WellGrouped(Split(s, ',')) {
        WellGroupedIsValid(s);
        assert Concat(Split(s, ',')) + [] == Concat(Split(s, ','));
      }
    } else if |parts| == 2 && WellGrouped(Split(parts[0], ',')) && parts[1] != [] && AllDigits(parts[1]) {
      TwoFields(s, '.');
      WellGroupedStarts(parts[0]);
      DecimalsAreTrim(s, parts[0], parts[1]);
      WithoutIsConcat(parts[0], ',');
    }
  }

  lemma DecimalsAreTrim(s: string, integer: string, fraction: string)
    requires s == integer + "." + fraction
    requires integer != [] && IsDigit(integer[0]) && fraction != [] && AllDigits(fraction)
    ensures Trim(s) == s && s[0] != '-' && s[0] != '+'
    ensures Without(s, ',') == Without(integer, ',') + ("." + fraction)
  {
    hide Trim, Without;
    assert s[0] == integer[0] && s[|s| - 1] == fraction[|fraction| - 1];
    TrimKeeps(s);
    assert s == integer + ("." + fraction);
    WithoutJoins(integer, "." + fraction, ',');
    NoCommas(fraction);
    NothingWithout("." + fraction, ',');
  }

  lemma WellGroupedStarts(s: string)
    requires WellGrouped(Split(s, ','))
    ensures s != [] && IsDigit(s[0])
  {
    hide Split;
    DigitsInGroups(Split(s, ','));
    FieldsOfDigits(s, ',');
    FirstField(s);
  }

  lemma {:induction false} TwoFields(s: string, separator: char)
    requires |Split(s, separator)| == 2
    ensures s == Split(s, separator)[0] + [separator] + Split(s, separator)[1]
  {
    var rest := Split(s[1..], separator);
    assert s == [s[0]] + s[1..];
    if s[0] == separator {
      OneField(s[1..], separator);
    } else {
      TwoFields(s[1..], separator);
      assert Split(s, separator) == [[s[0]] + rest[0]] + rest[1..];
    }
  }

  lemma {:induction false} WithoutJoins(a: string, b: string, c: char)
    ensures Without(a + b, c) == Without(a, c) + Without(b, c)
  {
    if a == [] {
      assert a + b == b;
    } else {
      assert (a + b)[1..] == a[1..] + b;
      WithoutJoins(a[1..], b, c);
    }
  }

  lemma {:induction false} NothingWithout(s: string, c: char)
    requires c !in s
    ensures Without(s, c) == s
  {
    if s != [] {
      NothingWithout(s[1..], c);
    }
  }

  lemma FirstField(s: string)
    ensures Split(s, ',')[0] != [] ==> s != [] && s[0] != ','
  {
  }

  // ---- Grouped numerals --------------------------------------------------------------------------------------

  lemma NoCommas(s: string)
    requires AllDigits(s)
    ensures ',' !in s && '.' !in s
  {
  }

  /** Digits with commas split into groups, which joined are the digits. */
  lemma {:induction false} CommasSplit(digits: string)
    requires digits != [] && AllDigits(digits)
    ensures WellGrouped(Split(WithCommas(digits), ',')) && Concat(Split(WithCommas(digits), ',')) == digits
  {
    hide Split, Concat, WellGrouped;
    if |digits| <= 3 {
      NoCommas(digits);
      SplitWithout(digits, ',');
      ConcatOfOne(digits);
      OneGroup(digits);
    } else {
      var init, last := digits[..|digits| - 3], digits[|digits| - 3..];
      CommasSplit(init);
      NoCommas(last);
      SplitLast(WithCommas(init), ',', last);
      AnotherGroup(Split(WithCommas(init), ','), last);
    }
  }

  lemma OneGroup(group: string)
    requires 1 <= |group| <= 3 && AllDigits(group)
    ensures WellGrouped([group])
  {
  }

  lemma AnotherGroup(groups: seq<string>, last: string)
    requires WellGrouped(groups) && |last| == 3 && AllDigits(last)
    ensures WellGrouped(groups + [last]) && Concat(groups + [last]) == Concat(groups) + last
  {
    var more := groups + [last];
    assert more[1..] == groups[1..] + [last] && more[..|groups|] == groups;
  }

  /** Every non-empty string of digits is read with its commas as its value, if that is exact. */
  lemma CommasRead(digits: string)
    requires digits != [] && AllDigits(digits)
    ensures ParseCount(WithCommas(digits)) == if Value(digits) <= MAX_EXACT then Some(Value(digits)) else None
  {
    hide ParseCount, Split, WithCommas, WellGrouped, Base1000, Concat, Value;
    CountsAreGroupedNumbers(WithCommas(digits));
    CommasSplit(digits);
    ConcatenatedValue(Split(WithCommas(digits), ','));
  }

  /** The grouped numeral of every exact count is read back, and that of every larger number is refused. */
  lemma GroupedCountsAreReadBack(n: nat)
    ensures ParseCount(Grouped(n)) == if n <= 9_007_199_254_740_992 then Some(n) else None
  {
    hide ParseCount, WithCommas, Numeral, Value;
    ValueOfNumeral(n);
    CommasRead(Numeral(n));
  }

  // ---- One grouped form for each number ----------------------------------------------------------------------

  lemma {:induction false} JoinedCons(first: string, rest: seq<string>)
    requires rest != []
    ensures Joined([first] + rest) == first + "," + Joined(rest)
    decreases |rest|
  {
    var all := [first] + rest;
    if |rest| == 1 {
      assert all[..1] == [first];
    } else {
      assert all[..|all| - 1] == [first] + rest[..|rest| - 1];
      JoinedCons(first, rest[..|rest| - 1]);
    }
  }

  lemma {:induction false} JoinedLonger(c: char, groups: seq<string>)
    requires groups != []
    ensures Joined([[c] + groups[0]] + groups[1..]) == [c] + Joined(groups)
  {
    if |groups| == 1 {
      assert groups[1..] == [];
    } else {
      JoinedCons([c] + groups[0], groups[1..]);
      JoinedCons(groups[0], groups[1..]);
      assert groups == [groups[0]] + groups[1..];
    }
  }

  lemma {:induction false} SplitJoins(s: string)
    ensures Joined(Split(s, ',')) == s
  {
    if s != [] {
      var rest := Split(s[1..], ',');
      SplitJoins(s[1..]);
      if s[0] == ',' {
        JoinedCons("", rest);
      } else {
        JoinedLonger(s[0], rest);
      }
      assert s == [s[0]] + s[1..];
    }
  }

  /** Groups joined by commas are their digits with commas. */
  lemma {:induction false} GroupsJoin(groups: seq<string>)
    requires WellGrouped(groups)
    ensures Joined(groups) == WithCommas(Concat(groups)) && Concat(groups) != []
    decreases |groups|
  {
    var init, last := groups[..|groups| - 1], groups[|groups| - 1];
    if init == [] {
      assert groups == [last];
      ConcatOfOne(last);
    } else {
      assert last in groups[1..] && groups[1..][..|groups| - 2] == init[1..] && init[0] == groups[0];
      GroupsJoin(init);
      assert Concat(groups) == Concat(init) + last;
      assert Concat(groups)[..|Concat(groups)| - 3] == Concat(init);
    }
  }

  /** Digits are leading zeros and the numeral of their value. */
  lemma {:induction false} LeadingZerosAndNumeral(digits: string) returns (zeros: nat)
    requires digits != [] && AllDigits(digits)
    ensures digits == Zeros(zeros) + Numeral(Value(digits))
  {
    hide Numeral, Value;
    if |digits| == 1 || digits[0] != '0' {
      zeros := 0;
      NumeralOfValue(digits);
      assert Zeros(0) + digits == digits;
    } else {
      var rest := LeadingZerosAndNumeral(digits[1..]);
      zeros := rest + 1;
      assert digits == Zeros(1) + digits[1..];
      LeadingZeros(1, digits[1..]);
      assert Zeros(1) + (Zeros(rest) + Numeral(Value(digits))) == Zeros(zeros) + Numeral(Value(digits));
    }
  }

  /** The accepted texts of a number are its numeral behind any number of zeros, with commas in the one way
      that is accepted. */
  lemma TextsOfACount(s: string, n: nat)
    ensures ParseCount(s) == Some(n)
            <==> n <= 9_007_199_254_740_992 && exists zeros: nat :: s == WithCommas(Zeros(zeros) + Numeral(n))
  {
    hide ParseCount, Split, Base1000, WithCommas, Joined, Numeral, Value, Concat, WellGrouped, Zeros;
    if ParseCount(s) == Some(n) {
      CountsAreGroupedNumbers(s);
      var digits := Concat(Split(s, ','));
      ConcatenatedValue(Split(s, ','));
      GroupsJoin(Split(s, ','));
      SplitJoins(s);
      var zeros := LeadingZerosAndNumeral(digits);
      assert s == WithCommas(Zeros(zeros) + Numeral(n));
    }
    forall zeros: nat | n <= MAX_EXACT && s == WithCommas(Zeros(zeros) + Numeral(n)) ensures ParseCount(s) == Some(n) {
      LeadingZeros(zeros, Numeral(n));
      ValueOfNumeral(n);
      CommasRead(Zeros(zeros) + Numeral(n));
    }
  }

  /** Exactly every fourth character from the right is a comma. */
  predicate CommaEveryFourth(s: string) {
    forall k: nat | k < |s| :: s[|s| - 1 - k] == ',' <==> k % 4 == 3
  }

  lemma AnotherComma(before: string, last: string)
    requires CommaEveryFourth(before) && |last| == 3 && ',' !in last
    ensures CommaEveryFourth(before + ("," + last))
  {
    var whole := before + ("," + last);
    forall k: nat | k < |whole| ensures whole[|whole| - 1 - k] == ',' <==> k % 4 == 3 {
      if k >= 4 {
        var j: nat := k - 4;
        assert whole[|whole| - 1 - k] == before[|before| - 1 - j];
        assert k % 4 == j % 4;
      } else if k < 3 {
        assert whole[|whole| - 1 - k] == last[2 - k];
      }
    }
  }

  /** Of digits with commas, every fourth character from the right is a comma, and the others are the digits. */
  lemma {:induction false} CommasStand(digits: string)
    requires AllDigits(digits)
    ensures CommaEveryFourth(WithCommas(digits)) && Without(WithCommas(digits), ',') == digits
    ensures digits != [] ==> WithCommas(digits) != [] && WithCommas(digits)[0] != ','
  {
    hide CommaEveryFourth, Without;
    NoCommas(digits);
    if |digits| <= 3 {
      NothingWithout(digits, ',');
      FewDigits(digits);
    } else {
      var init, last := digits[..|digits| - 3], digits[|digits| - 3..];
      var before := WithCommas(init);
      CommasStand(init);
      NoCommas(last);
      assert WithCommas(digits) == before + ("," + last);
      AnotherComma(before, last);
      WithoutJoins(before, "," + last, ',');
      WithoutFirst(last);
      assert digits == init + last;
    }
  }

  lemma FewDigits(digits: string)
    requires |digits| <= 3 && ',' !in digits
    ensures CommaEveryFourth(digits)
  {
  }

  lemma WithoutFirst(s: string)
    requires ',' !in s
    ensures Without("," + s, ',') == s
  {
    NothingWithout(s, ',');
    assert ("," + s)[1..] == s;
  }

  /** Well-grouped texts are exactly those that put commas so into some digits. */
  lemma GroupingMeans(s: string)
    ensures WellGrouped(Split(s, ',')) <==> exists digits :: digits != [] && AllDigits(digits) && s == WithCommas(digits)
  {
    hide Split, WithCommas, Concat, WellGrouped, Joined, Value, Base1000;
    if WellGrouped(Split(s, ',')) {
      ConcatenatedValue(Split(s, ','));
      GroupsJoin(Split(s, ','));
      SplitJoins(s);
    }
    forall digits | digits != [] && AllDigits(digits) && s == WithCommas(digits) ensures WellGrouped(Split(s, ',')) {
      CommasSplit(digits);
    }
  }

  // ---- The source counts ---------------------------------------------------------------------------------------

  /** Digits with commas hold no point, and some comma if they are more than three. */
  lemma {:induction false} CommasOnly(digits: string)
    requires AllDigits(digits)
    ensures '.' !in WithCommas(digits) && (|digits| > 3 ==> !AllDigits(WithCommas(digits)))
  {
    if |digits| > 3 {
      var init := digits[..|digits| - 3];
      CommasOnly(init);
      NoCommas(digits[|digits| - 3..]);
      assert WithCommas(digits)[|WithCommas(init)|] == ',';
    }
  }

  /** A number's text with that many zeros behind a point, or without one. */
  function WithZeros(integer: string, zeros: nat): string {
    if zeros == 0 then integer else integer + "." + Zeros(zeros)
  }

  lemma IntegerPartOf(integer: string, zeros: nat)
    requires integer != [] && '.' !in integer && zeros <= MAX_FRACTION
    ensures IntegerPart(WithZeros(integer, zeros)) == Some(integer)
  {
    hide SplitOnce;
    SplitOnceNowhere(integer, '.');
    SplitOnceAt(integer, '.', Zeros(zeros));
  }

  lemma IntegerPartsComeFrom(s: string) returns (zeros: nat)
    requires IntegerPart(s).Some?
    ensures zeros <= MAX_FRACTION && s == WithZeros(IntegerPart(s).value, zeros)
  {
    hide SplitOnce;
    match SplitOnce(s, '.')
    case None => zeros := 0;
    case Some((_, fraction)) =>
      zeros := |fraction|;
      assert fraction == Zeros(zeros);
  }

  lemma NotEmpty(digits: string)
    ensures digits != [] ==> WithCommas(digits) != []
  {
  }

  /** Digits, plain or with commas, are canonically themselves. */
  lemma CanonicalForms(digits: string)
    requires digits != [] && AllDigits(digits)
    ensures Canonical(digits) == Canonical(WithCommas(digits)) == Some(digits)
  {
    hide Split, Concat, WellGrouped;
    CommasOnly(digits);
    CommasSplit(digits);
    if |digits| > 3 && |Split(WithCommas(digits), ',')| == 1 {
      OneField(WithCommas(digits), ',');
      ConcatOfOne(WithCommas(digits));
    }
  }

  lemma CanonicalComesFrom(integer: string)
    requires Canonical(integer).Some?
    ensures var digits := Canonical(integer).value;
            AllDigits(digits) && (integer == digits || (digits != [] && integer == WithCommas(digits)))
  {
    hide Split, Concat, WellGrouped, Joined, WithCommas;
    if !AllDigits(integer) {
      ConcatenatedValue(Split(integer, ','));
      GroupsJoin(Split(integer, ','));
      SplitJoins(integer);
    }
  }

  /** Digits, plain or with commas, and a few zeros after a point or none. */
  function SourceText(digits: string, grouped: bool, zeros: nat): string {
    WithZeros(if grouped then WithCommas(digits) else digits, zeros)
  }

  lemma SourceTextsAreRead(digits: string, grouped: bool, zeros: nat)
    requires digits != [] && AllDigits(digits) && zeros <= MAX_FRACTION
    ensures ParseSourceCount(SourceText(digits, grouped, zeros)) == if Value(digits) <= MAX_U32 then Some(Value(digits)) else None
  {
    hide WithCommas, IntegerPart, Canonical, Value, ParseUnsigned, WithZeros;
    CanonicalForms(digits);
    CommasOnly(digits);
    NotEmpty(digits);
    NoCommas(digits);
    IntegerPartOf(if grouped then WithCommas(digits) else digits, zeros);
    DigitsParse(digits, MAX_U32);
  }

  /** The plain and the grouped form, with up to six zeros after a point or none, all read as the same count;
      what does not fit 32 bits is refused. */
  lemma SourceCountsAreReadBack(n: nat, grouped: bool, zeros: nat)
    requires zeros <= 6
    ensures ParseSourceCount(SourceText(Numeral(n), grouped, zeros)) == if n <= 4_294_967_295 then Some(n) else None
  {
    hide ParseSourceCount, SourceText, Numeral, Value;
    ValueOfNumeral(n);
    SourceTextsAreRead(Numeral(n), grouped, zeros);
  }

  /** And these, behind any number of leading zeros, are all the texts that read as it. */
  lemma TextsOfASourceCount(s: string, n: nat)
    ensures ParseSourceCount(s) == Some(n)
            <==> n <= 4_294_967_295 && exists leading: nat, grouped, zeros: nat ::
                   zeros <= 6 && s == SourceText(Zeros(leading) + Numeral(n), grouped, zeros)
  {
    hide ParseSourceCount, SourceText, Numeral, Value, Zeros;
    if ParseSourceCount(s) == Some(n) {
      var digits, grouped, zeros := SourceTextOf(s, n);
      var leading := LeadingZerosAndNumeral(digits);
      assert s == SourceText(Zeros(leading) + Numeral(n), grouped, zeros);
    }
    forall leading: nat, grouped, zeros: nat |
      n <= MAX_U32 && zeros <= MAX_FRACTION && s == SourceText(Zeros(leading) + Numeral(n), grouped, zeros)
      ensures ParseSourceCount(s) == Some(n)
    {
      LeadingZeros(leading, Numeral(n));
      ValueOfNumeral(n);
      SourceTextsAreRead(Zeros(leading) + Numeral(n), grouped, zeros);
    }
  }

  lemma SourceTextOf(s: string, n: nat) returns (digits: string, grouped: bool, zeros: nat)
    requires ParseSourceCount(s) == Some(n)
    ensures n <= MAX_U32 && zeros <= MAX_FRACTION
    ensures digits != [] && AllDigits(digits) && Value(digits) == n && s == SourceText(digits, grouped, zeros)
  {
    hide WithCommas, IntegerPart, Canonical, Value, ParseUnsigned, WithZeros;
    var integer := IntegerPart(s).value;
    digits := Canonical(integer).value;
    zeros := IntegerPartsComeFrom(s);
    CanonicalComesFrom(integer);
    grouped := integer != digits;
    if digits == [] {
      NothingParses(MAX_U32);
    } else {
      DigitsParse(digits, MAX_U32);
    }
  }

  lemma NothingParses(maximum: nat)
    ensures ParseUnsigned([], maximum) == None
  {
  }
}
