/** Conservation laws of minute aggregation: the output bars summarise a partition of the input. */
module MinuteBarLaws {
  import opened Wrappers
  import opened Texts
  import opened Decimals
  import opened Clocks
  import opened EmQuantCalendar
  import opened EmQuantDates
  import opened MinuteBars
  import opened Paging

  // ---- Buckets ------------------------------------------------------------------------------------

  /** Two bars share a bucket exactly when they share the date text and the `width`-minute slot. */
  lemma BucketKeysAreFaithful(a: Bar, b: Bar, width: Width)
    requires Bucketed(a, width) && Bucketed(b, width)
    ensures Key(a, width) == Key(b, width)
            <==> SplitOnce(a.start, ' ').value.0 == SplitOnce(b.start, ' ').value.0
                 && Minute(a, width) / width == Minute(b, width) / width
  {
    hide MinuteBucket, SplitOnce, Numeral;
    KeyText(a, width);
    KeyText(b, width);
    var da, db := SplitOnce(a.start, ' ').value.0, SplitOnce(b.start, ' ').value.0;
    var qa, qb := Slot(Minute(a, width), width), Slot(Minute(b, width), width);
    if Key(a, width) == Key(b, width) {
      LastColon(da, Numeral(qa), db, Numeral(qb));
      ValueOfNumeral(qa);
      ValueOfNumeral(qb);
    }
  }

  /** A clock time as it is printed, with or without what follows the minute. */
  function PrintedTime(hour: nat, minute: nat, seconds: Option<string>): string {
    Padded(hour, 2) + ":" + Padded(minute, 2) + if seconds.Some? then ":" + seconds.value else ""
  }

  /** A printed clock time falls into the slot of its minute of the day, whatever follows the minute; a time that no
      clock shows is refused. */
  lemma ClockTimesAreBucketed(date: string, hour: nat, minute: nat, seconds: Option<string>, width: Width)
    requires ' ' !in date && hour < 100 && minute < 100
    ensures MinuteBucket(date + " " + PrintedTime(hour, minute, seconds), width)
            == if hour <= 23 && minute <= 59
               then Ok((BucketKey(date, 60 * hour + minute, width), 60 * hour + minute)) else Err(InvalidTimestamp)
  {
    hide SplitOnce, Split, ParseUnsigned, Numeral, Padded;
    var h, m := Padded(hour, 2), Padded(minute, 2);
    var tail := if seconds.Some? then m + ":" + seconds.value else m;
    var time := h + ":" + tail;
    assert time == h + ":" + m + if seconds.Some? then ":" + seconds.value else "";
    SplitOnceAt(date, ' ', time);
    SplitFirst(h, ':', tail);
    if seconds.Some? {
      SplitFirst(m, ':', seconds.value);
    } else {
      SplitWithout(m, ':');
    }
    TwoDigitsParse(hour);
    TwoDigitsParse(minute);
  }

  lemma TwoDigitsParse(n: nat)
    requires n < 100
    ensures ParseUnsigned(Padded(n, 2), 65_535) == Some(n)
  {
    hide Padded, ParseUnsigned;
    PaddedLength(n, 2);
    PaddedParses(n, 2);
    DigitsParse(Padded(n, 2), 65_535);
  }

  lemma KeyText(b: Bar, width: Width)
    requires Bucketed(b, width)
    ensures SplitOnce(b.start, ' ').Some?
    ensures Key(b, width) == BucketKey(SplitOnce(b.start, ' ').value.0, Minute(b, width), width)
    ensures Minute(b, width) < 1440
  {
    hide SplitOnce, Split, ParseUnsigned, Numeral;
  }

  lemma LastColon(a: string, x: string, b: string, y: string)
    requires a + ":" + x == b + ":" + y && AllDigits(x) && AllDigits(y)
    ensures a == b && x == y
  {
    var s, t := a + ":" + x, b + ":" + y;
    assert s[|a|] == ':' && t[|b|] == ':';
    assert forall i | |a| < i < |s| :: s[i] == x[i - |a| - 1] && IsDigit(s[i]);
    assert forall i | |b| < i < |t| :: t[i] == y[i - |b| - 1] && IsDigit(t[i]);
    assert |a| == |b|;
    assert a == s[..|a|] == t[..|b|] && x == s[|a| + 1..] == t[|b| + 1..];
  }

  // ---- The partition ---------------------------------------------------------------------------------

  predicate OneBucket(run: seq<Bar>, width: Width) {
    run != [] && AllBucketed(run, width) && forall i | 0 <= i < |run| :: Key(run[i], width) == Key(run[0], width)
  }

  /** Consecutive non-empty stretches of one bucket each, as long as they can be. */
  predicate MaximalRuns(runs: seq<seq<Bar>>, width: Width) {
    && (forall k | 0 <= k < |runs| :: OneBucket(runs[k], width))
    && forall k | 0 < k < |runs| :: Key(runs[k][0], width) != Key(runs[k - 1][0], width)
  }

  /** The runs are the bars cut up, each as long as it can be. */
  ghost predicate Partitioned(bars: seq<Bar>, width: Width)
    requires AllBucketed(bars, width)
  {
    var runs := Runs(bars, width);
    && Concat(runs) == bars && MaximalRuns(runs, width)
    && (bars != [] ==> var last := runs[|runs| - 1]; last[|last| - 1] == bars[|bars| - 1])
  }

  lemma {:induction false} RunsPartition(bars: seq<Bar>, width: Width)
    requires AllBucketed(bars, width)
    ensures Partitioned(bars, width)
    decreases |bars|
  {
    hide Partitioned, Bucketed;
    if bars == [] {
      NothingPartitioned(width);
    } else {
      var n := |bars| - 1;
      var init, bar := bars[..n], bars[n];
      assert bars == init + [bar];
      RunsPartition(init, width);
      ExtendPartition(init, bar, width);
    }
  }

  lemma NothingPartitioned(width: Width)
    ensures Partitioned([], width)
  {
  }

  lemma ExtendPartition(bars: seq<Bar>, bar: Bar, width: Width)
    requires AllBucketed(bars, width) && Bucketed(bar, width) && Partitioned(bars, width)
    ensures AllBucketed(bars + [bar], width) && Partitioned(bars + [bar], width)
  {
    hide MinuteBucket, Runs, MaximalRuns, Concat, NoGaps;
    RunsStep(bars, bar, width);
    var runs := Runs(bars, width);
    if bars == [] {
      NoRuns(width);
      NewRun(runs, bar, width);
    } else {
      LastBar(runs, bars, width);
      if Key(bar, width) == Key(bars[|bars| - 1], width) {
        LongerRun(runs, bar, width);
      } else {
        NewRun(runs, bar, width);
      }
    }
  }

  lemma NoRuns(width: Width)
    ensures Runs([], width) == []
  {
  }

  lemma LastBar(runs: seq<seq<Bar>>, bars: seq<Bar>, width: Width)
    requires runs != [] && bars != [] && MaximalRuns(runs, width)
    requires var last := runs[|runs| - 1]; last != [] && last[|last| - 1] == bars[|bars| - 1]
    ensures Bucketed(bars[|bars| - 1], width) && Bucketed(runs[|runs| - 1][0], width)
    ensures Key(bars[|bars| - 1], width) == Key(runs[|runs| - 1][0], width)
  {
    hide MinuteBucket;
    assert OneBucket(runs[|runs| - 1], width);
  }

  lemma LongerRun(runs: seq<seq<Bar>>, bar: Bar, width: Width)
    requires runs != [] && MaximalRuns(runs, width) && Bucketed(bar, width)
    requires runs[|runs| - 1] != [] && Bucketed(runs[|runs| - 1][0], width) && Key(bar, width) == Key(runs[|runs| - 1][0], width)
    ensures var next := runs[..|runs| - 1] + [runs[|runs| - 1] + [bar]];
            MaximalRuns(next, width) && Concat(next) == Concat(runs) + [bar]
  {
    hide MinuteBucket;
    var m := |runs| - 1;
    var next := runs[..m] + [runs[m] + [bar]];
    assert next[..m] == runs[..m] && next[m] == runs[m] + [bar];
    assert OneBucket(runs[m], width);
    assert Concat(next) == Concat(runs[..m]) + (runs[m] + [bar]);
  }

  lemma NewRun(runs: seq<seq<Bar>>, bar: Bar, width: Width)
    requires MaximalRuns(runs, width) && Bucketed(bar, width)
    requires runs != [] ==> runs[|runs| - 1] != [] && Bucketed(runs[|runs| - 1][0], width)
                            && Key(bar, width) != Key(runs[|runs| - 1][0], width)
    ensures MaximalRuns(runs + [[bar]], width) && Concat(runs + [[bar]]) == Concat(runs) + [bar]
  {
    hide MinuteBucket, Key, Concat, OneBucket, Bucketed;
    ConcatAppend(runs, [bar]);
    SingleBucket(bar, width);
    var next := runs + [[bar]];
    assert next[|runs|] == [bar] && forall k | 0 <= k < |runs| :: next[k] == runs[k];
  }

  lemma ConcatAppend(runs: seq<seq<Bar>>, run: seq<Bar>)
    ensures Concat(runs + [run]) == Concat(runs) + run
  {
    assert (runs + [run])[..|runs|] == runs;
  }

  lemma SingleBucket(bar: Bar, width: Width)
    requires Bucketed(bar, width)
    ensures OneBucket([bar], width)
  {
    hide MinuteBucket;
  }

  /** There is only one way to cut the bars into maximal runs. */
  lemma {:induction false} MaximalRunsAreUnique(a: seq<seq<Bar>>, b: seq<seq<Bar>>, width: Width)
    requires MaximalRuns(a, width) && MaximalRuns(b, width) && Concat(a) == Concat(b)
    ensures a == b
    decreases |a|
  {
    hide MinuteBucket;
    if a == [] || b == [] {
      EmptyConcat(a, width);
      EmptyConcat(b, width);
    } else {
      var m, n := |a| - 1, |b| - 1;
      SameLastRun(a, b, width);
      assert Concat(a[..m]) == Concat(a)[..|Concat(a)| - |a[m]|];
      assert Concat(b[..n]) == Concat(b)[..|Concat(b)| - |b[n]|];
      MaximalRunsAreUnique(a[..m], b[..n], width);
      assert a == a[..m] + [a[m]] && b == b[..n] + [b[n]];
    }
  }

  lemma EmptyConcat(runs: seq<seq<Bar>>, width: Width)
    requires MaximalRuns(runs, width)
    ensures Concat(runs) == [] <==> runs == []
  {
    if runs != [] {
      assert runs[|runs| - 1] != [];
    }
  }

  lemma SameLastRun(a: seq<seq<Bar>>, b: seq<seq<Bar>>, width: Width)
    requires a != [] && b != [] && MaximalRuns(a, width) && MaximalRuns(b, width) && Concat(a) == Concat(b)
    ensures a[|a| - 1] == b[|b| - 1]
  {
    hide MinuteBucket, Concat, MaximalRuns, OneBucket;
    LastRunIsLongest(a, b, width);
    LastRunIsLongest(b, a, width);
    LastRunIsSuffix(a, width);
    LastRunIsSuffix(b, width);
  }

  lemma LastRunIsSuffix(a: seq<seq<Bar>>, width: Width)
    requires a != [] && MaximalRuns(a, width)
    ensures var last := a[|a| - 1];
            0 < |last| <= |Concat(a)| && Concat(a)[|Concat(a)| - |last|..] == last && OneBucket(last, width)
    ensures |a| > 1 ==>
              var last, before := a[|a| - 1], a[|a| - 2];
              && before != [] && |before| < |Concat(a)| - |last| + 1
              && Concat(a)[|Concat(a)| - |last| - 1] == before[|before| - 1]
              && Bucketed(before[|before| - 1], width) && Key(before[|before| - 1], width) != Key(last[0], width)
    ensures |a| == 1 ==> |Concat(a)| == |a[0]|
  {
    var init := a[..|a| - 1];
    if |a| > 1 {
      assert init[|init| - 1] == a[|a| - 2];
      assert OneBucket(a[|a| - 2], width);
    }
    assert OneBucket(a[|a| - 1], width);
  }

  lemma LastRunIsLongest(a: seq<seq<Bar>>, b: seq<seq<Bar>>, width: Width)
    requires a != [] && b != [] && MaximalRuns(a, width) && MaximalRuns(b, width) && Concat(a) == Concat(b)
    ensures |b[|b| - 1]| <= |a[|a| - 1]|
  {
    hide MinuteBucket, Concat, MaximalRuns, OneBucket, Key, Bucketed;
    LastRunIsSuffix(a, width);
    LastRunIsSuffix(b, width);
    var all, la, lb := Concat(a), a[|a| - 1], b[|b| - 1];
    OneKey(all, la, width);
    OneKey(all, lb, width);
  }

  lemma OneKey(all: seq<Bar>, run: seq<Bar>, width: Width)
    requires OneBucket(run, width) && |run| <= |all| && all[|all| - |run|..] == run
    ensures all[|all| - |run|] == run[0]
    ensures forall i | |all| - |run| <= i < |all| :: Bucketed(all[i], width) && Key(all[i], width) == Key(run[0], width)
  {
    hide MinuteBucket, Key, Bucketed;
    assert forall i | |all| - |run| <= i < |all| :: all[i] == run[i - (|all| - |run|)];
  }

  /** A run without gaps is a stretch of consecutive minutes, at most `width` of them. */
  lemma RunsAreShort(run: seq<Bar>, width: Width)
    requires OneBucket(run, width) && NoGaps(run, width)
    ensures forall i | 0 <= i < |run| :: Minute(run[i], width) == Minute(run[0], width) + i
    ensures |run| <= width
  {
    hide MinuteBucket;
    ConsecutiveMinutes(run, width, |run| - 1);
    forall i | 0 <= i < |run| ensures Minute(run[i], width) == Minute(run[0], width) + i {
      ConsecutiveMinutes(run, width, i);
    }
    var last := |run| - 1;
    BucketKeysAreFaithful(run[0], run[last], width);
    SameSlot(Minute(run[0], width), Minute(run[last], width), width);
  }

  lemma {:induction false} ConsecutiveMinutes(run: seq<Bar>, width: Width, i: nat)
    requires OneBucket(run, width) && NoGaps(run, width) && i < |run|
    ensures Minute(run[i], width) == Minute(run[0], width) + i
  {
    hide MinuteBucket;
    if i > 0 {
      ConsecutiveMinutes(run, width, i - 1);
    }
  }

  lemma SameSlot(a: nat, b: nat, width: Width)
    requires a <= b && Slot(a, width) == Slot(b, width)
    ensures b - a < width
  {
    assert a == width * (a / width) + a % width && b == width * (b / width) + b % width;
  }

  // ---- Conservation ------------------------------------------------------------------------------------

  lemma {:induction false} VolumeOfConcat(a: seq<Bar>, b: seq<Bar>)
    ensures Volume(a + b) == Volume(a) + Volume(b)
    decreases |b|
  {
    if b == [] {
      assert a + b == a;
    } else {
      var n := |b| - 1;
      VolumeOfConcat(a, b[..n]);
      assert (a + b)[..|a + b| - 1] == a + b[..n];
    }
  }

  /** With the lemma above: the volume of a group is the sum of its bars'. */
  lemma VolumeOfOne(b: Bar)
    ensures Volume([]) == 0.0 && Volume([b]) == b.volume
  {
    assert [b][..0] == [];
  }

  lemma {:induction false} AmountOfConcat(a: seq<Bar>, b: seq<Bar>)
    requires AllAmounts(a) && AllAmounts(b)
    ensures AllAmounts(a + b) && Amount(a + b) == Amount(a) + Amount(b)
    decreases |b|
  {
    if b == [] {
      assert a + b == a;
    } else {
      var n := |b| - 1;
      assert b == b[..n] + [b[n]];
      AmountOfConcat(a, b[..n]);
      assert (a + b)[..|a + b| - 1] == a + b[..n];
    }
  }

  /** With the lemma above: the amount of a group is the sum of its bars'. */
  lemma AmountOfOne(b: Bar)
    requires b.amount.Some?
    ensures Amount([]) == 0.0 && Amount([b]) == b.amount.value
  {
    assert [b][..0] == [];
  }

  lemma {:induction false} AmountIsConserved(result: seq<Bar>, runs: seq<seq<Bar>>, width: Width)
    requires Summarises(result, runs, width) && AllAmounts(Concat(runs))
    ensures AllAmounts(result) && Amount(result) == Amount(Concat(runs))
  {
    hide AggregateGroup, AllAmounts, Amount, Concat, Summarises;
    SummariesPair(result, runs, width);
    if runs == [] {
      NothingConcatenated();
      assert result == [];
    } else {
      var n := |runs| - 1;
      ConcatAppend(runs[..n], runs[n]);
      assert runs == runs[..n] + [runs[n]] && result == result[..n] + [result[n]];
      AmountsOfParts(Concat(runs[..n]), runs[n]);
      AmountIsConserved(result[..n], runs[..n], width);
      RunAmount(Concat(runs[..n]), runs[n], width, result[..n], result[n]);
    }
  }

  lemma SummariesPair(result: seq<Bar>, runs: seq<seq<Bar>>, width: Width)
    requires Summarises(result, runs, width)
    ensures |result| == |runs|
    ensures runs != [] ==>
              var n := |runs| - 1;
              Summarises(result[..n], runs[..n], width) && runs[n] != [] && AggregateGroup(runs[n], width) == Ok(result[n])
  {
    hide AggregateGroup;
  }

  lemma NothingConcatenated()
    ensures Concat<Bar>([]) == []
  {
  }

  lemma RunAmount(bars: seq<Bar>, run: seq<Bar>, width: Width, result: seq<Bar>, bar: Bar)
    requires AllAmounts(bars) && AllAmounts(run) && AllAmounts(result) && Amount(result) == Amount(bars)
    requires run != [] && AggregateGroup(run, width) == Ok(bar)
    ensures AllAmounts(bars + run) && AllAmounts(result + [bar]) && Amount(result + [bar]) == Amount(bars + run)
  {
    hide AggregateGroup, AllAmounts, Amount;
    AmountOfConcat(bars, run);
    SummaryOf(run, width, bar);
    OneMoreAmount(result, bar);
  }

  lemma AmountsOfParts(a: seq<Bar>, b: seq<Bar>)
    requires AllAmounts(a + b)
    ensures AllAmounts(a) && AllAmounts(b)
  {
    assert forall x | x in a :: x in a + b;
    assert forall x | x in b :: x in a + b;
  }

  lemma OneMoreAmount(a: seq<Bar>, b: Bar)
    requires AllAmounts(a) && b.amount.Some?
    ensures AllAmounts(a + [b]) && Amount(a + [b]) == Amount(a) + b.amount.value
  {
    hide Amount;
    AmountOfConcat(a, [b]);
    AmountOfOne(b);
  }

  lemma {:induction false} VolumeIsConserved(result: seq<Bar>, runs: seq<seq<Bar>>, width: Width)
    requires Summarises(result, runs, width)
    ensures Volume(result) == Volume(Concat(runs))
  {
    hide AggregateGroup;
    if runs != [] {
      var n := |runs| - 1;
      VolumeIsConserved(result[..n], runs[..n], width);
      VolumeOfConcat(Concat(runs[..n]), runs[n]);
      SummaryOf(runs[n], width, result[n]);
    }
  }

  /** What one output bar says about its run. */
  lemma SummaryOf(run: seq<Bar>, width: Width, bar: Bar)
    requires run != [] && AggregateGroup(run, width) == Ok(bar)
    ensures bar.start == run[0].start && bar.open == run[0].open
    ensures bar.end == run[|run| - 1].end && bar.close == run[|run| - 1].close
    ensures bar.sourceAt == run[|run| - 1].sourceAt && bar.observedAt == run[0].observedAt
    ensures (forall b | b in run :: b.high <= bar.high) && (exists b | b in run :: b.high == bar.high)
    ensures (forall b | b in run :: bar.low <= b.low) && (exists b | b in run :: b.low == bar.low)
    ensures bar.volume == Volume(run)
    ensures bar.amount.Some? <==> AllAmounts(run)
    ensures AllAmounts(run) ==> bar.amount == Some(Amount(run))
    ensures forall b | b in run :: b.observedAt == bar.observedAt && bar.observedAt.Some?
  {
    hide Highest, Lowest, Volume, Amount, Accepted;
  }

  /** Consistent bars have a consistent summary. */
  lemma SummaryIsConsistent(run: seq<Bar>)
    requires run != [] && forall b | b in run :: Consistent(b)
    ensures Consistent(Summary(run))
  {
    hide Highest, Lowest, Volume, Amount;
    assert run[0] in run && run[|run| - 1] in run;
    if AllAmounts(run) {
      AmountIsNonNegative(run);
    }
  }

  lemma {:induction false} AmountIsNonNegative(group: seq<Bar>)
    requires AllAmounts(group) && forall b | b in group :: Consistent(b)
    ensures Amount(group) >= 0.0
  {
    if group != [] {
      var n := |group| - 1;
      assert group[n] in group && group == group[..n] + [group[n]];
      AmountIsNonNegative(group[..n]);
    }
  }

  // ---- What the bar constructor accepts ------------------------------------------------------------------

  /** A time the constructor accepts has a bucket exactly if it separates date and clock by a space; the
      bucket is that of its date and of the minute its clock shows. */
  lemma BarTimesAreBucketed(b: Bar, width: Width)
    requires ValidBarTime(b.start)
    ensures Bucketed(b, width) <==> b.start[10] == ' '
    ensures Bucketed(b, width) ==>
              SplitOnce(b.start, ' ').Some? && SplitOnce(b.start, ' ').value.0 == b.start[..10]
              && Minute(b, width) == SecondsOf(b.start[11..]) / 60
  {
    hide MinuteBucket, ValidIsoDate, ValidClockTime, SplitOnce, SecondsOf;
    var date, clock := b.start[..10], b.start[11..];
    assert b.start == date + [b.start[10]] + clock;
    NoSpaces(date, clock);
    if b.start[10] == ' ' {
      ClockBuckets(date, clock, width);
      SplitOnceAt(date, ' ', clock);
    } else {
      NotBucketed(b.start, width);
    }
  }

  lemma NoSpaces(date: string, clock: string)
    requires ValidIsoDate(date) && ValidClockTime(clock)
    ensures ' ' !in date && ' ' !in clock
  {
  }

  lemma NotBucketed(timestamp: string, width: Width)
    requires ' ' !in timestamp
    ensures MinuteBucket(timestamp, width).Err?
  {
    SplitOnceNowhere(timestamp, ' ');
  }

  lemma ClockBuckets(date: string, clock: string, width: Width)
    requires ' ' !in date && ValidClockTime(clock)
    ensures var bucket := MinuteBucket(date + " " + clock, width);
            bucket.Ok? && bucket.value.1 == SecondsOf(clock) / 60
  {
    hide MinuteBucket, ValidClockTime, SecondsOf, Padded, ClockParts, ClockText;
    ClockCheckIsExact(clock);
    var second := SecondsOf(clock);
    var (h, m, s) := ClockParts(second);
    ClockPartsCompare(second, second);
    ClockTextParts(second);
    assert clock == Padded(h, 2) + ":" + Padded(m, 2) + (":" + Padded(s, 2));
    assert date + " " + clock == date + " " + (Padded(h, 2) + ":" + Padded(m, 2) + (":" + Padded(s, 2)));
    ClockTimesAreBucketed(date, h, m, Some(Padded(s, 2)), width);
    assert second / 60 == 60 * h + m;
  }

  /** The bar times the constructor accepts are exactly a calendar date of the years 1900 to 9999, a space or a `T`,
      and a second of the day, as they are printed. */
  lemma BarTimesAreExact(v: string)
    ensures ValidBarTime(v)
            <==> exists days: int, separator, second: nat ::
                   && 1900 <= CivilFromDays(days).year <= 9999 && separator in {' ', 'T'} && second < DAY_SECONDS
                   && v == DateFromEpochDays(days) + [separator] + ClockText(second)
  {
    hide ValidIsoDate, ValidClockTime, CivilFromDays, DateFromEpochDays, ClockText;
    if ValidBarTime(v) {
      var date, clock := v[..10], v[11..];
      AcceptedExactly(date);
      ClockCheckIsExact(clock);
      var days :| 1900 <= CivilFromDays(days).year <= 9999 && date == DateFromEpochDays(days);
      var second: nat :| second < DAY_SECONDS && clock == ClockText(second);
      assert v == date + [v[10]] + clock;
    }
    forall days: int, separator, second: nat |
      && 1900 <= CivilFromDays(days).year <= 9999 && separator in {' ', 'T'} && second < DAY_SECONDS
      && v == DateFromEpochDays(days) + [separator] + ClockText(second)
      ensures ValidBarTime(v)
    {
      AcceptedExactly(DateFromEpochDays(days));
      ClockCheckIsExact(ClockText(second));
      TimeParts(DateFromEpochDays(days), separator, ClockText(second));
    }
  }

  lemma TimeParts(date: string, separator: char, clock: string)
    requires ValidIsoDate(date) && ValidClockTime(clock)
    ensures var v := date + [separator] + clock;
            |v| == 19 && v[10] == separator && v[..10] == date && v[11..] == clock
  {
    hide Value;
  }

  /** Bars that the constructor accepted as minute bars. */
  predicate MinuteBarsOnly(run: seq<Bar>) {
    forall b | b in run :: Accepted(b, 1)
  }

  lemma AcceptedBar(run: seq<Bar>, i: nat)
    requires MinuteBarsOnly(run) && i < |run|
    ensures Accepted(run[i], 1)
  {
    assert run[i] in run;
  }

  /** The times of a gapless run are of one day, and its first bar does not end after its last. */
  lemma RunTimes(run: seq<Bar>, width: Width)
    requires OneBucket(run, width) && NoGaps(run, width) && MinuteBarsOnly(run)
    ensures var first, last := run[0], run[|run| - 1];
            && ValidBarTime(first.start) && ValidBarTime(last.start) && ValidBarTime(last.end)
            && first.start[..11] == last.start[..11] == last.end[..11]
            && 0 <= Span(first.start, last.start) < 60 * width
            && Span(first.start, last.end) == Span(first.start, last.start) + Span(last.start, last.end)
            && 0 <= Span(last.start, last.end)
  {
    hide MinuteBucket, ValidIsoDate, ValidClockTime, SplitOnce, SecondsOf, Consistent;
    var n: nat := |run| - 1;
    var first, last := run[0], run[n];
    AcceptedBar(run, 0);
    AcceptedBar(run, n);
    BarTimesAreBucketed(first, width);
    BarTimesAreBucketed(last, width);
    BucketKeysAreFaithful(first, last, width);
    RunsAreShort(run, width);
    assert Minute(last, width) == Minute(first, width) + n && n + 1 <= width;
    SameStart(first.start, last.start);
    SameStart(last.start, last.end);
    if n > 0 {
      LaterMinute(SecondsOf(first.start[11..]), SecondsOf(last.start[11..]), n, width);
    }
  }

  lemma SameStart(a: string, b: string)
    requires |a| == |b| == 19 && a[..10] == b[..10] && a[10] == b[10]
    ensures a[..11] == b[..11]
  {
    assert a[..11] == a[..10] + [a[10]] && b[..11] == b[..10] + [b[10]];
  }

  lemma LaterMinute(a: nat, b: nat, n: nat, width: nat)
    requires b / 60 == a / 60 + n && 0 < n < width
    ensures 0 <= b - a < 60 * width
  {
  }

  /** The times of a gapless run fit the wider bar exactly if its last bar ends no more than `width` minutes
      after its first one starts; the constructor's other checks always pass. */
  lemma RunsFitBySpan(run: seq<Bar>, width: Width)
    requires OneBucket(run, width) && NoGaps(run, width) && MinuteBarsOnly(run)
    ensures var first, last := run[0], run[|run| - 1];
            && ValidBarTime(first.start) && ValidBarTime(last.end)
            && (Accepted(Summary(run), width) <==> Span(first.start, last.end) <= 60 * width)
  {
    hide MinuteBucket, ValidIsoDate, ValidClockTime, Span, NoGaps, Consistent, Summary;
    var first, last := run[0], run[|run| - 1];
    RunTimes(run, width);
    assert first.start[..10] == first.start[..11][..10] && last.end[..10] == last.end[..11][..10];
    assert first.start[10] == first.start[..11][10] && last.end[10] == last.end[..11][10];
    SpanOrders(first.start, last.end);
    forall b | b in run ensures Consistent(b) {
      assert Accepted(b, 1);
    }
    SummaryIsConsistent(run);
    SummaryTimes(run);
  }

  lemma SummaryTimes(run: seq<Bar>)
    requires run != []
    ensures Summary(run).start == run[0].start && Summary(run).end == run[|run| - 1].end
  {
  }

  /** Times of one day with one separator are ordered as texts if their span is not negative. */
  lemma SpanOrders(start: string, end: string)
    requires ValidBarTime(start) && ValidBarTime(end) && start[..11] == end[..11]
    ensures AtMost(start, end) <==> Span(start, end) >= 0
  {
    hide Before, ValidIsoDate, ValidClockTime, ClockText, SecondsOf;
    var a, b := start[11..], end[11..];
    assert start == start[..11] + a && end == end[..11] + b;
    BeforeByParts(end[..11], b, start[..11], a);
    BeforeIsTotal(start[..11], end[..11]);
    ClockCheckIsExact(a);
    ClockCheckIsExact(b);
    ClockTextsCompare(SecondsOf(b), SecondsOf(a));
  }

  /** Minute bars as the history reader builds them: accepted, and with one time for start and end. */
  predicate Instants(bars: seq<Bar>) {
    forall b | b in bars :: Accepted(b, 1) && b.start == b.end
  }

  /** Every gapless run of them passes all the checks of the wider bar's constructor. */
  lemma InstantRunsFit(run: seq<Bar>, width: Width)
    requires OneBucket(run, width) && NoGaps(run, width) && Instants(run)
    ensures Accepted(Summary(run), width)
  {
    hide MinuteBucket, ValidIsoDate, ValidClockTime, NoGaps, Consistent, Summary;
    assert run[|run| - 1] in run;
    assert MinuteBarsOnly(run);
    RunTimes(run, width);
    RunsFitBySpan(run, width);
  }

  /** The minute of the day that a bar time shows. */
  function ShownMinute(v: string): nat
    requires ValidBarTime(v)
  {
    SecondsOf(v[11..]) / 60
  }

  /** If the two times are of one day and one stretch of `width` minutes, the second is one minute later. */
  predicate GoesOn(before: string, after: string, width: Width)
    requires ValidBarTime(before) && ValidBarTime(after)
  {
    before[..10] == after[..10] && ShownMinute(before) / width == ShownMinute(after) / width
    ==> ShownMinute(after) == ShownMinute(before) + 1
  }

  predicate ValidTimes(bars: seq<Bar>) {
    forall i | 0 <= i < |bars| :: ValidBarTime(bars[i].start)
  }

  predicate Unbroken(bars: seq<Bar>, width: Width)
    requires ValidTimes(bars)
  {
    forall i | 0 < i < |bars| :: GoesOn(bars[i - 1].start, bars[i].start, width)
  }

  /** For such bars, aggregation succeeds exactly if they separate date and clock by a space, no minute is
      missing inside a bucket, and each run was observed at one time: no run fails for its times or prices. */
  lemma InstantsAggregate(bars: seq<Bar>, width: Width)
    requires Instants(bars)
    ensures ValidTimes(bars)
    ensures AllBucketed(bars, width) <==> forall b | b in bars :: b.start[10] == ' '
    ensures Aggregable(bars, width)
            <==> AllBucketed(bars, width) && Unbroken(bars, width)
                 && forall run | run in Runs(bars, width) ::
                      WasObserved(run)
  {
    hide MinuteBucket, Bucketed, Runs, Accepted, SameObservation, Summary, NoGaps, Unbroken, WasObserved, Aggregable;
    forall b | b in bars ensures ValidBarTime(b.start) && (Bucketed(b, width) <==> b.start[10] == ' ') {
      InstantTime(bars, b);
      BarTimesAreBucketed(b, width);
    }
    assert forall i | 0 <= i < |bars| :: bars[i] in bars;
    AggregableNeeds(bars, width);
    if AllBucketed(bars, width) {
      GapsAreBreaks(bars, width);
      if NoGaps(bars, width) {
        RunsPartition(bars, width);
        InstantSummaries(bars, width);
        ObservationsDecide(bars, width);
      }
    }
  }

  lemma AggregableNeeds(bars: seq<Bar>, width: Width)
    ensures Aggregable(bars, width) ==> AllBucketed(bars, width) && NoGaps(bars, width)
  {
    hide MinuteBucket;
  }

  lemma ObservationsDecide(bars: seq<Bar>, width: Width)
    requires AllBucketed(bars, width) && NoGaps(bars, width)
    requires forall run | run in Runs(bars, width) :: run != [] && Accepted(Summary(run), width)
    ensures Aggregable(bars, width) <==> forall run | run in Runs(bars, width) :: WasObserved(run)
  {
    hide MinuteBucket, Bucketed, Runs, Accepted, SameObservation, Summary, NoGaps, WasObserved;
    forall run | run in Runs(bars, width)
      ensures Summarisable(run, width) <==> WasObserved(run)
    {
      OneObservation(run);
    }
  }

  lemma InstantSummaries(bars: seq<Bar>, width: Width)
    requires Instants(bars) && AllBucketed(bars, width) && NoGaps(bars, width) && Partitioned(bars, width)
    ensures forall run | run in Runs(bars, width) :: run != [] && Accepted(Summary(run), width)
  {
    hide MinuteBucket, Runs, Accepted, Summary;
    var runs := Runs(bars, width);
    forall run | run in runs ensures run != [] && Accepted(Summary(run), width) {
      var k: nat :| k < |runs| && runs[k] == run;
      RunHasNoGaps(runs, width, k);
      RunsKeepBars(runs, k);
      InstantRunsFit(run, width);
    }
  }

  predicate ObservedAt(run: seq<Bar>, at: string) {
    forall b | b in run :: b.observedAt == Some(at)
  }

  /** All bars of the run were observed at one time. */
  ghost predicate WasObserved(run: seq<Bar>) {
    exists at :: ObservedAt(run, at)
  }

  lemma OneObservation(run: seq<Bar>)
    requires run != []
    ensures SameObservation(run) <==> WasObserved(run)
  {
    assert run[0] in run;
    if SameObservation(run) {
      assert ObservedAt(run, run[0].observedAt.value);
    }
  }

  lemma GapsAreBreaks(bars: seq<Bar>, width: Width)
    requires AllBucketed(bars, width) && ValidTimes(bars)
    ensures NoGaps(bars, width) <==> Unbroken(bars, width)
  {
    hide MinuteBucket, ValidBarTime, Key, Minute, Bucketed, ShownMinute;
    forall i | 0 < i < |bars|
      ensures GoesOn(bars[i - 1].start, bars[i].start, width)
              <==> (Key(bars[i], width) == Key(bars[i - 1], width) ==> Minute(bars[i], width) == Minute(bars[i - 1], width) + 1)
    {
      Neighbours(bars[i - 1], bars[i], width);
    }
  }

  lemma Neighbours(a: Bar, b: Bar, width: Width)
    requires ValidBarTime(a.start) && ValidBarTime(b.start) && Bucketed(a, width) && Bucketed(b, width)
    ensures GoesOn(a.start, b.start, width)
            <==> (Key(b, width) == Key(a, width) ==> Minute(b, width) == Minute(a, width) + 1)
  {
    hide MinuteBucket, ValidIsoDate, ValidClockTime, SecondsOf, SplitOnce;
    BarTimesAreBucketed(a, width);
    BarTimesAreBucketed(b, width);
    BucketKeysAreFaithful(a, b, width);
  }

  lemma InstantTime(bars: seq<Bar>, b: Bar)
    requires Instants(bars) && b in bars
    ensures ValidBarTime(b.start)
  {
    hide ValidBarTime;
  }

  lemma {:induction false} RunsKeepBars(runs: seq<seq<Bar>>, k: nat)
    requires k < |runs|
    ensures forall b | b in runs[k] :: b in Concat(runs)
  {
    if k < |runs| - 1 {
      RunsKeepBars(runs[..|runs| - 1], k);
    }
  }

  /** Successful aggregation: the output bars summarise, one each, the maximal one-bucket runs of the
      input, which are gapless, at most `width` long and together the whole input; total volume is
      conserved, and so is the total amount if every bar has one. */
  lemma AggregationPartitionsTheInput(bars: seq<Bar>, width: Width, result: seq<Bar>)
    requires Aggregable(bars, width) && Summarises(result, Runs(bars, width), width)
    ensures var runs := Runs(bars, width);
            && Concat(runs) == bars && MaximalRuns(runs, width)
            && (forall k | 0 <= k < |runs| :: |runs[k]| <= width)
            && Volume(result) == Volume(bars)
            && (AllAmounts(bars) ==> AllAmounts(result) && Amount(result) == Amount(bars))
  {
    hide MinuteBucket, AggregateGroup, Runs, Volume, Amount, AllAmounts;
    var runs := Runs(bars, width);
    RunsPartition(bars, width);
    VolumeIsConserved(result, runs, width);
    if AllAmounts(bars) {
      AmountIsConserved(result, runs, width);
    }
    forall k | 0 <= k < |runs| ensures |runs[k]| <= width {
      RunHasNoGaps(runs, width, k);
      RunsAreShort(runs[k], width);
    }
  }

  lemma {:induction false} RunHasNoGaps(runs: seq<seq<Bar>>, width: Width, k: nat)
    requires MaximalRuns(runs, width) && k < |runs|
    requires AllBucketed(Concat(runs), width) && NoGaps(Concat(runs), width)
    ensures AllBucketed(runs[k], width) && NoGaps(runs[k], width)
    decreases |runs|
  {
    hide MinuteBucket;
    var n := |runs| - 1;
    var all, init := Concat(runs), Concat(runs[..n]);
    if k < n {
      assert forall i | 0 <= i < |init| :: init[i] == all[i];
      RunHasNoGaps(runs[..n], width, k);
    } else {
      assert forall i | 0 <= i < |runs[n]| :: runs[n][i] == all[|init| + i];
      assert OneBucket(runs[n], width);
    }
  }
}
