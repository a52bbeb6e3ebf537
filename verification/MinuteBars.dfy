/** Minute bars of the EMQuant adapter, grouped into wider bars. */
module MinuteBars {
  import opened Wrappers
  import opened Texts
  import opened Decimals
  import opened Clocks
  import opened EmQuantDates

  datatype Error = InvalidTimestamp | MinuteGap | MissingObservation | MixedObservations | InvalidBar

  datatype Bar = Bar(
    start: string, end: string, open: real, high: real, low: real, close: real, volume: real,
    amount: Option<real>, sourceAt: Option<string>, observedAt: Option<string>)

  /** What the bar constructor enforces on prices and amounts. */
  predicate Consistent(b: Bar) {
    && b.low <= b.open <= b.high && b.low <= b.close <= b.high
    && (b.amount.Some? ==> b.amount.value >= 0.0)
  }

  type Width = w: nat | w > 0 witness 1

  /** A date, a space or a `T`, and a clock time. */
  predicate ValidBarTime(v: string) {
    |v| == 19 && v[10] in {' ', 'T'} && ValidIsoDate(v[..10]) && ValidClockTime(v[11..])
  }

  /** Seconds from one bar time to another of the same day. */
  function Span(start: string, end: string): int
    requires ValidBarTime(start) && ValidBarTime(end)
  {
    SecondsOf(end[11..]) - SecondsOf(start[11..])
  }

  /** What the bar constructor enforces on the times of a bar of `width` minutes. */
  predicate TimesFit(start: string, end: string, width: Width) {
    && ValidBarTime(start) && ValidBarTime(end) && start[10] == end[10] && AtMost(start, end)
    && start[..10] == end[..10] && 0 <= Span(start, end) <= 60 * width
  }

  /** The bar constructor accepts the bar as one of `width` minutes. */
  predicate Accepted(b: Bar, width: Width) {
    TimesFit(b.start, b.end, width) && Consistent(b)
  }

  // ---- Buckets ----------------------------------------------------------------------------------

  /** The aggregation bucket of a timestamp, and its minute of the day. */
  function MinuteBucket(timestamp: string, width: Width): Result<(string, nat), Error> {
    match SplitOnce(timestamp, ' ')
    case None => Err(InvalidTimestamp)
    case Some((date, time)) =>
      var fields := Split(time, ':');
      var hour := ParseUnsigned(fields[0], 65_535);
      var minute := if |fields| > 1 then ParseUnsigned(fields[1], 65_535) else None;
      if hour.None? || minute.None? || hour.value > 23 || minute.value > 59 then Err(InvalidTimestamp)
      else
        var minuteOfDay := hour.value * 60 + minute.value;
        Ok((BucketKey(date, minuteOfDay, width), minuteOfDay))
  }

  function BucketKey(date: string, minuteOfDay: nat, width: Width): string {
    date + ":" + Numeral(Slot(minuteOfDay, width))
  }

  function Slot(minuteOfDay: nat, width: Width): nat {
    minuteOfDay / width
  }

  predicate Bucketed(b: Bar, width: Width) {
    MinuteBucket(b.start, width).Ok?
  }

  function Key(b: Bar, width: Width): string
    requires Bucketed(b, width)
  {
    MinuteBucket(b.start, width).value.0
  }

  function Minute(b: Bar, width: Width): nat
    requires Bucketed(b, width)
  {
    MinuteBucket(b.start, width).value.1
  }

  predicate AllBucketed(bars: seq<Bar>, width: Width) {
    forall i | 0 <= i < |bars| :: Bucketed(bars[i], width)
  }

  /** Neighbours in one bucket are one minute apart. */
  predicate NoGaps(bars: seq<Bar>, width: Width)
    requires AllBucketed(bars, width)
  {
    forall i | 0 < i < |bars| && Key(bars[i], width) == Key(bars[i - 1], width) ::
      Minute(bars[i], width) == Minute(bars[i - 1], width) + 1
  }

  // ---- One group ----------------------------------------------------------------------------------

  function Highest(group: seq<Bar>): (h: real)
    requires group != []
    ensures forall b | b in group :: b.high <= h
    ensures exists b | b in group :: b.high == h
  {
    if |group| == 1 then group[0].high
    else
      var h := Highest(group[1..]);
      assert forall b | b in group :: b == group[0] || b in group[1..];
      if group[0].high > h then group[0].high else h
  }

  function Lowest(group: seq<Bar>): (l: real)
    requires group != []
    ensures forall b | b in group :: l <= b.low
    ensures exists b | b in group :: b.low == l
  {
    if |group| == 1 then group[0].low
    else
      var l := Lowest(group[1..]);
      assert forall b | b in group :: b == group[0] || b in group[1..];
      if group[0].low < l then group[0].low else l
  }

  function Volume(group: seq<Bar>): real {
    if group == [] then 0.0 else Volume(group[..|group| - 1]) + group[|group| - 1].volume
  }

  predicate AllAmounts(group: seq<Bar>) {
    forall b | b in group :: b.amount.Some?
  }

  function Amount(group: seq<Bar>): real
    requires AllAmounts(group)
  {
    if group == [] then 0.0 else Amount(group[..|group| - 1]) + group[|group| - 1].amount.value
  }

  /** Every bar of the group was observed, all at one time. */
  predicate SameObservation(group: seq<Bar>) {
    group != [] && group[0].observedAt.Some? && forall b | b in group :: b.observedAt == group[0].observedAt
  }

  /** One bar for a whole group, before the constructor checks it. */
  function Summary(group: seq<Bar>): Bar
    requires group != []
  {
    var first, last := group[0], group[|group| - 1];
    Bar(first.start, last.end, first.open, Highest(group), Lowest(group), last.close, Volume(group),
        if AllAmounts(group) then Some(Amount(group)) else None, last.sourceAt, first.observedAt)
  }

  /** One observation, and a summary that the bar constructor accepts. */
  predicate Summarisable(group: seq<Bar>, width: Width) {
    SameObservation(group) && Accepted(Summary(group), width)
  }

  function AggregateGroup(group: seq<Bar>, width: Width): (r: Result<Bar, Error>)
    requires group != []
    ensures r.Ok? <==> Summarisable(group, width)
  {
    var first := group[0];
    if first.observedAt.None? then Err(MissingObservation)
    else if exists b | b in group :: b.observedAt != first.observedAt then Err(MixedObservations)
    else if !Accepted(Summary(group), width) then Err(InvalidBar)
    else Ok(Summary(group))
  }

  // ---- Runs ---------------------------------------------------------------------------------------------

  /** The bars cut wherever the bucket changes. */
  function Runs(bars: seq<Bar>, width: Width): (runs: seq<seq<Bar>>)
    requires AllBucketed(bars, width)
    ensures forall i | 0 <= i < |runs| :: runs[i] != []
    ensures bars != [] ==> runs != []
  {
    if bars == [] then []
    else
      var n := |bars| - 1;
      var init := Runs(bars[..n], width);
      if n > 0 && Key(bars[n], width) == Key(bars[n - 1], width)
      then init[..|init| - 1] + [init[|init| - 1] + [bars[n]]]
      else init + [[bars[n]]]
  }

  /** One aggregated bar per run, in order. */
  predicate Summarises(result: seq<Bar>, runs: seq<seq<Bar>>, width: Width) {
    && |result| == |runs|
    && forall i | 0 <= i < |runs| :: runs[i] != [] && AggregateGroup(runs[i], width) == Ok(result[i])
  }

  predicate Aggregable(bars: seq<Bar>, width: Width) {
    && AllBucketed(bars, width) && NoGaps(bars, width)
    && forall run | run in Runs(bars, width) :: Summarisable(run, width)
  }

  lemma RunsStep(bars: seq<Bar>, bar: Bar, width: Width)
    requires AllBucketed(bars, width) && Bucketed(bar, width)
    ensures AllBucketed(bars + [bar], width)
    ensures var runs, n := Runs(bars, width), |bars|;
            Runs(bars + [bar], width)
            == if n > 0 && Key(bar, width) == Key(bars[n - 1], width) then runs[..|runs| - 1] + [runs[|runs| - 1] + [bar]]
               else runs + [[bar]]
  {
    hide MinuteBucket;
    assert (bars + [bar])[..|bars|] == bars;
  }

  /** Where the bucket changes, the runs so far are final. */
  lemma {:induction false} RunsAreFinal(bars: seq<Bar>, i: nat, width: Width)
    requires AllBucketed(bars, width) && 0 < i < |bars| && Key(bars[i], width) != Key(bars[i - 1], width)
    ensures AllBucketed(bars[..i], width)
    ensures Runs(bars[..i], width) <= Runs(bars, width) && |Runs(bars[..i], width)| < |Runs(bars, width)|
    decreases |bars|
  {
    hide MinuteBucket, Runs;
    var n := |bars| - 1;
    var init := bars[..n];
    assert bars == init + [bars[n]];
    RunsStep(init, bars[n], width);
    if i < n {
      assert init[..i] == bars[..i];
      RunsAreFinal(init, i, width);
    } else {
      assert init == bars[..i];
    }
  }

  // ---- The grouping loop --------------------------------------------------------------------------------

  /** The loop's variables after the bars `done`: complete runs are summarised, the open run is the
      group. */
  ghost predicate Grouped(done: seq<Bar>, width: Width, result: seq<Bar>, group: seq<Bar>, groupKey: Option<string>,
                          previousMinute: Option<nat>) {
    && AllBucketed(done, width) && NoGaps(done, width)
    && if done == [] then result == [] && group == [] && groupKey.None? && previousMinute.None?
       else
         var runs := Runs(done, width);
         && Summarises(result, runs[..|runs| - 1], width) && group == runs[|runs| - 1]
         && groupKey == Some(Key(done[|done| - 1], width)) && previousMinute == Some(Minute(done[|done| - 1], width))
  }

  lemma FirstBar(bar: Bar, width: Width)
    requires Bucketed(bar, width)
    ensures Grouped([bar], width, [], [bar], Some(Key(bar, width)), Some(Minute(bar, width)))
  {
    hide MinuteBucket, AggregateGroup;
    RunsStep([], bar, width);
    assert [] + [bar] == [bar];
  }

  lemma NoGapsStep(done: seq<Bar>, bar: Bar, width: Width)
    requires AllBucketed(done, width) && NoGaps(done, width) && Bucketed(bar, width)
    requires done != [] && Key(bar, width) == Key(done[|done| - 1], width)
             ==> Minute(bar, width) == Minute(done[|done| - 1], width) + 1
    ensures AllBucketed(done + [bar], width) && NoGaps(done + [bar], width)
  {
    hide MinuteBucket, Key, Minute, Bucketed;
  }

  lemma SameBucket(done: seq<Bar>, bar: Bar, width: Width, result: seq<Bar>, group: seq<Bar>, key: string, minute: nat)
    requires Grouped(done, width, result, group, Some(key), Some(minute)) && Bucketed(bar, width)
    requires Key(bar, width) == key && Minute(bar, width) == minute + 1
    ensures Grouped(done + [bar], width, result, group + [bar], Some(key), Some(minute + 1))
  {
    hide MinuteBucket, AggregateGroup, Runs, NoGaps, AllBucketed, Summarises;
    LastIsBucketed(done, width);
    NoGapsStep(done, bar, width);
    RunsStep(done, bar, width);
    var runs, next := Runs(done, width), Runs(done + [bar], width);
    assert next[..|next| - 1] == runs[..|runs| - 1];
  }

  lemma NextBucket(done: seq<Bar>, bar: Bar, width: Width, result: seq<Bar>, group: seq<Bar>, key: string, minute: nat,
                   summary: Bar)
    requires Grouped(done, width, result, group, Some(key), Some(minute)) && Bucketed(bar, width)
    requires Key(bar, width) != key && group != [] && AggregateGroup(group, width) == Ok(summary)
    ensures Grouped(done + [bar], width, result + [summary], [bar], Some(Key(bar, width)), Some(Minute(bar, width)))
  {
    hide MinuteBucket, AggregateGroup, Runs, NoGaps, AllBucketed, Summarises;
    LastIsBucketed(done, width);
    NoGapsStep(done, bar, width);
    RunsStep(done, bar, width);
    var runs, next := Runs(done, width), Runs(done + [bar], width);
    assert next[..|next| - 1] == runs;
    assert runs == runs[..|runs| - 1] + [group];
    OneMore(result, runs[..|runs| - 1], width, group, summary);
  }

  lemma LastIsBucketed(done: seq<Bar>, width: Width)
    requires AllBucketed(done, width) && done != []
    ensures Bucketed(done[|done| - 1], width)
  {
    hide MinuteBucket;
  }

  lemma OneMore(result: seq<Bar>, runs: seq<seq<Bar>>, width: Width, group: seq<Bar>, summary: Bar)
    requires Summarises(result, runs, width) && group != [] && AggregateGroup(group, width) == Ok(summary)
    ensures Summarises(result + [summary], runs + [group], width)
  {
    hide AggregateGroup;
  }

  /** A group that cannot be summarised at a bucket change spoils the whole input. */
  lemma BadGroup(bars: seq<Bar>, i: nat, width: Width, group: seq<Bar>)
    requires 0 < i < |bars| && AllBucketed(bars[..i + 1], width) && Key(bars[i], width) != Key(bars[i - 1], width)
    requires AllBucketed(bars[..i], width) && group in Runs(bars[..i], width) && !Summarisable(group, width)
    ensures !Aggregable(bars, width)
  {
    hide MinuteBucket, Summarisable;
    if AllBucketed(bars, width) {
      RunsAreFinal(bars, i, width);
    }
  }

  lemma BadBar(bars: seq<Bar>, i: nat, width: Width)
    requires i < |bars| && !Bucketed(bars[i], width)
    ensures !Aggregable(bars, width)
  {
    hide Runs, Summarisable;
  }

  lemma Gap(bars: seq<Bar>, i: nat, width: Width)
    requires 0 < i < |bars| && Bucketed(bars[i], width) && Bucketed(bars[i - 1], width)
    requires Key(bars[i], width) == Key(bars[i - 1], width)
    requires Minute(bars[i], width) != Minute(bars[i - 1], width) + 1
    ensures !Aggregable(bars, width)
  {
    hide Runs, Summarisable, MinuteBucket;
  }

  /** The variables of the grouping loop. */
  datatype State = State(result: seq<Bar>, group: seq<Bar>, groupKey: Option<string>, previousMinute: Option<nat>)
  {
    ghost predicate After(done: seq<Bar>, width: Width) {
      Grouped(done, width, result, group, groupKey, previousMinute)
    }
  }

  /** One turn of the loop, for `bars[i]`: a bucket change closes the group, a gap is an error. */
  method AddBar(ghost bars: seq<Bar>, ghost i: nat, bar: Bar, width: Width, s: State) returns (r: Result<State, Error>)
    requires i < |bars| && bar == bars[i]
    requires s.After(bars[..i], width)
    ensures r.Ok? ==> r.value.After(bars[..i + 1], width)
    ensures r.Err? ==> !Aggregable(bars, width)
  {
    hide MinuteBucket, AggregateGroup, Runs, Summarisable, Grouped, Aggregable, AllBucketed, NoGaps;
    ghost var done := bars[..i];
    assert bars[..i + 1] == done + [bar];
    var bucket := MinuteBucket(bar.start, width);
    if bucket.Err? {
      BadBar(bars, i, width);
      return Err(bucket.error);
    }
    var (key, minute) := bucket.value;
    if s.groupKey.None? {
      NoGroup(done, width, s);
      FirstBar(bar, width);
      assert done + [bar] == [bar] && s.group + [bar] == [bar];
      return Ok(State(s.result, s.group + [bar], Some(key), Some(minute)));
    }
    HasGroup(done, width, s);
    if s.groupKey.value != key {
      var summary := AggregateGroup(s.group, width);
      if summary.Err? {
        StillBucketed(bars, i, width, s.result, s.group, s.groupKey, s.previousMinute);
        BadGroup(bars, i, width, s.group);
        return Err(summary.error);
      }
      NextBucket(done, bar, width, s.result, s.group, s.groupKey.value, s.previousMinute.value, summary.value);
      return Ok(State(s.result + [summary.value], [bar], Some(key), Some(minute)));
    }
    if minute != s.previousMinute.value + 1 {
      Gap(bars, i, width);
      return Err(MinuteGap);
    }
    SameBucket(done, bar, width, s.result, s.group, key, s.previousMinute.value);
    r := Ok(State(s.result, s.group + [bar], Some(key), Some(minute)));
  }

  lemma NoGroup(done: seq<Bar>, width: Width, s: State)
    requires s.After(done, width) && s.groupKey.None?
    ensures done == [] && s.result == [] && s.group == []
  {
  }

  lemma HasGroup(done: seq<Bar>, width: Width, s: State)
    requires s.After(done, width) && s.groupKey.Some?
    ensures done != [] && s.group != [] && s.previousMinute.Some?
    ensures AllBucketed(done, width) && s.group in Runs(done, width)
    ensures Bucketed(done[|done| - 1], width) && s.groupKey.value == Key(done[|done| - 1], width)
    ensures s.previousMinute.value == Minute(done[|done| - 1], width)
  {
    hide MinuteBucket, AggregateGroup, Summarises;
  }

  /** Groups consecutive bars of one bucket; width one passes them through. */
  method AggregateMinuteBars(bars: seq<Bar>, width: Width) returns (r: Result<seq<Bar>, Error>)
    ensures width == 1 ==> r == Ok(bars)
    ensures width > 1 ==> (r.Ok? <==> Aggregable(bars, width))
    ensures width > 1 && r.Ok? ==> Summarises(r.value, Runs(bars, width), width)
  {
    if width == 1 {
      return Ok(bars);
    }
    var s := State([], [], None, None);
    assert s.After([], width) && bars[..0] == [];
    hide Runs, AggregateGroup, Summarises, Summarisable, State.After, Aggregable;
    for i := 0 to |bars|
      invariant s.After(bars[..i], width)
    {
      var next := AddBar(bars, i, bars[i], width, s);
      if next.Err? {
        return Err(next.error);
      }
      s := next.value;
    }
    assert bars[..|bars|] == bars;
    if s.group == [] {
      NothingOpen(bars, width, s);
      return Ok(s.result);
    }
    LastGroup(bars, width, s);
    var summary := AggregateGroup(s.group, width);
    if summary.Err? {
      return Err(summary.error);
    }
    r := Ok(s.result + [summary.value]);
  }

  lemma NothingOpen(bars: seq<Bar>, width: Width, s: State)
    requires s.After(bars, width) && s.group == []
    ensures Aggregable(bars, width) && Summarises(s.result, Runs(bars, width), width)
  {
  }

  lemma StillBucketed(bars: seq<Bar>, i: nat, width: Width, result: seq<Bar>, group: seq<Bar>, key: Option<string>, minute: Option<nat>)
    requires 0 < i < |bars| && Bucketed(bars[i], width)
    requires Grouped(bars[..i], width, result, group, key, minute)
    ensures AllBucketed(bars[..i], width) && AllBucketed(bars[..i + 1], width)
  {
    hide MinuteBucket, Runs, Summarises, NoGaps, Bucketed;
    var done := bars[..i];
    assert bars[..i + 1] == done + [bars[i]];
  }

  lemma LastGroup(bars: seq<Bar>, width: Width, s: State)
    requires s.After(bars, width) && s.group != []
    ensures !Summarisable(s.group, width) ==> !Aggregable(bars, width)
    ensures Summarisable(s.group, width) ==>
              Aggregable(bars, width) && Summarises(s.result + [AggregateGroup(s.group, width).value], Runs(bars, width), width)
  {
    hide MinuteBucket, Summarisable, AggregateGroup, Runs, NoGaps, AllBucketed;
    var runs := Runs(bars, width);
    assert runs == runs[..|runs| - 1] + [s.group];
    forall run | run in runs[..|runs| - 1] ensures Summarisable(run, width) {
      var k :| 0 <= k < |runs| - 1 && runs[k] == run;
      assert AggregateGroup(runs[..|runs| - 1][k], width).Ok?;
    }
  }
}
