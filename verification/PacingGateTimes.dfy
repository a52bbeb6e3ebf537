/** How long the gate makes a thread wait, who is blocked, and what the tracker's counters say. */
module PacingGateTimes {
  import opened Wrappers
  import opened PacingGate
  import opened PacingGateLaws

  // ---- Waiting ----------------------------------------------------------------------------------------

  /** At the gate a thread goes on at once exactly if no request came before it or an interval has passed since the last
      stamp; otherwise it sleeps until an interval after that stamp, or later by the time it took to fall asleep. */
  lemma WaitsAreExact(interval: nat, s: State, actions: seq<Action>, t: Thread, delay: nat)
    requires Reachable(interval, s, actions) && s.PhaseOf(t).AtGate?
    ensures var due := s.stamps == [] || s.clock >= s.stamps[|s.stamps| - 1] + interval;
            var moved, slept := Execute(interval, s, [Run(t)]), Execute(interval, s, [Run(t), Tick(delay), Run(t)]);
            && moved.Some? && (moved.value.PhaseOf(t).Awake? <==> due)
            && (!due ==> slept.Some? && slept.value.PhaseOf(t) == Sleeping(s.stamps[|s.stamps| - 1] + interval + delay))
  {
    hide Execute, Reachable, LocksAgree, Tracked, Spaced, Probe.Started, Probe.Finished;
    ReachableInvariant(interval, s, actions);
    assert s.lastRequest == Last(s.stamps);
    OneAction(interval, s, Run(t));
    var moved := Next(interval, s, Run(t)).value;
    if moved.PhaseOf(t).Measured? {
      var later := Next(interval, moved, Tick(delay)).value;
      Unroll(interval, s, [Run(t), Tick(delay), Run(t)]);
      assert [Run(t), Tick(delay), Run(t)][1..] == [Tick(delay), Run(t)];
      TwoActions(interval, moved, Tick(delay), Run(t));
    }
  }

  /** A thread inside a request or a snapshot is blocked exactly if it wants the gate and another thread has it, sleeps
      and is not due, or wants the tracker and another thread is counting or reading. */
  lemma BlockedExactly(interval: nat, s: State, actions: seq<Action>, t: Thread)
    requires Reachable(interval, s, actions) && !s.PhaseOf(t).Idle?
    ensures Execute(interval, s, [Run(t)]).None?
            <==> match s.PhaseOf(t)
                 case WantGate => exists u: Thread :: HoldsGate(s.PhaseOf(u))
                 case Sleeping(until) => s.clock < until
                 case WantProbeToStart => exists u: Thread :: HoldsProbe(s.PhaseOf(u))
                 case WantProbeToFinish => exists u: Thread :: HoldsProbe(s.PhaseOf(u))
                 case WantSnapshot => exists u: Thread :: HoldsProbe(s.PhaseOf(u))
                 case _ => false
  {
    hide Reachable, Paced, Tracked, Spaced, Probe.Started, Probe.Finished;
    ReachableInvariant(interval, s, actions);
    assert [Run(t)][1..] == [];
    if s.gate.Some? {
      assert HoldsGate(s.PhaseOf(s.gate.value));
    }
    if s.probeLock.Some? {
      assert HoldsProbe(s.PhaseOf(s.probeLock.value));
    }
  }

  /** A snapshot needs the tracker alone: even while a request sleeps at the gate or is in flight, an idle thread can read
      one, and that changes nothing. */
  lemma SnapshotsPassTheGate(interval: nat, s: State, t: Thread)
    requires s.probeLock.None? && s.PhaseOf(t).Idle?
    ensures Execute(interval, s, [BeginSnapshot(t), Run(t), Run(t)]) == Some(s.(phases := s.phases[t := Idle]))
  {
    var wanting := s.At(t, WantSnapshot);
    var reading := wanting.At(t, Reading).(probeLock := Some(t));
    Unroll(interval, s, [BeginSnapshot(t), Run(t), Run(t)]);
    assert [BeginSnapshot(t), Run(t), Run(t)][1..] == [Run(t), Run(t)];
    TwoActions(interval, wanting, Run(t), Run(t));
    assert reading.phases[t := Idle] == s.phases[t := Idle];
  }

  // ---- Counting ---------------------------------------------------------------------------------------

  datatype Event = Start(at: nat) | Finish

  /** The tracker's counters after a new tracker was told of these events; a finish it refuses changes nothing. */
  function After(events: seq<Event>): Probe {
    if events == [] then NEW_PROBE
    else
      var before := After(events[..|events| - 1]);
      match events[|events| - 1]
      case Start(at) => before.Started(at)
      case Finish => match before.Finished() case Ok(probe) => probe case Err(_) => before
  }

  /** The times of the starts among the events. */
  function Starts(events: seq<Event>): seq<nat> {
    if events == [] then []
    else
      var before := Starts(events[..|events| - 1]);
      match events[|events| - 1]
      case Start(at) => before + [at]
      case Finish => before
  }

  /** The time from one start to the next, zero if the clock went back. */
  function Gap(starts: seq<nat>, i: nat): nat
    requires 0 < i < |starts|
  {
    if starts[i] >= starts[i - 1] then starts[i] - starts[i - 1] else 0
  }

  /** The gap is at most that between any two consecutive starts, and is one of these. */
  predicate IsLeastGap(starts: seq<nat>, gap: nat) {
    (forall i | 0 < i < |starts| :: gap <= Gap(starts, i)) && exists i | 0 < i < |starts| :: gap == Gap(starts, i)
  }

  lemma {:induction false} ShortestGapMeans(starts: seq<nat>)
    ensures if |starts| < 2 then ShortestGap(starts).None?
            else ShortestGap(starts).Some? && IsLeastGap(starts, ShortestGap(starts).value)
  {
    if |starts| >= 2 {
      var n := |starts| - 1;
      var init := starts[..n];
      ShortestGapMeans(init);
      assert forall i | 0 < i < |init| :: Gap(init, i) == Gap(starts, i);
      assert Gap(starts, n) == if starts[n] >= starts[n - 1] then starts[n] - starts[n - 1] else 0;
      if ShortestGap(init).Some? {
        var i :| 0 < i < |init| && ShortestGap(init).value == Gap(init, i);
        assert Gap(starts, i) == Gap(init, i);
      }
    }
  }

  /** After any events: the starts counted, the last start and the shortest gap between starts. */
  lemma {:induction false} StartsAreCounted(events: seq<Event>)
    ensures var probe, starts := After(events), Starts(events);
            && probe.requestStarts == Min(|starts|, 18_446_744_073_709_551_615)
            && probe.lastStarted == (if starts == [] then None else Some(starts[|starts| - 1]))
            && probe.minimumStartGap == ShortestGap(starts)
  {
    hide ShortestGap;
    if events != [] {
      StartsAreCounted(events[..|events| - 1]);
      if events[|events| - 1].Start? {
        GapOfMore(Starts(events[..|events| - 1]), events[|events| - 1].at);
      }
    } else {
      GapOfNone();
    }
  }

  lemma GapOfNone()
    ensures ShortestGap([]).None?
  {
  }

  lemma GapOfMore(starts: seq<nat>, at: nat)
    ensures ShortestGap(starts + [at])
            == if starts == [] then None
               else
                 var gap := if at >= starts[|starts| - 1] then at - starts[|starts| - 1] else 0;
                 match ShortestGap(starts)
                 case None => Some(gap)
                 case Some(least) => Some(Min(least, gap))
    ensures starts == [] ==> ShortestGap(starts).None?
  {
    hide Min;
    var more := starts + [at];
    assert more[..|starts|] == starts && more[|starts|] == at;
    assert |starts| > 0 ==> more[|starts| - 1] == starts[|starts| - 1];
  }

  /** A start makes one request more active, up to 32 bits; a finish one less, and is refused if none is. */
  lemma ActiveRequests(events: seq<Event>, at: nat)
    ensures After([]).activeRequests == 0
    ensures After(events + [Start(at)]).activeRequests == Min(After(events).activeRequests + 1, 4_294_967_295)
    ensures After(events).Finished().Err? <==> After(events).activeRequests == 0
    ensures After(events).activeRequests > 0 ==>
              After(events + [Finish]).activeRequests == After(events).activeRequests - 1
    ensures After(events).activeRequests == 0 ==> After(events + [Finish]) == After(events)
  {
    assert (events + [Start(at)])[..|events|] == events && (events + [Finish])[..|events|] == events;
  }

  /** The greatest concurrency is the greatest number of active requests there has been. */
  lemma {:induction false} ConcurrencyIsTheGreatest(events: seq<Event>) returns (k: nat)
    ensures k <= |events| && After(events).maximumConcurrency == After(events[..k]).activeRequests
    ensures forall j: nat | j <= |events| :: After(events[..j]).activeRequests <= After(events).maximumConcurrency
  {
    hide After;
    if events == [] {
      k := 0;
      NothingCounted();
      assert events[..0] == [];
    } else {
      var n := |events| - 1;
      var init := events[..n];
      k := ConcurrencyIsTheGreatest(init);
      assert init[..k] == events[..k] && init[..n] == init && events[..n + 1] == events;
      LastCounted(events);
      if After(events).maximumConcurrency != After(init).maximumConcurrency {
        k := n + 1;
      }
      forall j: nat | j <= |events| ensures After(events[..j]).activeRequests <= After(events).maximumConcurrency {
        if j <= n {
          assert events[..j] == init[..j];
        }
      }
    }
  }

  lemma NothingCounted()
    ensures After([]).maximumConcurrency == After([]).activeRequests == 0
  {
  }

  lemma LastCounted(events: seq<Event>)
    requires events != []
    ensures var before, after := After(events[..|events| - 1]), After(events);
            && before.maximumConcurrency <= after.maximumConcurrency
            && (after.activeRequests <= after.maximumConcurrency || after.activeRequests <= before.activeRequests)
            && (after.maximumConcurrency in {before.maximumConcurrency, after.activeRequests})
  {
  }
}
