/** Safety and progress of the pacing gate, over every interleaving. */
module PacingGateLaws {
  import opened Wrappers
  import opened PacingGate

  // ---- Safety over whole runs --------------------------------------------------------------------

  lemma ReachableInvariant(interval: nat, s: State, actions: seq<Action>)
    requires Reachable(interval, s, actions)
    ensures LocksAgree(s) && Paced(interval, s) && Tracked(s)
  {
    hide Execute, LocksAgree, Paced, Tracked;
    InitialInvariant(interval);
    RunKeepsInvariant(interval, INITIAL, actions);
  }

  /** In every reachable state, consecutive stamps are at least the interval apart, at most one
      transport call is in flight, and the tracker agrees: none or one active request, never more
      than one, and no finish without its start. */
  lemma RequestsArePaced(interval: nat, s: State, actions: seq<Action>)
    requires Reachable(interval, s, actions)
    ensures Spaced(interval, s.stamps)
    ensures forall t: Thread, u: Thread | s.PhaseOf(t).Calling? && s.PhaseOf(u).Calling? :: t == u
    ensures |s.starts| - s.finished == s.probe.activeRequests <= 1 && s.probe.maximumConcurrency <= 1
    ensures s.probe.activeRequests == 1 <==> exists t: Thread :: HasStarted(s.PhaseOf(t))
    ensures s.refused == 0
  {
    hide Reachable, Spaced, ShortestGap;
    ReachableInvariant(interval, s, actions);
    forall t: Thread | HasStarted(s.PhaseOf(t)) ensures s.gate == Some(t) {
      assert HoldsGate(s.PhaseOf(t));
    }
    if HasStarted(s.GatePhase()) {
      assert HasStarted(s.PhaseOf(s.gate.value));
    }
  }

  /** Each start the tracker records lies between its own gate stamp and the next, so the tracker's
      gap can fall short of the interval by no more than the first request's delay behind its stamp. */
  lemma TrackerLagsTheGate(interval: nat, s: State, actions: seq<Action>, i: nat)
    requires Reachable(interval, s, actions) && i + 1 < |s.starts|
    ensures |s.starts| <= |s.stamps|
    ensures s.stamps[i] <= s.starts[i] <= s.stamps[i + 1] <= s.starts[i + 1]
    ensures s.starts[i + 1] - s.starts[i] >= interval - (s.starts[i] - s.stamps[i])
  {
    hide Reachable, ShortestGap;
    ReachableInvariant(interval, s, actions);
  }

  /** A request by thread 0 whose start is recorded `delay` ticks behind its stamp. */
  function Reserve(delay: nat): seq<Action> {
    [BeginRequest(0), Run(0), Run(0), Run(0), Tick(delay)]
  }

  const PERFORM: seq<Action> := [Run(0), Run(0), Run(0), Run(0), Run(0), Run(0)]

  /** Both locks are free and thread 0 is idle. */
  predicate Quiet(s: State) {
    s.gate.None? && s.probeLock.None? && s.PhaseOf(0).Idle?
  }

  lemma Unroll(interval: nat, s: State, actions: seq<Action>)
    requires actions != []
    ensures Execute(interval, s, actions)
            == match Next(interval, s, actions[0])
               case None => None
               case Some(next) => Execute(interval, next, actions[1..])
  {
  }

  lemma ReserveRuns(interval: nat, s: State, delay: nat)
    requires Quiet(s) && (s.lastRequest.Some? ==> s.clock >= s.lastRequest.value + interval)
    ensures Execute(interval, s, Reserve(delay))
            == Some(s.(clock := s.clock + delay, gate := Some(0), lastRequest := Some(s.clock),
                       stamps := s.stamps + [s.clock], phases := s.phases[0 := WantProbeToStart]))
  {
    hide Execute, Probe.Started, Probe.Finished;
    var s1 := s.At(0, WantGate);
    var s2 := s1.At(0, AtGate).(gate := Some(0));
    var s3 := s2.At(0, Awake);
    var s4 := s3.At(0, WantProbeToStart).(lastRequest := Some(s.clock), stamps := s.stamps + [s.clock]);
    var s5 := s4.(clock := s.clock + delay);
    assert s5.phases == s.phases[0 := WantProbeToStart];
    Unroll(interval, s, Reserve(delay));
    Unroll(interval, s1, Reserve(delay)[1..]);
    Unroll(interval, s2, Reserve(delay)[1..][1..]);
    Unroll(interval, s3, Reserve(delay)[1..][1..][1..]);
    OneAction(interval, s4, Tick(delay));
    assert Reserve(delay)[1..][1..][1..][1..] == [Tick(delay)];
  }

  lemma PerformRuns(interval: nat, s: State)
    requires s.gate == Some(0) && s.probeLock.None? && s.PhaseOf(0).WantProbeToStart?
    ensures Execute(interval, s, PERFORM).Some?
    ensures var s' := Execute(interval, s, PERFORM).value;
            Quiet(s') && s'.clock == s.clock && s'.lastRequest == s.lastRequest
            && s'.stamps == s.stamps && s'.starts == s.starts + [s.clock]
  {
    hide Execute, Probe.Started, Probe.Finished;
    var s1 := RunStep(interval, s, 0).value;
    var s2 := RunStep(interval, s1, 0).value;
    var s3 := RunStep(interval, s2, 0).value;
    var s4 := RunStep(interval, s3, 0).value;
    var s5 := RunStep(interval, s4, 0).value;
    Unroll(interval, s, PERFORM);
    Unroll(interval, s1, PERFORM[1..]);
    Unroll(interval, s2, PERFORM[1..][1..]);
    Unroll(interval, s3, PERFORM[1..][1..][1..]);
    Unroll(interval, s4, PERFORM[1..][1..][1..][1..]);
    OneAction(interval, s5, Run(0));
    assert PERFORM[1..][1..][1..][1..][1..] == [Run(0)];
  }

  /** For every interval and every delay up to it, a run in which the second of two starts is
      recorded with its stamp and the first is recorded `delay` ticks late. */
  lemma DelayedRun(interval: nat, delay: nat) returns (s: State, actions: seq<Action>)
    requires delay <= interval
    ensures Reachable(interval, s, actions)
    ensures s.stamps == [0, interval] && s.starts == [delay, interval]
  {
    hide Execute, Next;
    ReserveRuns(interval, INITIAL, delay);
    var s1 := Execute(interval, INITIAL, Reserve(delay)).value;
    PerformRuns(interval, s1);
    var s2 := Execute(interval, s1, PERFORM).value;
    var rest: nat := interval - delay;
    TickRuns(interval, s2, rest);
    var s3 := Execute(interval, s2, [Tick(rest)]).value;
    ReserveRuns(interval, s3, 0);
    var s4 := Execute(interval, s3, Reserve(0)).value;
    PerformRuns(interval, s4);
    s := Execute(interval, s4, PERFORM).value;
    ExecuteConcat(interval, INITIAL, Reserve(delay), PERFORM);
    ExecuteConcat(interval, INITIAL, Reserve(delay) + PERFORM, [Tick(rest)]);
    ExecuteConcat(interval, INITIAL, Reserve(delay) + PERFORM + [Tick(rest)], Reserve(0));
    ExecuteConcat(interval, INITIAL, Reserve(delay) + PERFORM + [Tick(rest)] + Reserve(0), PERFORM);
    actions := Reserve(delay) + PERFORM + [Tick(rest)] + Reserve(0) + PERFORM;
  }

  lemma TickRuns(interval: nat, s: State, ticks: nat)
    ensures Execute(interval, s, [Tick(ticks)]) == Some(s.(clock := s.clock + ticks))
  {
    OneAction(interval, s, Tick(ticks));
  }

  /** Each start is recorded at most `delay` ticks behind its stamp. */
  predicate LagsAtMost(delay: nat, s: State) {
    forall i | 0 <= i < |s.starts| && i < |s.stamps| :: s.starts[i] - s.stamps[i] <= delay
  }

  /** In every run whose recorded starts lag at most `delay` behind their stamps, they are at least
      `gap` apart. */
  ghost predicate GuaranteesGap(interval: nat, delay: nat, gap: nat) {
    forall s: State, actions: seq<Action> | Reachable(interval, s, actions) && LagsAtMost(delay, s) ::
      Spaced(gap, s.starts)
  }

  /** The gap that recorded starts are sure to keep is the interval less their lag, and no more. */
  lemma GuaranteedGap(interval: nat, delay: nat, gap: nat)
    ensures GuaranteesGap(interval, delay, gap) <==> gap == 0 || gap + delay <= interval
  {
    hide Reachable;
    if gap == 0 || gap + delay <= interval {
      forall s: State, actions: seq<Action> | Reachable(interval, s, actions) && LagsAtMost(delay, s)
        ensures Spaced(gap, s.starts)
      {
        forall i | 0 < i < |s.starts| ensures s.starts[i] >= s.starts[i - 1] + gap {
          TrackerLagsTheGate(interval, s, actions, i - 1);
        }
      }
    }
    if GuaranteesGap(interval, delay, gap) {
      var s, actions := DelayedRun(interval, Min(delay, interval));
      assert LagsAtMost(delay, s);
      assert s.starts[1] >= s.starts[0] + gap;
    }
  }

  /** The starts the tracker sees need not be spaced at all: at the largest delay two of them are
      recorded at the same instant, though their stamps are an interval apart. */
  lemma TrackerGapCanVanish(interval: nat) returns (s: State, actions: seq<Action>)
    ensures Reachable(interval, s, actions)
    ensures s.stamps == [0, interval] && s.starts == [interval, interval]
  {
    s, actions := DelayedRun(interval, interval);
  }

  lemma {:induction false} ExecuteConcat(interval: nat, s: State, a: seq<Action>, b: seq<Action>)
    requires Execute(interval, s, a).Some?
    ensures Execute(interval, s, a + b) == Execute(interval, Execute(interval, s, a).value, b)
    decreases |a|
  {
    hide Next;
    if a == [] {
      assert a + b == b;
    } else {
      ExecuteConcat(interval, Next(interval, s, a[0]).value, a[1..], b);
      assert (a + b)[1..] == a[1..] + b;
    }
  }

  // ---- Progress --------------------------------------------------------------------------------------

  /** Steps the gate holder still has to take. */
  function Rank(p: Phase): nat {
    match p
    case AtGate => 9
    case Measured(_) => 8
    case Sleeping(_) => 7
    case Awake => 6
    case WantProbeToStart => 5
    case RecordingStart => 4
    case Calling => 3
    case WantProbeToFinish => 2
    case RecordingFinish => 2
    case Releasing => 1
    case _ => 0
  }

  /** `s'` differs from `s` at no thread but `t`. */
  ghost predicate OnlyMoves(s: State, s': State, t: Thread) {
    forall u: Thread | u != t :: s'.PhaseOf(u) == s.PhaseOf(u)
  }

  /** Whoever holds the tracker's lock can always give it back. */
  lemma FreeProbe(interval: nat, s: State) returns (more: seq<Action>)
    requires LocksAgree(s)
    ensures Execute(interval, s, more).Some?
    ensures var s' := Execute(interval, s, more).value;
            && LocksAgree(s') && s'.probeLock.None? && s'.gate == s.gate
            && (forall t: Thread :: s'.PhaseOf(t) == s.PhaseOf(t) || s.probeLock == Some(t))
            && (forall t: Thread | s.PhaseOf(t).Reading? :: s'.PhaseOf(t).Idle?)
  {
    if s.probeLock.None? {
      more := [];
      assert forall t: Thread :: !HoldsProbe(s.PhaseOf(t));
    } else {
      hide RunStep;
      var t := s.probeLock.value;
      assert HoldsProbe(s.PhaseOf(t));
      ProbeHolderRuns(interval, s, t);
      OneThreadMoves(interval, s, t);
      GateEffect(interval, s, t);
      ProbeEffect(interval, s, t);
      LocksStayConsistent(interval, s, Run(t));
      more := [Run(t)];
      OneAction(interval, s, Run(t));
    }
  }

  lemma ProbeHolderRuns(interval: nat, s: State, t: Thread)
    requires HoldsProbe(s.PhaseOf(t))
    ensures RunStep(interval, s, t).Some?
    ensures s.PhaseOf(t).Reading? ==> RunStep(interval, s, t).value.PhaseOf(t).Idle?
    ensures !HoldsProbe(RunStep(interval, s, t).value.PhaseOf(t))
  {
    hide Probe.Started, Probe.Finished;
  }

  lemma OneAction(interval: nat, s: State, a: Action)
    requires Next(interval, s, a).Some?
    ensures Execute(interval, s, [a]) == Next(interval, s, a)
  {
    hide Next;
    assert [a][1..] == [];
  }

  lemma TwoActions(interval: nat, s: State, a: Action, b: Action)
    requires Next(interval, s, a).Some? && Next(interval, Next(interval, s, a).value, b).Some?
    ensures Execute(interval, s, [a, b]) == Next(interval, Next(interval, s, a).value, b)
  {
    hide Next;
    assert [a, b][1..] == [b];
    OneAction(interval, Next(interval, s, a).value, b);
  }

  /** While the tracker is free, the gate holder can get on; it needs at most time to pass. */
  lemma HolderAdvances(interval: nat, s: State) returns (more: seq<Action>)
    requires LocksAgree(s) && s.probeLock.None? && s.gate.Some?
    ensures Execute(interval, s, more).Some?
    ensures var t := s.gate.value;
            var s' := Execute(interval, s, more).value;
            && LocksAgree(s') && s'.probeLock.None? && OnlyMoves(s, s', t)
            && (s'.gate == s.gate || s'.gate.None?)
            && Rank(s'.PhaseOf(t)) < Rank(s.PhaseOf(t))
            && (s'.gate.None? ==> s'.PhaseOf(t).Idle?)
  {
    hide Probe.Started, Probe.Finished;
    var t := s.gate.value;
    var p := s.PhaseOf(t);
    assert HoldsGate(p) && !HoldsProbe(p);
    var first := if p.Sleeping? then Tick(p.until) else Run(t);
    var s1 := Next(interval, s, first).value;
    LocksStayConsistent(interval, s, first);
    if p.Sleeping? || p.WantProbeToStart? || p.WantProbeToFinish? {
      LocksStayConsistent(interval, s1, Run(t));
      TwoActions(interval, s, first, Run(t));
      more := [first, Run(t)];
    } else {
      OneAction(interval, s, first);
      more := [first];
    }
  }

  /** While the tracker is free, the gate can be freed; its holder ends idle, and nobody else has
      moved. */
  lemma {:induction false} DrainGate(interval: nat, s: State) returns (more: seq<Action>)
    requires LocksAgree(s) && s.probeLock.None?
    ensures Execute(interval, s, more).Some?
    ensures var s' := Execute(interval, s, more).value;
            && LocksAgree(s') && s'.gate.None? && s'.probeLock.None?
            && (forall t: Thread :: s'.PhaseOf(t) == if s.gate == Some(t) then Idle else s.PhaseOf(t))
    decreases Rank(s.GatePhase())
  {
    hide LocksAgree, Next;
    if s.gate.None? {
      more := [];
    } else {
      var head := HolderAdvances(interval, s);
      var mid := Execute(interval, s, head).value;
      GateRank(s);
      var tail := DrainGate(interval, mid);
      more := head + tail;
      ExecuteConcat(interval, s, head, tail);
    }
  }

  lemma GateRank(s: State)
    requires s.gate.Some?
    ensures Rank(s.GatePhase()) == Rank(s.PhaseOf(s.gate.value))
  {
  }

  /** From any state with consistent locks, both locks can be freed; their holders end idle, and
      nobody else has moved. */
  lemma FreeBothLocks(interval: nat, s: State) returns (more: seq<Action>)
    requires LocksAgree(s)
    ensures Execute(interval, s, more).Some?
    ensures var s' := Execute(interval, s, more).value;
            && LocksAgree(s') && s'.gate.None? && s'.probeLock.None?
            && (forall t: Thread ::
                  s'.PhaseOf(t) == if s.gate == Some(t) || s.probeLock == Some(t) then Idle else s.PhaseOf(t))
  {
    hide Execute;
    var a := FreeProbe(interval, s);
    var s1 := Execute(interval, s, a).value;
    var b := DrainGate(interval, s1);
    ExecuteConcat(interval, s, a, b);
    more := a + b;
    if s.probeLock.Some? {
      assert HoldsProbe(s.PhaseOf(s.probeLock.value));
    }
  }

  /** The gate and the tracker's lock cannot deadlock: from every reachable state, whatever the other
      threads hold or wait for, some schedule lets any given thread finish what it is doing. */
  lemma EveryThreadCanFinish(interval: nat, s: State, actions: seq<Action>, t: Thread) returns (more: seq<Action>)
    requires Reachable(interval, s, actions)
    ensures Execute(interval, s, more).Some? && Execute(interval, s, more).value.PhaseOf(t).Idle?
  {
    hide Execute, LocksAgree, Paced, Tracked, Reachable;
    ReachableInvariant(interval, s, actions);
    var a := FreeBothLocks(interval, s);
    var s1 := Execute(interval, s, a).value;
    var b := FinishAlone(interval, s1, t);
    ExecuteConcat(interval, s, a, b);
    more := a + b;
  }

  /** A thread that finds both locks free can finish. */
  lemma FinishAlone(interval: nat, s: State, t: Thread) returns (more: seq<Action>)
    requires LocksAgree(s) && s.gate.None? && s.probeLock.None?
    ensures Execute(interval, s, more).Some? && Execute(interval, s, more).value.PhaseOf(t).Idle?
  {
    hide Probe.Started, Probe.Finished;
    assert !HoldsGate(s.PhaseOf(t)) && !HoldsProbe(s.PhaseOf(t));
    match s.PhaseOf(t)
    case Idle => more := [];
    case WantSnapshot =>
      TwoActions(interval, s, Run(t), Run(t));
      more := [Run(t), Run(t)];
    case WantGate =>
      OneAction(interval, s, Run(t));
      var s1 := Next(interval, s, Run(t)).value;
      LocksStayConsistent(interval, s, Run(t));
      var tail := DrainGate(interval, s1);
      ExecuteConcat(interval, s, [Run(t)], tail);
      more := [Run(t)] + tail;
  }
}
