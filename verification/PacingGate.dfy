/** The request pacing gate shared by all clones of a client: a mutex-guarded start time, held across
    sleep, start, transport call and finish, and a second mutex around the request tracker. Threads
    interleave at every lock, clock reading and record. Instants are ticks of one monotone clock. */
module PacingGate {
  import opened Wrappers

  const U64_MAX: nat := 0xFFFF_FFFF_FFFF_FFFF
  const U32_MAX: nat := 0xFFFF_FFFF

  datatype TrackerError = FinishWithoutStart

  function Max(a: nat, b: nat): nat {
    if a >= b then a else b
  }

  /** The tracker's counters, as `snapshot` copies them out. */
  datatype Probe = Probe(
    lastStarted: Option<nat>, minimumStartGap: Option<nat>, requestStarts: nat, activeRequests: nat,
    maximumConcurrency: nat)
  {
    function Started(now: nat): Probe {
      var active := Min(activeRequests + 1, U32_MAX);
      Probe(
        Some(now),
        (match lastStarted
         case None => minimumStartGap
         case Some(previous) =>
           var gap := if now >= previous then now - previous else 0;
           Some(if minimumStartGap.Some? then Min(minimumStartGap.value, gap) else gap)),
        Min(requestStarts + 1, U64_MAX), active, Max(maximumConcurrency, active))
    }

    function Finished(): Result<Probe, TrackerError> {
      if activeRequests == 0 then Err(FinishWithoutStart) else Ok(this.(activeRequests := activeRequests - 1))
    }
  }

  const NEW_PROBE := Probe(None, None, 0, 0, 0)

  /** The tracker itself, updated in place. */
  class ProbeRequestTracker {
    var lastStarted: Option<nat>
    var minimumStartGap: Option<nat>
    var requestStarts: nat
    var activeRequests: nat
    var maximumConcurrency: nat

    function Snapshot(): Probe
      reads this
    {
      Probe(lastStarted, minimumStartGap, requestStarts, activeRequests, maximumConcurrency)
    }

    constructor ()
      ensures Snapshot() == NEW_PROBE
    {
      lastStarted, minimumStartGap, requestStarts, activeRequests, maximumConcurrency := None, None, 0, 0, 0;
    }

    method RequestStarted(now: nat)
      modifies this
      ensures Snapshot() == old(Snapshot()).Started(now)
    {
      if lastStarted.Some? {
        var gap := if now >= lastStarted.value then now - lastStarted.value else 0;
        minimumStartGap := Some(if minimumStartGap.Some? then Min(minimumStartGap.value, gap) else gap);
      }
      lastStarted := Some(now);
      requestStarts := Min(requestStarts + 1, U64_MAX);
      activeRequests := Min(activeRequests + 1, U32_MAX);
      maximumConcurrency := Max(maximumConcurrency, activeRequests);
    }

    method RequestFinished() returns (r: Result<(), TrackerError>)
      modifies this
      ensures r.Ok? <==> old(Snapshot()).Finished().Ok?
      ensures Snapshot() == match old(Snapshot()).Finished() case Ok(probe) => probe case Err(_) => old(Snapshot())
    {
      if activeRequests == 0 {
        return Err(FinishWithoutStart);
      }
      activeRequests := activeRequests - 1;
      r := Ok(());
    }
  }

  // ---- Threads ---------------------------------------------------------------------------------------

  type Thread = nat

  /** Where a thread stands inside a request, or inside a snapshot. */
  datatype Phase =
    | Idle
    | WantGate
    | AtGate
    | Measured(wait: nat)
    | Sleeping(until: nat)
    | Awake
    | WantProbeToStart
    | RecordingStart
    | Calling
    | WantProbeToFinish
    | RecordingFinish
    | Releasing
    | WantSnapshot
    | Reading

  predicate HoldsGate(p: Phase) {
    !(p.Idle? || p.WantGate? || p.WantSnapshot? || p.Reading?)
  }

  predicate HoldsProbe(p: Phase) {
    p.RecordingStart? || p.RecordingFinish? || p.Reading?
  }

  /** Shared state, and what an observer records of the run: the gate's start stamps, the starts and
      finishes the tracker counted, and the finishes it refused. */
  datatype State = State(
    clock: nat, gate: Option<Thread>, probeLock: Option<Thread>, lastRequest: Option<nat>, probe: Probe,
    phases: map<Thread, Phase>, stamps: seq<nat>, starts: seq<nat>, finished: nat, refused: nat)
  {
    function PhaseOf(t: Thread): Phase {
      if t in phases then phases[t] else Idle
    }

    /** The phase of the thread that holds the gate. */
    function GatePhase(): Phase {
      if gate.Some? then PhaseOf(gate.value) else Idle
    }

    function At(t: Thread, p: Phase): State {
      this.(phases := phases[t := p])
    }
  }

  const INITIAL := State(0, None, None, None, NEW_PROBE, map[], [], [], 0, 0)

  /** Time passes, a thread begins a request or a snapshot, or a thread takes its next step. */
  datatype Action = Tick(ticks: nat) | BeginRequest(t: Thread) | BeginSnapshot(t: Thread) | Run(t: Thread)

  /** The state after an action, if the action can be taken. */
  function Next(interval: nat, s: State, a: Action): Option<State> {
    match a
    case Tick(ticks) => Some(s.(clock := s.clock + ticks))
    case BeginRequest(t) => if s.PhaseOf(t).Idle? then Some(s.At(t, WantGate)) else None
    case BeginSnapshot(t) => if s.PhaseOf(t).Idle? then Some(s.At(t, WantSnapshot)) else None
    case Run(t) => RunStep(interval, s, t)
  }

  function RunStep(interval: nat, s: State, t: Thread): Option<State> {
    match s.PhaseOf(t)
    case Idle => None
    case WantGate => if s.gate.None? then Some(s.At(t, AtGate).(gate := Some(t))) else None
    case AtGate =>
      var elapsed := if s.lastRequest.Some? && s.lastRequest.value <= s.clock then s.clock - s.lastRequest.value else 0;
      if s.lastRequest.Some? && elapsed < interval then Some(s.At(t, Measured(interval - elapsed)))
      else Some(s.At(t, Awake))
    case Measured(wait) => Some(s.At(t, Sleeping(s.clock + wait)))
    case Sleeping(until) => if s.clock >= until then Some(s.At(t, Awake)) else None
    case Awake => Some(s.At(t, WantProbeToStart).(lastRequest := Some(s.clock), stamps := s.stamps + [s.clock]))
    case WantProbeToStart =>
      if s.probeLock.None? then Some(s.At(t, RecordingStart).(probeLock := Some(t))) else None
    case RecordingStart =>
      Some(s.At(t, Calling).(probe := s.probe.Started(s.clock), starts := s.starts + [s.clock], probeLock := None))
    case Calling => Some(s.At(t, WantProbeToFinish))
    case WantProbeToFinish =>
      if s.probeLock.None? then Some(s.At(t, RecordingFinish).(probeLock := Some(t))) else None
    case RecordingFinish =>
      (match s.probe.Finished()
       case Ok(probe) => Some(s.At(t, Releasing).(probe := probe, finished := s.finished + 1, probeLock := None))
       case Err(_) => Some(s.At(t, Releasing).(refused := s.refused + 1, probeLock := None)))
    case Releasing => Some(s.At(t, Idle).(gate := None))
    case WantSnapshot => if s.probeLock.None? then Some(s.At(t, Reading).(probeLock := Some(t))) else None
    case Reading => Some(s.At(t, Idle).(probeLock := None))
  }

  /** The state after a sequence of actions, if each can be taken in turn. */
  function Execute(interval: nat, s: State, actions: seq<Action>): Option<State>
    decreases |actions|
  {
    if actions == [] then Some(s)
    else
      match Next(interval, s, actions[0])
      case None => None
      case Some(next) => Execute(interval, next, actions[1..])
  }

  predicate Reachable(interval: nat, s: State, actions: seq<Action>) {
    Execute(interval, INITIAL, actions) == Some(s)
  }

  // ---- What every step keeps --------------------------------------------------------------------------

  ghost predicate LocksAgree(s: State) {
    && (forall t: Thread :: HoldsGate(s.PhaseOf(t)) <==> s.gate == Some(t))
    && (forall t: Thread :: HoldsProbe(s.PhaseOf(t)) <==> s.probeLock == Some(t))
  }

  predicate Spaced(interval: nat, stamps: seq<nat>) {
    forall i | 0 < i < |stamps| :: stamps[i] >= stamps[i - 1] + interval
  }

  /** The shortest gap between consecutive starts. */
  function ShortestGap(starts: seq<nat>): Option<nat> {
    if |starts| < 2 then None
    else
      var n := |starts| - 1;
      var gap := if starts[n] >= starts[n - 1] then starts[n] - starts[n - 1] else 0;
      match ShortestGap(starts[..n])
      case None => Some(gap)
      case Some(least) => Some(Min(least, gap))
  }

  function Last(s: seq<nat>): Option<nat> {
    if s == [] then None else Some(s[|s| - 1])
  }

  /** The gate's stamps are spaced, and the holder's wait, if any, ends late enough. */
  predicate Paced(interval: nat, s: State) {
    && s.lastRequest == Last(s.stamps)
    && (s.stamps != [] ==> s.stamps[|s.stamps| - 1] <= s.clock)
    && Spaced(interval, s.stamps)
    && match s.GatePhase()
       case Measured(wait) => s.stamps != [] && s.clock + wait >= s.stamps[|s.stamps| - 1] + interval
       case Sleeping(until) => s.stamps != [] && until >= s.stamps[|s.stamps| - 1] + interval
       case Awake => s.stamps != [] ==> s.clock >= s.stamps[|s.stamps| - 1] + interval
       case _ => true
  }

  predicate HasStarted(p: Phase) {
    p.Calling? || p.WantProbeToFinish? || p.RecordingFinish?
  }

  /** The tracker counts every stamp once, between it and the next one, and every finish once. */
  predicate Tracked(s: State) {
    && |s.stamps| == |s.starts| + (if s.GatePhase().WantProbeToStart? || s.GatePhase().RecordingStart? then 1 else 0)
    && |s.starts| == s.finished + (if HasStarted(s.GatePhase()) then 1 else 0)
    && s.refused == 0
    && s.probe.activeRequests == |s.starts| - s.finished
    && s.probe.requestStarts == Min(|s.starts|, U64_MAX)
    && s.probe.maximumConcurrency == (if s.starts == [] then 0 else 1)
    && s.probe.lastStarted == Last(s.starts)
    && s.probe.minimumStartGap == ShortestGap(s.starts)
    && (forall i | 0 <= i < |s.starts| :: s.stamps[i] <= s.starts[i] <= s.clock)
    && (forall i | 0 <= i < |s.starts| && i + 1 < |s.stamps| :: s.starts[i] <= s.stamps[i + 1])
  }

  ghost predicate Invariant(interval: nat, s: State) {
    LocksAgree(s) && Paced(interval, s) && Tracked(s)
  }

  lemma InitialInvariant(interval: nat)
    ensures Invariant(interval, INITIAL)
  {
  }

  /** A thread's step moves no other thread. */
  lemma OneThreadMoves(interval: nat, s: State, t: Thread)
    requires RunStep(interval, s, t).Some?
    ensures var s' := RunStep(interval, s, t).value; s'.phases == s.phases[t := s'.PhaseOf(t)]
  {
    hide Probe.Started, Probe.Finished;
  }

  /** What a thread's step does to the gate. */
  lemma GateEffect(interval: nat, s: State, t: Thread)
    requires RunStep(interval, s, t).Some?
    ensures var s' := RunStep(interval, s, t).value;
            var p, p' := s.PhaseOf(t), s'.PhaseOf(t);
            && s'.gate == (if p.WantGate? then Some(t) else if p.Releasing? then None else s.gate)
            && (p.WantGate? ==> s.gate.None? && p' == AtGate)
            && (HoldsGate(p') <==> p.WantGate? || (HoldsGate(p) && !p.Releasing?))
  {
    hide Probe.Started, Probe.Finished, HoldsProbe;
  }

  /** What a thread's step does to the tracker's lock. */
  lemma ProbeEffect(interval: nat, s: State, t: Thread)
    requires RunStep(interval, s, t).Some?
    ensures var s' := RunStep(interval, s, t).value;
            var p, p' := s.PhaseOf(t), s'.PhaseOf(t);
            && s'.probeLock == (if HoldsProbe(p') && !HoldsProbe(p) then Some(t)
                                else if HoldsProbe(p) then None else s.probeLock)
            && (HoldsProbe(p') ==> !HoldsProbe(p) && s.probeLock.None?)
  {
    hide Probe.Started, Probe.Finished, HoldsGate;
  }

  lemma LocksStayConsistent(interval: nat, s: State, a: Action)
    requires LocksAgree(s) && Next(interval, s, a).Some?
    ensures LocksAgree(Next(interval, s, a).value)
  {
    hide RunStep;
    var s' := Next(interval, s, a).value;
    if a.Tick? {
      assert forall t: Thread :: s'.PhaseOf(t) == s.PhaseOf(t);
    } else {
      if a.Run? {
        OneThreadMoves(interval, s, a.t);
        GateEffect(interval, s, a.t);
        ProbeEffect(interval, s, a.t);
      }
      assert forall t: Thread | t != a.t :: s'.PhaseOf(t) == s.PhaseOf(t);
    }
  }

  /** Nothing that the tracker's count depends on has changed, but that time may have passed. */
  predicate SameHistory(s: State, s': State) {
    && s'.probe == s.probe && s'.stamps == s.stamps && s'.starts == s.starts
    && s'.finished == s.finished && s'.refused == s.refused && s'.clock >= s.clock
  }

  /** The two phases are alike in what the tracker has still to count. */
  predicate SameStage(p: Phase, p': Phase) {
    && (p.WantProbeToStart? || p.RecordingStart? <==> p'.WantProbeToStart? || p'.RecordingStart?)
    && (HasStarted(p) <==> HasStarted(p'))
  }

  lemma SameHistoryTracks(s: State, s': State)
    requires Tracked(s) && SameHistory(s, s') && SameStage(s.GatePhase(), s'.GatePhase())
    ensures Tracked(s')
  {
    hide ShortestGap;
  }

  /** A step that is not the gate holder's leaves everything the gate guards alone. */
  lemma OtherSteps(interval: nat, s: State, a: Action)
    requires LocksAgree(s) && Next(interval, s, a).Some? && !(a.Run? && s.gate == Some(a.t))
    ensures var s' := Next(interval, s, a).value;
            && SameHistory(s, s') && s'.lastRequest == s.lastRequest
            && (s'.GatePhase() == s.GatePhase() || (s.gate.None? && s'.GatePhase() == AtGate))
  {
    hide Probe.Started, Probe.Finished;
    if a.Run? {
      assert !HoldsGate(s.PhaseOf(a.t));
    }
  }

  lemma OthersKeepHistory(interval: nat, s: State, a: Action)
    requires Invariant(interval, s) && Next(interval, s, a).Some? && !(a.Run? && s.gate == Some(a.t))
    ensures Paced(interval, Next(interval, s, a).value) && Tracked(Next(interval, s, a).value)
  {
    hide Next, LocksAgree, Tracked;
    OtherSteps(interval, s, a);
    SameHistoryTracks(s, Next(interval, s, a).value);
  }

  /** The holder's own steps, up to and including the stamp. */
  lemma HolderPaces(interval: nat, s: State)
    requires Invariant(interval, s) && s.gate.Some? && RunStep(interval, s, s.gate.value).Some?
    ensures Paced(interval, RunStep(interval, s, s.gate.value).value)
  {
    hide Tracked, Probe.Started, Probe.Finished;
    var t := s.gate.value;
    assert HoldsGate(s.PhaseOf(t));
    var s' := RunStep(interval, s, t).value;
    OneThreadMoves(interval, s, t);
    GateEffect(interval, s, t);
    if s.PhaseOf(t).Awake? {
      assert forall i | 0 <= i < |s.stamps| :: s'.stamps[i] == s.stamps[i];
    }
  }

  /** The holder's stamp: the start it announces is not counted yet. */
  lemma StampTracks(interval: nat, s: State, t: Thread)
    requires Tracked(s) && s.gate == Some(t) && s.PhaseOf(t).Awake?
    ensures Tracked(RunStep(interval, s, t).value)
  {
    hide Spaced, ShortestGap;
    var s' := RunStep(interval, s, t).value;
    assert forall i | 0 <= i < |s.stamps| :: s'.stamps[i] == s.stamps[i];
  }

  lemma StartTracks(interval: nat, s: State, t: Thread)
    requires Paced(interval, s) && Tracked(s) && s.gate == Some(t) && s.PhaseOf(t).RecordingStart?
    ensures Tracked(RunStep(interval, s, t).value)
  {
    hide Spaced, Probe.Started, ShortestGap;
    StartIsCounted(s);
    var s' := RunStep(interval, s, t).value;
    assert s'.starts[..|s.starts|] == s.starts;
  }

  lemma FinishTracks(interval: nat, s: State, t: Thread)
    requires Tracked(s) && s.gate == Some(t) && s.PhaseOf(t).RecordingFinish?
    ensures Tracked(RunStep(interval, s, t).value)
  {
    hide Spaced, ShortestGap;
  }

  /** The holder's other steps record nothing. */
  lemma SilentStepTracks(interval: nat, s: State, t: Thread)
    requires Tracked(s) && s.gate == Some(t) && HoldsGate(s.PhaseOf(t)) && RunStep(interval, s, t).Some?
    requires !s.PhaseOf(t).Awake? && !s.PhaseOf(t).RecordingStart? && !s.PhaseOf(t).RecordingFinish?
    ensures Tracked(RunStep(interval, s, t).value)
  {
    hide Spaced, ShortestGap, Probe.Started, Probe.Finished, Tracked;
    SilentStep(interval, s, t);
    SameHistoryTracks(s, RunStep(interval, s, t).value);
  }

  lemma SilentStep(interval: nat, s: State, t: Thread)
    requires s.gate == Some(t) && HoldsGate(s.PhaseOf(t)) && RunStep(interval, s, t).Some?
    requires !s.PhaseOf(t).Awake? && !s.PhaseOf(t).RecordingStart? && !s.PhaseOf(t).RecordingFinish?
    ensures SameHistory(s, RunStep(interval, s, t).value)
    ensures SameStage(s.GatePhase(), RunStep(interval, s, t).value.GatePhase())
  {
    hide Probe.Started, Probe.Finished;
  }

  lemma HolderTracks(interval: nat, s: State)
    requires Invariant(interval, s) && s.gate.Some? && RunStep(interval, s, s.gate.value).Some?
    ensures Tracked(RunStep(interval, s, s.gate.value).value)
  {
    hide RunStep, Tracked, Paced;
    var t := s.gate.value;
    assert HoldsGate(s.PhaseOf(t));
    if s.PhaseOf(t).Awake? {
      StampTracks(interval, s, t);
    } else if s.PhaseOf(t).RecordingStart? {
      StartTracks(interval, s, t);
    } else if s.PhaseOf(t).RecordingFinish? {
      FinishTracks(interval, s, t);
    } else {
      SilentStepTracks(interval, s, t);
    }
  }

  /** Recording a start counts it: none is active, so the tracker's record follows the starts. */
  lemma StartIsCounted(s: State)
    requires Tracked(s) && s.GatePhase().RecordingStart?
    ensures var probe, starts := s.probe.Started(s.clock), s.starts + [s.clock];
            && probe.activeRequests == 1 && probe.maximumConcurrency == 1
            && probe.requestStarts == Min(|starts|, U64_MAX)
            && probe.lastStarted == Last(starts) && probe.minimumStartGap == ShortestGap(starts)
  {
    assert (s.starts + [s.clock])[..|s.starts|] == s.starts;
  }

  lemma StepKeepsInvariant(interval: nat, s: State, a: Action)
    requires Invariant(interval, s) && Next(interval, s, a).Some?
    ensures Invariant(interval, Next(interval, s, a).value)
  {
    hide RunStep, LocksAgree, Paced, Tracked;
    LocksStayConsistent(interval, s, a);
    if a.Run? && s.gate == Some(a.t) {
      HolderPaces(interval, s);
      HolderTracks(interval, s);
    } else {
      OthersKeepHistory(interval, s, a);
    }
  }

  lemma {:induction false} RunKeepsInvariant(interval: nat, s: State, actions: seq<Action>)
    requires Invariant(interval, s) && Execute(interval, s, actions).Some?
    ensures Invariant(interval, Execute(interval, s, actions).value)
    decreases |actions|
  {
    hide Next, Invariant;
    if actions != [] {
      StepKeepsInvariant(interval, s, actions[0]);
      RunKeepsInvariant(interval, Next(interval, s, actions[0]).value, actions[1..]);
    }
  }
}
