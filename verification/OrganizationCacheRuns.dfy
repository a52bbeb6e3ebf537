/** Many threads over one organization cache: what every interleaving of lookups and refreshes keeps. */
module OrganizationCacheRuns {
  import opened OrganizationCache
  import opened Wrappers

  type Thread = nat

  /** A document as it is put into the cache. */
  datatype Installed = Installed(fetchedAt: nat, rows: seq<WireRow>)

  /** How far a thread is with its lookup; `fetches` counts the requests of this lookup. */
  datatype Phase =
    | Idle
    | Looking(code: string)
    | Missing(code: string, fetches: nat)
    | Holding(code: string, document: Installed, fetches: nat)
    | Rereading(code: string, fetches: nat, own: nat)

  /** A finished lookup: what it returned, when it read it, how many documents had been installed by then, and which
      of these, counted from zero, it had installed itself. */
  datatype Outcome = Outcome(
    code: string, orgId: Option<string>, readAt: nat, installedBefore: nat, fetches: nat, own: Option<nat>)

  datatype State = State(now: nat, installed: seq<Installed>, phases: map<Thread, Phase>, outcomes: seq<Outcome>)

  /** Time passing, and the atomic actions of a thread: each holds the cache lock at most once. */
  datatype Step =
    | Wait(ticks: nat)
    | Begin(thread: Thread, code: string)
    | FirstRead(thread: Thread)
    | Fetch(thread: Thread, reply: Reply)
    | Install(thread: Thread)
    | SecondRead(thread: Thread)

  const START := State(0, [], map[], [])

  function PhaseOf(state: State, thread: Thread): Phase {
    if thread in state.phases then state.phases[thread] else Idle
  }

  /** What a read returns: the identity the document installed last gives, while that document is young enough. */
  ghost function Answer(state: State, code: string, ttl: nat): Option<string> {
    if state.installed == [] then None
    else
      var last := state.installed[|state.installed| - 1];
      if state.now < last.fetchedAt + ttl && exists id :: Gives(last.rows, code, id) then
        var id :| Gives(last.rows, code, id);
        Some(id)
      else None
  }

  /** The identity found, if the market core accepts it. */
  function Accepted(found: Option<string>): Option<string> {
    if found.Some? && Mapping(found.value).Ok? then found else None
  }

  /** The lookup ends with the accepted identity, or with an error. */
  function Finish(
    state: State, thread: Thread, code: string, found: Option<string>, fetches: nat, own: Option<nat>
  ): State {
    var orgId := Accepted(found);
    state.(
      phases := state.phases[thread := Idle],
      outcomes := state.outcomes + [Outcome(code, orgId, state.now, |state.installed|, fetches, own)])
  }

  /** The state after a step; a step the thread is not ready for changes nothing. */
  ghost function Next(state: State, step: Step, ttl: nat): State {
    match step
    case Wait(ticks) => state.(now := state.now + ticks)
    case Begin(t, code) => if PhaseOf(state, t).Idle? then state.(phases := state.phases[t := Looking(code)]) else state
    case FirstRead(t) =>
      (match PhaseOf(state, t)
       case Looking(code) =>
         var answer := Answer(state, code, ttl);
         if answer.Some? then Finish(state, t, code, answer, 0, None)
         else state.(phases := state.phases[t := Missing(code, 0)])
       case _ => state)
    case Fetch(t, reply) =>
      (match PhaseOf(state, t)
       case Missing(code, fetches) =>
         if reply.Document? && reply.stockList.Some? && Acceptable(reply.stockList.value) then
           state.(phases := state.phases[t := Holding(code, Installed(state.now, reply.stockList.value), fetches + 1)])
         else Finish(state, t, code, None, fetches + 1, None)
       case _ => state)
    case Install(t) =>
      (match PhaseOf(state, t)
       case Holding(code, document, fetches) =>
         state.(
           phases := state.phases[t := Rereading(code, fetches, |state.installed|)],
           installed := state.installed + [document])
       case _ => state)
    case SecondRead(t) =>
      (match PhaseOf(state, t)
       case Rereading(code, fetches, own) => Finish(state, t, code, Answer(state, code, ttl), fetches, Some(own))
       case _ => state)
  }

  ghost function Execute(state: State, steps: seq<Step>, ttl: nat): State
    decreases |steps|
  {
    if steps == [] then state else Execute(Next(state, steps[0], ttl), steps[1..], ttl)
  }

  /** The answer is the one a client's lookup gives when its index is that of the document installed last. */
  lemma LookupsAnswer(state: State, byCode: map<string, string>, code: string, ttl: nat)
    requires state.installed != [] && Acceptable(state.installed[|state.installed| - 1].rows)
    requires Indexes(byCode, state.installed[|state.installed| - 1].rows)
    ensures var last := state.installed[|state.installed| - 1];
            Lookup(Some(Cached(last.fetchedAt, byCode)), code, state.now, ttl) == Answer(state, code, ttl)
  {
    hide Gives, Acceptable;
  }

  // ---- What every run keeps -----------------------------------------------------------------------------

  /** The document is acceptable and was stamped in the past. */
  predicate Sound(document: Installed, now: nat) {
    Acceptable(document.rows) && document.fetchedAt <= now
  }

  predicate PhaseSound(phase: Phase, now: nat, installed: nat) {
    match phase
    case Missing(_, fetches) => fetches == 0
    case Holding(_, document, fetches) => Sound(document, now) && fetches <= 1
    case Rereading(_, fetches, own) => fetches <= 1 && own < installed
    case _ => true
  }

  /** The identity is the one that the document installed last before the read gives for the code in all its
      rows, that document was younger than the time to live, and the lookup fetched at most once. */
  ghost predicate Faithful(outcome: Outcome, installed: seq<Installed>, ttl: nat) {
    && outcome.fetches <= 1
    && (outcome.orgId.Some? ==>
          && 0 < outcome.installedBefore <= |installed|
          && var source := installed[outcome.installedBefore - 1];
             && Gives(source.rows, outcome.code, outcome.orgId.value)
             && (forall id | Gives(source.rows, outcome.code, id) :: id == outcome.orgId.value)
             && source.fetchedAt <= outcome.readAt < source.fetchedAt + ttl)
  }

  /** The document is too old for the read, does not list the code, or gives an identity the market core refuses. */
  ghost predicate Useless(document: Installed, code: string, readAt: nat, ttl: nat) {
    || readAt >= document.fetchedAt + ttl
    || (forall id :: !Gives(document.rows, code, id))
    || (exists id :: Gives(document.rows, code, id) && Mapping(id).Err?)
  }

  /** A lookup that installed a document reread the one installed last, its own or a later one, and came away with
      nothing exactly if that one was of no use. */
  ghost predicate Explained(outcome: Outcome, installed: seq<Installed>, ttl: nat) {
    outcome.own.Some? ==>
      && outcome.own.value < outcome.installedBefore <= |installed|
      && (outcome.orgId.None?
          <==> Useless(installed[outcome.installedBefore - 1], outcome.code, outcome.readAt, ttl))
  }

  ghost predicate Invariant(state: State, ttl: nat) {
    && (forall i | 0 <= i < |state.installed| :: Sound(state.installed[i], state.now))
    && (forall t | t in state.phases :: PhaseSound(state.phases[t], state.now, |state.installed|))
    && (forall i | 0 <= i < |state.outcomes| ::
          Faithful(state.outcomes[i], state.installed, ttl) && Explained(state.outcomes[i], state.installed, ttl))
  }

  lemma AcceptableGivesOne(rows: seq<WireRow>, code: string, a: string, b: string)
    requires Acceptable(rows) && Gives(rows, code, a) && Gives(rows, code, b)
    ensures a == b
  {
    hide RowEntry;
    var r :| r in rows && RowEntry(r) == Some((code, a));
    var s :| s in rows && RowEntry(s) == Some((code, b));
  }

  lemma AnswersAreFaithful(state: State, code: string, ttl: nat, fetches: nat, own: Option<nat>)
    requires Invariant(state, ttl) && fetches <= 1
    ensures Faithful(Outcome(code, Answer(state, code, ttl), state.now, |state.installed|, fetches, own), state.installed, ttl)
  {
    hide Gives, Acceptable, Explained;
    var answer := Answer(state, code, ttl);
    if answer.Some? {
      var source := state.installed[|state.installed| - 1];
      assert Sound(source, state.now);
      forall id | Gives(source.rows, code, id) ensures id == answer.value {
        AcceptableGivesOne(source.rows, code, id, answer.value);
      }
    }
  }

  /** A reread fails exactly if the document installed last is useless. */
  lemma RereadsAreExplained(state: State, code: string, ttl: nat, fetches: nat, own: nat)
    requires Invariant(state, ttl) && own < |state.installed|
    ensures var orgId := Accepted(Answer(state, code, ttl));
            Explained(Outcome(code, orgId, state.now, |state.installed|, fetches, Some(own)), state.installed, ttl)
  {
    hide Gives, Acceptable, Faithful, Mapping;
    var source := state.installed[|state.installed| - 1];
    assert Sound(source, state.now);
    forall a, b | Gives(source.rows, code, a) && Gives(source.rows, code, b) ensures a == b {
      AcceptableGivesOne(source.rows, code, a, b);
    }
  }

  lemma FinishKeeps(
    state: State, thread: Thread, code: string, found: Option<string>, fetches: nat, own: Option<nat>, ttl: nat
  )
    requires Invariant(state, ttl) && fetches <= 1
    requires Faithful(Outcome(code, found, state.now, |state.installed|, fetches, own), state.installed, ttl)
    requires Explained(Outcome(code, Accepted(found), state.now, |state.installed|, fetches, own), state.installed, ttl)
    ensures Invariant(Finish(state, thread, code, found, fetches, own), ttl)
  {
    hide Faithful, Explained, Sound, Mapping;
    FailuresAreFaithful(state, code, fetches, own, ttl);
  }

  lemma StepKeepsInvariant(state: State, step: Step, ttl: nat)
    requires Invariant(state, ttl)
    ensures Invariant(Next(state, step, ttl), ttl)
    ensures state.installed <= Next(state, step, ttl).installed && state.now <= Next(state, step, ttl).now
  {
    hide Faithful, Explained, Answer, Acceptable, Finish;
    match step
    case Wait(_) => TimePasses(state, step.ticks, ttl);
    case Begin(_, _) =>
    case FirstRead(t) =>
      if PhaseOf(state, t).Looking? {
        var code := PhaseOf(state, t).code;
        var answer := Answer(state, code, ttl);
        AnswersAreFaithful(state, code, ttl, 0, None);
        NothingToExplain(state, code, Accepted(answer), 0, ttl);
        FinishKeeps(state, t, code, answer, 0, None, ttl);
        FinishFrame(state, t, code, answer, 0, None);
      }
    case Fetch(t, _) =>
      if PhaseOf(state, t).Missing? {
        var code := PhaseOf(state, t).code;
        FailuresAreFaithful(state, code, 1, None, ttl);
        NothingToExplain(state, code, None, 1, ttl);
        FinishKeeps(state, t, code, None, 1, None, ttl);
        FinishFrame(state, t, code, None, 1, None);
      }
    case Install(t) =>
      if PhaseOf(state, t).Holding? {
        InstallKeeps(state, PhaseOf(state, t).document, t, PhaseOf(state, t).code, PhaseOf(state, t).fetches, ttl);
      }
    case SecondRead(t) =>
      if PhaseOf(state, t).Rereading? {
        var code, fetches, own := PhaseOf(state, t).code, PhaseOf(state, t).fetches, PhaseOf(state, t).own;
        var answer := Answer(state, code, ttl);
        AnswersAreFaithful(state, code, ttl, fetches, Some(own));
        RereadsAreExplained(state, code, ttl, fetches, own);
        FinishKeeps(state, t, code, answer, fetches, Some(own), ttl);
        FinishFrame(state, t, code, answer, fetches, Some(own));
      }
  }

  lemma FinishFrame(state: State, thread: Thread, code: string, found: Option<string>, fetches: nat, own: Option<nat>)
    ensures Finish(state, thread, code, found, fetches, own).installed == state.installed
    ensures Finish(state, thread, code, found, fetches, own).now == state.now
  {
  }

  lemma FailuresAreFaithful(state: State, code: string, fetches: nat, own: Option<nat>, ttl: nat)
    requires fetches <= 1
    ensures Faithful(Outcome(code, None, state.now, |state.installed|, fetches, own), state.installed, ttl)
  {
  }

  lemma NothingToExplain(state: State, code: string, orgId: Option<string>, fetches: nat, ttl: nat)
    ensures Explained(Outcome(code, orgId, state.now, |state.installed|, fetches, None), state.installed, ttl)
  {
  }

  lemma TimePasses(state: State, ticks: nat, ttl: nat)
    requires Invariant(state, ttl)
    ensures Invariant(state.(now := state.now + ticks), ttl)
  {
    hide Faithful, Explained, Acceptable;
  }

  lemma InstallKeeps(state: State, document: Installed, t: Thread, code: string, fetches: nat, ttl: nat)
    requires Invariant(state, ttl) && Sound(document, state.now) && fetches <= 1
    ensures Invariant(
              state.(
                phases := state.phases[t := Rereading(code, fetches, |state.installed|)],
                installed := state.installed + [document]),
              ttl)
  {
    hide Gives, Acceptable, Mapping;
    forall i | 0 <= i < |state.outcomes| ensures
      Faithful(state.outcomes[i], state.installed + [document], ttl)
      && Explained(state.outcomes[i], state.installed + [document], ttl)
    {
      OneMoreInstalled(state.outcomes[i], state.installed, document, ttl);
    }
    hide Faithful, Explained;
  }

  lemma OneMoreInstalled(outcome: Outcome, installed: seq<Installed>, document: Installed, ttl: nat)
    requires Faithful(outcome, installed, ttl) && Explained(outcome, installed, ttl)
    ensures Faithful(outcome, installed + [document], ttl) && Explained(outcome, installed + [document], ttl)
  {
    hide Gives, Mapping, Useless;
  }

  lemma {:induction false} RunKeepsInvariant(state: State, steps: seq<Step>, ttl: nat)
    requires Invariant(state, ttl)
    ensures Invariant(Execute(state, steps, ttl), ttl)
    ensures state.installed <= Execute(state, steps, ttl).installed
    decreases |steps|
  {
    hide Invariant, Next;
    if steps != [] {
      StepKeepsInvariant(state, steps[0], ttl);
      RunKeepsInvariant(Next(state, steps[0], ttl), steps[1..], ttl);
    }
  }

  /** Every lookup of every run, whatever the threads and replies, is faithful. */
  lemma EveryAnswerIsFaithful(steps: seq<Step>, ttl: nat, i: nat)
    requires i < |Execute(START, steps, ttl).outcomes|
    ensures Faithful(Execute(START, steps, ttl).outcomes[i], Execute(START, steps, ttl).installed, ttl)
  {
    hide Execute, Faithful;
    RunKeepsInvariant(START, steps, ttl);
  }

  /** A lookup that installed a document ends without an identity exactly if the document installed last when it
      rereads is useless to it. */
  lemma EveryFailureIsExplained(steps: seq<Step>, ttl: nat, i: nat)
    requires i < |Execute(START, steps, ttl).outcomes|
    ensures Explained(Execute(START, steps, ttl).outcomes[i], Execute(START, steps, ttl).installed, ttl)
  {
    hide Execute, Explained, Faithful;
    RunKeepsInvariant(START, steps, ttl);
  }

  /** So a lookup whose own document is still of use fails only if it was overtaken: a later installation, useless to
      it, stands between its own and its reread. */
  lemma UsefulFetchesFailWhenOvertaken(steps: seq<Step>, ttl: nat, i: nat)
    requires i < |Execute(START, steps, ttl).outcomes|
    requires var o, installed := Execute(START, steps, ttl).outcomes[i], Execute(START, steps, ttl).installed;
             o.own.Some? && (o.own.value < |installed| ==> !Useless(installed[o.own.value], o.code, o.readAt, ttl))
    ensures var o, installed := Execute(START, steps, ttl).outcomes[i], Execute(START, steps, ttl).installed;
            && o.own.value < o.installedBefore <= |installed|
            && (o.orgId.None? <==> o.own.value < o.installedBefore - 1
                                   && Useless(installed[o.installedBefore - 1], o.code, o.readAt, ttl))
  {
    hide Execute, Useless;
    EveryFailureIsExplained(steps, ttl, i);
  }

  // ---- Where the documents come from ----------------------------------------------------------------------

  /** Step `k` of the run fetched the document, and an acceptable one, at the time it is stamped with. */
  ghost predicate FetchedAt(document: Installed, steps: seq<Step>, ttl: nat, k: nat) {
    && k < |steps| && steps[k].Fetch? && steps[k].reply == Document(Some(document.rows)) && Acceptable(document.rows)
    && document.fetchedAt == Execute(START, steps[..k], ttl).now
  }

  ghost predicate WasFetched(document: Installed, steps: seq<Step>, ttl: nat) {
    exists k: nat :: FetchedAt(document, steps, ttl, k)
  }

  /** Every document that is in the cache, or on its way into it, was fetched in the run. */
  ghost predicate AllFetched(state: State, steps: seq<Step>, ttl: nat) {
    && (forall i | 0 <= i < |state.installed| :: WasFetched(state.installed[i], steps, ttl))
    && (forall t | t in state.phases && state.phases[t].Holding? :: WasFetched(state.phases[t].document, steps, ttl))
  }

  lemma {:induction false} ExecuteLast(state: State, steps: seq<Step>, last: Step, ttl: nat)
    ensures Execute(state, steps + [last], ttl) == Next(Execute(state, steps, ttl), last, ttl)
    decreases |steps|
  {
    hide Next;
    if steps == [] {
      assert [last][1..] == [];
      assert steps + [last] == [last];
    } else {
      assert (steps + [last])[1..] == steps[1..] + [last];
      ExecuteLast(Next(state, steps[0], ttl), steps[1..], last, ttl);
    }
  }

  lemma StaysFetched(document: Installed, steps: seq<Step>, last: Step, ttl: nat)
    requires WasFetched(document, steps, ttl)
    ensures WasFetched(document, steps + [last], ttl)
  {
    hide Execute;
    var k: nat :| FetchedAt(document, steps, ttl, k);
    assert (steps + [last])[..k] == steps[..k];
    assert FetchedAt(document, steps + [last], ttl, k);
  }

  lemma JustFetched(steps: seq<Step>, last: Step, ttl: nat, rows: seq<WireRow>)
    requires last.Fetch? && last.reply == Document(Some(rows)) && Acceptable(rows)
    ensures WasFetched(Installed(Execute(START, steps, ttl).now, rows), steps + [last], ttl)
  {
    hide Execute, Acceptable;
    assert (steps + [last])[..|steps|] == steps;
    assert FetchedAt(Installed(Execute(START, steps, ttl).now, rows), steps + [last], ttl, |steps|);
  }

  lemma StepKeepsFetched(steps: seq<Step>, last: Step, ttl: nat)
    requires AllFetched(Execute(START, steps, ttl), steps, ttl)
    ensures AllFetched(Next(Execute(START, steps, ttl), last, ttl), steps + [last], ttl)
  {
    hide Execute, Acceptable, WasFetched, Answer, Mapping;
    var state, more := Execute(START, steps, ttl), steps + [last];
    forall i | 0 <= i < |state.installed| ensures WasFetched(state.installed[i], more, ttl) {
      StaysFetched(state.installed[i], steps, last, ttl);
    }
    forall t | t in state.phases && state.phases[t].Holding? ensures WasFetched(state.phases[t].document, more, ttl) {
      StaysFetched(state.phases[t].document, steps, last, ttl);
    }
    if last.Fetch? && last.reply.Document? && last.reply.stockList.Some? && Acceptable(last.reply.stockList.value) {
      JustFetched(steps, last, ttl, last.reply.stockList.value);
    }
  }

  lemma {:induction false} RunKeepsFetched(steps: seq<Step>, ttl: nat)
    ensures AllFetched(Execute(START, steps, ttl), steps, ttl)
    decreases |steps|
  {
    hide Next, WasFetched;
    if steps != [] {
      var init, last := steps[..|steps| - 1], steps[|steps| - 1];
      assert steps == init + [last];
      RunKeepsFetched(init, ttl);
      ExecuteLast(START, init, last, ttl);
      StepKeepsFetched(init, last, ttl);
    }
  }

  /** In every run, every document the cache has ever held was fetched by a step of that run, was acceptable, and
      carries the time of that step: a rejected reply never reaches the cache, whatever the interleaving. */
  lemma CachedDocumentsWereAccepted(steps: seq<Step>, ttl: nat, i: nat)
    requires i < |Execute(START, steps, ttl).installed|
    ensures exists k: nat :: FetchedAt(Execute(START, steps, ttl).installed[i], steps, ttl, k)
  {
    hide Execute, FetchedAt;
    RunKeepsFetched(steps, ttl);
    assert WasFetched(Execute(START, steps, ttl).installed[i], steps, ttl);
  }

  // ---- Lookups that overtake each other --------------------------------------------------------------------

  lemma Unroll(state: State, steps: seq<Step>, ttl: nat)
    requires steps != []
    ensures Execute(state, steps, ttl) == Execute(Next(state, steps[0], ttl), steps[1..], ttl)
  {
    hide Next;
  }

  /** Two threads miss, fetch one after the other, and hold their documents. */
  function BothFetch(code: string, a: seq<WireRow>, b: seq<WireRow>, between: nat): seq<Step> {
    [Begin(0, code), FirstRead(0), Begin(1, code), FirstRead(1), Fetch(0, Document(Some(a))), Wait(between),
     Fetch(1, Document(Some(b)))]
  }

  lemma BothHold(code: string, a: seq<WireRow>, b: seq<WireRow>, between: nat, ttl: nat)
    requires Acceptable(a) && Acceptable(b)
    ensures Execute(START, BothFetch(code, a, b, between), ttl)
            == State(between, [], map[0 := Holding(code, Installed(0, a), 1), 1 := Holding(code, Installed(between, b), 1)], [])
  {
    hide Execute, Acceptable;
    var steps := BothFetch(code, a, b, between);
    var s1 := Next(START, steps[0], ttl);
    var s2 := Next(s1, steps[1], ttl);
    var s3 := Next(s2, steps[2], ttl);
    var s4 := Next(s3, steps[3], ttl);
    var s5 := Next(s4, steps[4], ttl);
    var s6 := Next(s5, steps[5], ttl);
    var s7 := Next(s6, steps[6], ttl);
    assert s4.phases == map[0 := Missing(code, 0), 1 := Missing(code, 0)];
    Unroll(START, steps, ttl);
    Unroll(s1, steps[1..], ttl);
    Unroll(s2, steps[2..], ttl);
    Unroll(s3, steps[3..], ttl);
    Unroll(s4, steps[4..], ttl);
    Unroll(s5, steps[5..], ttl);
    Unroll(s6, steps[6..], ttl);
    NoSteps(s7, ttl);
    assert steps[6..][1..] == [];
    assert s7.phases == map[0 := Holding(code, Installed(0, a), 1), 1 := Holding(code, Installed(between, b), 1)];
  }

  lemma NoSteps(state: State, ttl: nat)
    ensures Execute(state, [], ttl) == state
  {
  }

  lemma {:induction false} ExecuteConcat(state: State, first: seq<Step>, second: seq<Step>, ttl: nat)
    ensures Execute(state, first + second, ttl) == Execute(Execute(state, first, ttl), second, ttl)
    decreases |first|
  {
    hide Next;
    if first == [] {
      assert first + second == second;
    } else {
      ExecuteConcat(Next(state, first[0], ttl), first[1..], second, ttl);
      assert (first + second)[1..] == first[1..] + second;
    }
  }

  /** Whatever acceptable documents they fetch, the useful one of thread 0 and another that does not list the code, a
      run exists in which thread 0 installs its own, is overtaken, and ends without an identity. */
  lemma FreshLookupCanFail(code: string, a: seq<WireRow>, b: seq<WireRow>, id: string, ttl: nat) returns (steps: seq<Step>)
    requires Acceptable(a) && Gives(a, code, id) && Mapping(id).Ok? && ttl > 0
    requires Acceptable(b) && forall other :: !Gives(b, code, other)
    ensures Execute(START, steps, ttl).installed == [Installed(0, a), Installed(0, b)]
    ensures Execute(START, steps, ttl).outcomes == [Outcome(code, None, 0, 2, 1, Some(0))]
    ensures !Useless(Installed(0, a), code, 0, ttl)
  {
    hide Execute, Acceptable, Gives, Mapping, BothFetch;
    var ending := [Install(0), Install(1), SecondRead(0)];
    steps := BothFetch(code, a, b, 0) + ending;
    BothHold(code, a, b, 0, ttl);
    var s0 := Execute(START, BothFetch(code, a, b, 0), ttl);
    ExecuteConcat(START, BothFetch(code, a, b, 0), ending, ttl);
    var s1 := Next(s0, Install(0), ttl);
    var s2 := Next(s1, Install(1), ttl);
    var s3 := Next(s2, SecondRead(0), ttl);
    Unroll(s0, ending, ttl);
    Unroll(s1, ending[1..], ttl);
    Unroll(s2, ending[2..], ttl);
    NoSteps(s3, ttl);
    assert ending[2..][1..] == [];
    assert s2.installed == [Installed(0, a), Installed(0, b)];
    forall other | Gives(a, code, other) ensures other == id {
      AcceptableGivesOne(a, code, other, id);
    }
  }

  /** The stamp is taken before the lock: an older document can take the place of a newer one. */
  lemma OlderReplacesNewer(code: string, a: seq<WireRow>, b: seq<WireRow>, between: nat, ttl: nat) returns (steps: seq<Step>)
    requires Acceptable(a) && Acceptable(b)
    ensures Execute(START, steps, ttl).installed == [Installed(between, b), Installed(0, a)]
  {
    hide Execute, Acceptable, BothFetch;
    var ending := [Install(1), Install(0)];
    steps := BothFetch(code, a, b, between) + ending;
    BothHold(code, a, b, between, ttl);
    var s0 := Execute(START, BothFetch(code, a, b, between), ttl);
    ExecuteConcat(START, BothFetch(code, a, b, between), ending, ttl);
    var s1 := Next(s0, Install(1), ttl);
    var s2 := Next(s1, Install(0), ttl);
    Unroll(s0, ending, ttl);
    Unroll(s1, ending[1..], ttl);
    NoSteps(s2, ttl);
    assert ending[1..][1..] == [];
  }

  /** The cached document is one of those stamped last among all that were ever installed. */
  predicate NewestCached(installed: seq<Installed>) {
    forall i | 0 <= i < |installed| :: installed[i].fetchedAt <= installed[|installed| - 1].fetchedAt
  }

  predicate InStampOrder(installed: seq<Installed>) {
    forall i, j | 0 <= i < j < |installed| :: installed[i].fetchedAt <= installed[j].fetchedAt
  }

  /** Throughout a run the newest document is the cached one exactly if the installations come in the order of the
      stamps. */
  lemma {:induction false} NewestIsCachedInOrder(steps: seq<Step>, ttl: nat)
    ensures (forall k: nat | k <= |steps| :: NewestCached(Execute(START, steps[..k], ttl).installed))
            <==> InStampOrder(Execute(START, steps, ttl).installed)
    decreases |steps|
  {
    hide Execute, Next;
    if steps == [] {
      NoSteps(START, ttl);
      assert forall k: nat | k <= |steps| :: steps[..k] == [];
    } else {
      var init, last := steps[..|steps| - 1], steps[|steps| - 1];
      assert steps == init + [last] && steps[..|steps|] == steps;
      assert forall k: nat | k <= |init| :: steps[..k] == init[..k];
      assert init[..|init|] == init;
      NewestIsCachedInOrder(init, ttl);
      ExecuteLast(START, init, last, ttl);
      AtMostOneMore(Execute(START, init, ttl), last, ttl);
      OrderGrows(Execute(START, init, ttl).installed, Execute(START, steps, ttl).installed);
    }
  }

  lemma AtMostOneMore(state: State, step: Step, ttl: nat)
    ensures var before, after := state.installed, Next(state, step, ttl).installed;
            before <= after && |after| <= |before| + 1
  {
    hide Answer, Acceptable, Accepted;
  }

  lemma OrderGrows(before: seq<Installed>, after: seq<Installed>)
    requires before <= after && |after| <= |before| + 1
    ensures InStampOrder(after) <==> InStampOrder(before) && NewestCached(after)
  {
    assert forall i | 0 <= i < |before| :: after[i] == before[i];
  }
}
