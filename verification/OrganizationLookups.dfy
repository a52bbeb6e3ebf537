/** What each step of a lookup does, whatever the other threads have done before it. */
module OrganizationLookups {
  import opened OrganizationCache
  import opened OrganizationCacheRuns
  import opened Wrappers

  /** The document installed last gives the identity and is younger than the time to live. */
  predicate Serves(state: State, code: string, id: string, ttl: nat) {
    state.installed != []
    && var last := state.installed[|state.installed| - 1];
       Gives(last.rows, code, id) && state.now < last.fetchedAt + ttl
  }

  ghost predicate Served(state: State, code: string, ttl: nat) {
    exists id :: Serves(state, code, id, ttl)
  }

  /** The step has ended the lookup with this identity, or without one, and has changed nothing else. */
  predicate Ends(
    state: State, next: State, t: Thread, code: string, orgId: Option<string>, fetches: nat, own: Option<nat>
  ) {
    && next.outcomes == state.outcomes + [Outcome(code, orgId, state.now, |state.installed|, fetches, own)]
    && next.phases == state.phases[t := Idle] && next.installed == state.installed && next.now == state.now
  }

  /** What a read returns is the one identity that is served, if any, and it is kept if the market core accepts it. */
  lemma AnswersAreServed(state: State, code: string, id: string, ttl: nat)
    requires Invariant(state, ttl)
    ensures Answer(state, code, ttl).Some? <==> Served(state, code, ttl)
    ensures Serves(state, code, id, ttl) ==> Answer(state, code, ttl) == Some(id)
  {
    hide Gives, Acceptable, Faithful, Explained;
    if state.installed != [] {
      var last := state.installed[|state.installed| - 1];
      assert Sound(last, state.now);
      forall a, b | Gives(last.rows, code, a) && Gives(last.rows, code, b) ensures a == b {
        AcceptableGivesOne(last.rows, code, a, b);
      }
      if Answer(state, code, ttl).Some? {
        assert Serves(state, code, Answer(state, code, ttl).value, ttl);
      }
    }
  }

  /** A first read ends the lookup without a request exactly if an identity is served, with that identity if the market
      core accepts it; otherwise the lookup goes on to its request. */
  lemma FirstReadsDecide(state: State, t: Thread, code: string, id: string, ttl: nat)
    requires Invariant(state, ttl) && PhaseOf(state, t) == Looking(code)
    ensures var next := Next(state, FirstRead(t), ttl);
            && (Served(state, code, ttl) <==> exists orgId :: Ends(state, next, t, code, orgId, 0, None))
            && (Serves(state, code, id, ttl) ==>
                  Ends(state, next, t, code, if Mapping(id).Ok? then Some(id) else None, 0, None))
            && (!Served(state, code, ttl) ==> next == state.(phases := state.phases[t := Missing(code, 0)]))
  {
    hide Invariant, Answer, Served, Serves, Mapping;
    AnswersAreServed(state, code, id, ttl);
    if Served(state, code, ttl) {
      assert Ends(state, Next(state, FirstRead(t), ttl), t, code, Accepted(Answer(state, code, ttl)), 0, None);
    }
  }

  /** A request brings an acceptable document, which the thread then holds under the present time, or ends the lookup. */
  lemma RequestsDecide(state: State, t: Thread, code: string, fetches: nat, reply: Reply, ttl: nat)
    requires PhaseOf(state, t) == Missing(code, fetches)
    ensures var next := Next(state, Fetch(t, reply), ttl);
            if reply.Document? && reply.stockList.Some? && Acceptable(reply.stockList.value) then
              next == state.(phases := state.phases[
                               t := Holding(code, Installed(state.now, reply.stockList.value), fetches + 1)])
            else Ends(state, next, t, code, None, fetches + 1, None)
  {
    hide Acceptable;
  }

  /** What a thread holds it installs, behind what was installed before; and it then reads again, which ends the lookup
      with the identity served by then, if there is one that the market core accepts. */
  lemma InstallsAreReread(state: State, t: Thread, code: string, document: Installed, fetches: nat, own: nat, id: string, ttl: nat)
    requires Invariant(state, ttl)
    ensures PhaseOf(state, t) == Holding(code, document, fetches) ==>
              Next(state, Install(t), ttl)
              == state.(installed := state.installed + [document],
                        phases := state.phases[t := Rereading(code, fetches, |state.installed|)])
    ensures PhaseOf(state, t) == Rereading(code, fetches, own) ==>
              var next := Next(state, SecondRead(t), ttl);
              && (Serves(state, code, id, ttl) ==>
                    Ends(state, next, t, code, if Mapping(id).Ok? then Some(id) else None, fetches, Some(own)))
              && (!Served(state, code, ttl) ==> Ends(state, next, t, code, None, fetches, Some(own)))
  {
    hide Invariant, Answer, Served, Serves, Mapping;
    AnswersAreServed(state, code, id, ttl);
  }
}
