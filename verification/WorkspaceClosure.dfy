/** The workspace worklist: members and, transitively, the path dependencies of members. */
module WorkspaceClosure {
  import opened Sorting

  type Path = string
  type Problem = string

  /** What reading one manifest yields: complaints about it and the manifests it depends on by path. A manifest
      that cannot be parsed has complaints and no dependencies. */
  datatype Manifest = Manifest(problems: seq<Problem>, dependencies: set<Path>)

  /** The manifests of a repository; a path that is missing reads as unparsable. */
  type Repository = map<Path, Manifest>

  const MISSING := Manifest(["manifest cannot be parsed"], {})

  function Read(repository: Repository, path: Path): Manifest {
    if path in repository then repository[path] else MISSING
  }

  datatype Workspace = Workspace(root: Path, isPackage: bool, listed: set<Path>, excluded: set<Path>)

  function StartingMembers(workspace: Workspace): set<Path> {
    (workspace.listed - workspace.excluded) + (if workspace.isPackage then {workspace.root} else {})
  }

  const NO_MEMBERS: Problem := "workspace has no package members"

  /** What the start is complained of before any manifest is read. */
  function StartComplaints(workspace: Workspace): seq<Problem> {
    if StartingMembers(workspace) == {} then [NO_MEMBERS] else []
  }

  // ---- Reachability ----------------------------------------------------------------------------------

  predicate Step(repository: Repository, excluded: set<Path>, from: Path, to: Path) {
    to in Read(repository, from).dependencies && to !in excluded
  }

  /** A chain of path dependencies from a starting member, through manifests that are not excluded. */
  predicate Chain(repository: Repository, workspace: Workspace, chain: seq<Path>) {
    && chain != [] && chain[0] in StartingMembers(workspace)
    && forall i | 0 <= i < |chain| - 1 :: Step(repository, workspace.excluded, chain[i], chain[i + 1])
  }

  ghost predicate Reachable(repository: Repository, workspace: Workspace, path: Path) {
    exists chain :: Chain(repository, workspace, chain) && chain[|chain| - 1] == path
  }

  predicate Closed(repository: Repository, excluded: set<Path>, from: set<Path>, members: set<Path>) {
    forall m, d | m in from && d in Read(repository, m).dependencies :: d in excluded || d in members
  }

  lemma StartIsReachable(repository: Repository, workspace: Workspace, path: Path)
    requires path in StartingMembers(workspace)
    ensures Reachable(repository, workspace, path)
  {
    assert Chain(repository, workspace, [path]);
  }

  lemma StepIsReachable(repository: Repository, workspace: Workspace, from: Path, to: Path)
    requires Reachable(repository, workspace, from) && Step(repository, workspace.excluded, from, to)
    ensures Reachable(repository, workspace, to)
  {
    hide Step;
    var chain :| Chain(repository, workspace, chain) && chain[|chain| - 1] == from;
    assert Chain(repository, workspace, chain + [to]);
  }

  /** A closed set with the starting members holds everything reachable. */
  lemma {:induction false} ClosedHoldsChains(repository: Repository, workspace: Workspace, members: set<Path>, chain: seq<Path>)
    requires StartingMembers(workspace) <= members
    requires Closed(repository, workspace.excluded, members, members)
    requires Chain(repository, workspace, chain)
    ensures chain[|chain| - 1] in members
    decreases |chain|
  {
    if |chain| > 1 {
      var init := chain[..|chain| - 1];
      ClosedHoldsChains(repository, workspace, members, init);
      assert Step(repository, workspace.excluded, chain[|chain| - 2], chain[|chain| - 2 + 1]);
    }
  }

  // ---- The worklist ------------------------------------------------------------------------------------

  /** Every path the worklist could ever meet. */
  function Known(repository: Repository, workspace: Workspace): set<Path> {
    StartingMembers(workspace) + set m, d | m in repository && d in repository[m].dependencies :: d
  }

  /** The complaints of the manifests, in the order they are visited. */
  function Complaints(repository: Repository, order: seq<Path>): seq<Problem> {
    if order == [] then []
    else Complaints(repository, order[..|order| - 1]) + Read(repository, order[|order| - 1]).problems
  }

  method Listed(paths: set<Path>) returns (order: seq<Path>)
    ensures NoRepeats(order) && (forall p | p in order :: p in paths) && (forall p | p in paths :: p in order)
  {
    order := [];
    var left := paths;
    while left != {}
      invariant left <= paths && NoRepeats(order)
      invariant forall p | p in order :: p in paths - left
      invariant forall p | p in paths - left :: p in order
      decreases |left|
    {
      var p :| p in left;
      assert p !in order;
      left := left - {p};
      order := order + [p];
    }
  }

  function Elements(paths: seq<Path>): set<Path> {
    set p | p in paths
  }

  /** What the loop keeps: the members still to visit are listed once each, the others have been visited, and
      the dependencies of the settled ones have been followed. */
  ghost predicate Progress(
    repository: Repository, workspace: Workspace, members: set<Path>, pending: seq<Path>, visited: set<Path>,
    settled: set<Path>
  ) {
    && StartingMembers(workspace) <= members <= Known(repository, workspace)
    && NoRepeats(pending) && Elements(pending) !! visited && Elements(pending) + visited == members
    && Closed(repository, workspace.excluded, settled, members)
    && (forall m | m in members :: Reachable(repository, workspace, m))
  }

  /** The members the worklist ends with; each is visited once, in the order given. */
  method WorkspaceManifests(repository: Repository, workspace: Workspace)
    returns (members: set<Path>, errors: seq<Problem>, ghost order: seq<Path>)
    ensures forall m :: m in members <==> Reachable(repository, workspace, m)
    ensures NoRepeats(order) && forall m :: m in order <==> m in members
    ensures errors == StartComplaints(workspace) + Complaints(repository, order)
  {
    hide Reachable, Closed, Known, StartingMembers, Read, Progress, NoRepeats, Elements, Complaints;
    members := StartingMembers(workspace);
    errors, order := [], [];
    if members == {} {
      errors := [NO_MEMBERS];
    }
    var pending := Listed(members);
    var visited: set<Path> := {};
    Beginning(repository, workspace, pending);
    while pending != []
      invariant Progress(repository, workspace, members, pending, visited, visited)
      invariant NoRepeats(order) && forall m :: m in order <==> m in visited
      invariant errors == StartComplaints(workspace) + Complaints(repository, order)
      decreases Known(repository, workspace) - visited
    {
      var manifest := pending[|pending| - 1];
      Popping(repository, workspace, members, pending, visited, order);
      pending := pending[..|pending| - 1];
      if manifest in visited {
        assert false;
        continue;
      }
      visited := visited + {manifest};
      order := order + [manifest];
      errors := errors + Read(repository, manifest).problems;
      members, pending := AddDependencies(repository, workspace, manifest, members, pending, visited);
    }
    Finished(repository, workspace, members, visited);
  }

  lemma Beginning(repository: Repository, workspace: Workspace, pending: seq<Path>)
    requires NoRepeats(pending)
    requires (forall p | p in pending :: p in StartingMembers(workspace))
    requires (forall p | p in StartingMembers(workspace) :: p in pending)
    ensures Progress(repository, workspace, StartingMembers(workspace), pending, {}, {})
    ensures NoRepeats<Path>([]) && Complaints(repository, []) == []
  {
    hide Reachable, StartingMembers;
    forall m | m in StartingMembers(workspace) ensures Reachable(repository, workspace, m) {
      StartIsReachable(repository, workspace, m);
    }
    assert Elements(pending) == StartingMembers(workspace);
  }

  /** The manifest popped has not been visited: the check that skips visited ones never does. */
  lemma Popping(
    repository: Repository, workspace: Workspace, members: set<Path>, pending: seq<Path>, visited: set<Path>,
    order: seq<Path>
  )
    requires Progress(repository, workspace, members, pending, visited, visited) && pending != []
    requires NoRepeats(order) && forall m :: m in order <==> m in visited
    ensures var manifest, rest := pending[|pending| - 1], pending[..|pending| - 1];
            && manifest !in visited && manifest in Known(repository, workspace) && manifest in members
            && Progress(repository, workspace, members, rest, visited + {manifest}, visited)
            && NoRepeats(order + [manifest])
            && Complaints(repository, order + [manifest])
               == Complaints(repository, order) + Read(repository, manifest).problems
  {
    hide Reachable, Closed, Known, StartingMembers, Read;
    var manifest, rest := pending[|pending| - 1], pending[..|pending| - 1];
    assert pending == rest + [manifest];
    assert manifest in Elements(pending);
    assert Elements(pending) == Elements(rest) + {manifest};
    assert manifest !in rest;
    assert (order + [manifest])[..|order|] == order;
  }

  lemma Finished(repository: Repository, workspace: Workspace, members: set<Path>, visited: set<Path>)
    requires Progress(repository, workspace, members, [], visited, visited)
    ensures visited == members
    ensures forall m :: m in members <==> Reachable(repository, workspace, m)
  {
    hide Closed, Step, StartingMembers, Known;
    assert visited == members;
    forall m | Reachable(repository, workspace, m) ensures m in members {
      var chain :| Chain(repository, workspace, chain) && chain[|chain| - 1] == m;
      ClosedHoldsChains(repository, workspace, members, chain);
    }
  }

  /** The dependencies of `from` not left to be looked at have been followed. */
  predicate Followed(repository: Repository, excluded: set<Path>, from: Path, left: set<Path>, members: set<Path>) {
    forall d | d in Read(repository, from).dependencies && d !in left :: d in excluded || d in members
  }

  /** Adds the dependencies that are neither excluded nor members yet, in whatever order they come. */
  method AddDependencies(
    repository: Repository, workspace: Workspace, manifest: Path, members: set<Path>, pending: seq<Path>,
    ghost visited: set<Path>
  ) returns (members': set<Path>, pending': seq<Path>)
    requires manifest in visited && manifest in members
    requires Progress(repository, workspace, members, pending, visited, visited - {manifest})
    ensures Progress(repository, workspace, members', pending', visited, visited)
  {
    hide Progress, Followed;
    members', pending' := members, pending;
    var dependencies := Read(repository, manifest).dependencies;
    var left := dependencies;
    assert Followed(repository, workspace.excluded, manifest, left, members') by {
      NothingFollowed(repository, workspace.excluded, manifest, members);
    }
    while left != {}
      invariant left <= dependencies && members <= members'
      invariant Progress(repository, workspace, members', pending', visited, visited - {manifest})
      invariant Followed(repository, workspace.excluded, manifest, left, members')
      decreases |left|
    {
      var dependency :| dependency in left;
      Following(repository, workspace, manifest, dependency, left, members', pending', visited);
      left := left - {dependency};
      if dependency in workspace.excluded || dependency in members' {
        continue;
      }
      members' := members' + {dependency};
      pending' := pending' + [dependency];
    }
    AllFollowed(repository, workspace, manifest, members', pending', visited);
  }

  lemma NothingFollowed(repository: Repository, excluded: set<Path>, from: Path, members: set<Path>)
    ensures Followed(repository, excluded, from, Read(repository, from).dependencies, members)
  {
  }

  lemma AllFollowed(
    repository: Repository, workspace: Workspace, manifest: Path, members: set<Path>, pending: seq<Path>,
    visited: set<Path>
  )
    requires Progress(repository, workspace, members, pending, visited, visited - {manifest})
    requires Followed(repository, workspace.excluded, manifest, {}, members)
    ensures Progress(repository, workspace, members, pending, visited, visited)
  {
    hide Reachable, Known, StartingMembers, Read, NoRepeats, Elements;
  }

  lemma Following(
    repository: Repository, workspace: Workspace, manifest: Path, dependency: Path, left: set<Path>,
    members: set<Path>, pending: seq<Path>, visited: set<Path>
  )
    requires Progress(repository, workspace, members, pending, visited, visited - {manifest})
    requires Followed(repository, workspace.excluded, manifest, left, members)
    requires manifest in members && dependency in Read(repository, manifest).dependencies
    ensures
      if dependency in workspace.excluded || dependency in members then
        Followed(repository, workspace.excluded, manifest, left - {dependency}, members)
      else
        && Followed(repository, workspace.excluded, manifest, left - {dependency}, members + {dependency})
        && Progress(repository, workspace, members + {dependency}, pending + [dependency], visited, visited - {manifest})
  {
    hide Reachable, Known, StartingMembers, Read;
    if dependency !in workspace.excluded && dependency !in members {
      StepIsReachable(repository, workspace, manifest, dependency);
      KnownDependency(repository, workspace, manifest, dependency);
      assert Elements(pending + [dependency]) == Elements(pending) + {dependency};
      assert forall p | p in pending :: p in Elements(pending);
    }
  }

  lemma KnownDependency(repository: Repository, workspace: Workspace, manifest: Path, dependency: Path)
    requires dependency in Read(repository, manifest).dependencies
    ensures dependency in Known(repository, workspace)
  {
  }

  // ---- Order does not matter ------------------------------------------------------------------------------

  /** An excluded manifest is a member only if it is the root package's. */
  lemma ExcludedStayOut(repository: Repository, workspace: Workspace, member: Path)
    requires Reachable(repository, workspace, member)
    ensures member in workspace.excluded ==> workspace.isPackage && member == workspace.root
  {
    hide Read;
    var chain :| Chain(repository, workspace, chain) && chain[|chain| - 1] == member;
    if |chain| > 1 {
      assert Step(repository, workspace.excluded, chain[|chain| - 2], chain[|chain| - 2 + 1]);
    }
  }

  /** The set holds the listed manifests not excluded, the root's if it is a package, and every dependency not excluded
      of a manifest it holds. */
  predicate Complete(repository: Repository, workspace: Workspace, members: set<Path>) {
    && (forall p | p in workspace.listed :: p in workspace.excluded || p in members)
    && (workspace.isPackage ==> workspace.root in members)
    && (forall m, d | m in members && m in repository && d in repository[m].dependencies ::
          d in workspace.excluded || d in members)
  }

  lemma CompleteIsClosed(repository: Repository, workspace: Workspace, members: set<Path>)
    ensures Complete(repository, workspace, members)
            <==> StartingMembers(workspace) <= members && Closed(repository, workspace.excluded, members, members)
  {
    if StartingMembers(workspace) <= members && Closed(repository, workspace.excluded, members, members) {
      forall p | p in workspace.listed ensures p in workspace.excluded || p in members {
        assert p in StartingMembers(workspace) || p in workspace.excluded;
      }
      if workspace.isPackage {
        assert workspace.root in StartingMembers(workspace);
      }
    }
  }

  /** The members are the least complete set. */
  lemma MembersAreLeast(repository: Repository, workspace: Workspace, members: set<Path>, other: set<Path>)
    requires forall m :: m in members <==> Reachable(repository, workspace, m)
    ensures Complete(repository, workspace, members)
    ensures Complete(repository, workspace, other) ==> members <= other
  {
    hide Step, StartingMembers, Complete;
    CompleteIsClosed(repository, workspace, members);
    CompleteIsClosed(repository, workspace, other);
    forall m | m in StartingMembers(workspace) ensures m in members {
      StartIsReachable(repository, workspace, m);
    }
    forall m, d | m in members && d in Read(repository, m).dependencies ensures d in workspace.excluded || d in members {
      if d !in workspace.excluded {
        assert Step(repository, workspace.excluded, m, d) by { StepMeans(repository, workspace.excluded, m, d); }
        StepIsReachable(repository, workspace, m, d);
      }
    }
    if Complete(repository, workspace, other) {
      forall m | m in members ensures m in other {
        var chain :| Chain(repository, workspace, chain) && chain[|chain| - 1] == m;
        ClosedHoldsChains(repository, workspace, other, chain);
      }
    }
  }

  lemma StepMeans(repository: Repository, excluded: set<Path>, from: Path, to: Path)
    ensures Step(repository, excluded, from, to) <==> to in Read(repository, from).dependencies && to !in excluded
  {
  }

  /** Visiting the same manifests in another order reports the same complaints, each as often. */
  lemma {:induction false} ComplaintsIgnoreOrder(repository: Repository, a: seq<Path>, b: seq<Path>)
    requires multiset(a) == multiset(b)
    ensures multiset(Complaints(repository, a)) == multiset(Complaints(repository, b))
    decreases |a|
  {
    hide Read, Complaints;
    assert |a| == |multiset(a)| && |b| == |multiset(b)|;
    if a != [] {
      var k := WithoutLast(a, b);
      var last := a[|a| - 1];
      assert b == b[..k] + [last] + b[k + 1..];
      ComplaintsIgnoreOrder(repository, a[..|a| - 1], b[..k] + b[k + 1..]);
      ComplaintsOfOne(repository, b[..k], last, b[k + 1..]);
      LastComplaints(repository, a);
    }
  }

  lemma WithoutLast(a: seq<Path>, b: seq<Path>) returns (k: nat)
    requires multiset(a) == multiset(b) && a != []
    ensures k < |b| && b[k] == a[|a| - 1]
    ensures multiset(a[..|a| - 1]) == multiset(b[..k] + b[k + 1..])
  {
    var last := a[|a| - 1];
    assert last in multiset(b);
    k :| k < |b| && b[k] == last;
    var before, after := b[..k], b[k + 1..];
    assert a == a[..|a| - 1] + [last] + [] && b == before + [last] + after;
    Middle(before, last, after);
    Middle(a[..|a| - 1], last, []);
    assert a[..|a| - 1] + [] == a[..|a| - 1];
    Cancel(multiset(a[..|a| - 1]), multiset(before + after), last);
  }

  lemma Middle(before: seq<Path>, path: Path, after: seq<Path>)
    ensures multiset(before + [path] + after) == multiset(before + after) + multiset{path}
  {
    assert before + [path] + after == before + ([path] + after);
  }

  lemma Cancel(a: multiset<Path>, b: multiset<Path>, path: Path)
    requires a + multiset{path} == b + multiset{path}
    ensures a == b
  {
    forall p ensures a[p] == b[p] {
      assert (a + multiset{path})[p] == (b + multiset{path})[p];
    }
  }

  lemma LastComplaints(repository: Repository, order: seq<Path>)
    requires order != []
    ensures multiset(Complaints(repository, order))
            == multiset(Complaints(repository, order[..|order| - 1]))
               + multiset(Read(repository, order[|order| - 1]).problems)
  {
    hide Read;
  }

  lemma {:induction false} ComplaintsOfOne(repository: Repository, before: seq<Path>, path: Path, after: seq<Path>)
    ensures multiset(Complaints(repository, before + [path] + after))
            == multiset(Complaints(repository, before + after)) + multiset(Read(repository, path).problems)
    decreases |after|
  {
    hide Read;
    var whole := before + [path] + after;
    if after == [] {
      assert whole[..|whole| - 1] == before && before + after == before;
    } else {
      var init, last := after[..|after| - 1], after[|after| - 1];
      assert whole[..|whole| - 1] == before + [path] + init;
      assert (before + after)[..|before + after| - 1] == before + init;
      ComplaintsOfOne(repository, before, path, init);
    }
  }

  /** Two runs over the same repository agree on the members and on the complaints, up to order. */
  lemma RunsAgree(repository: Repository, workspace: Workspace, a: seq<Path>, b: seq<Path>)
    requires NoRepeats(a) && forall m :: m in a <==> Reachable(repository, workspace, m)
    requires NoRepeats(b) && forall m :: m in b <==> Reachable(repository, workspace, m)
    ensures multiset(Complaints(repository, a)) == multiset(Complaints(repository, b))
  {
    hide Reachable, NoRepeats;
    SameSetSameMultiset(a, b);
    ComplaintsIgnoreOrder(repository, a, b);
  }

  // ---- What is complained of -----------------------------------------------------------------------------

  /** An empty start is complained of, and nothing else is before manifests are read. */
  lemma StartIsComplainedOf(workspace: Workspace)
    ensures StartComplaints(workspace)
            == if !workspace.isPackage && forall p | p in workspace.listed :: p in workspace.excluded
               then ["workspace has no package members"] else []
  {
    if StartingMembers(workspace) == {} {
      forall p | p in workspace.listed ensures p in workspace.excluded {
        assert p !in StartingMembers(workspace);
      }
      assert workspace.isPackage ==> workspace.root in StartingMembers(workspace);
    }
  }

  /** Each manifest adds its own complaints, in the order of the visits; a missing one is complained of as unparsable. */
  lemma {:induction false} EachManifestIsComplainedOf(repository: Repository, before: seq<Path>, path: Path)
    ensures Complaints(repository, []) == []
    ensures Complaints(repository, before + [path])
            == Complaints(repository, before)
               + if path in repository then repository[path].problems else ["manifest cannot be parsed"]
  {
    assert (before + [path])[..|before|] == before;
  }
}
