/** The work-package graph checks: known and acyclic dependencies, release
    reachability and headless isolation. */
module PlanGraph {
  import opened Graph

  datatype Row = Row(id: Id, deps: seq<Id>)

  datatype Issue =
    | DuplicateRows
    | UnknownDependency(package: Id, dependency: Id)
    | SelfDependency(package: Id)
    | DependencyCycle(path: seq<Id>)
    | NotReachable(packages: set<Id>)
    | ReleaseMissing
    | HeadlessMissing(package: Id)
    | HeadlessNeedsNative(package: Id, native: set<Id>)

  datatype Color = Gray | Black

  function Ids(rows: seq<Row>): seq<Id> {
    seq(|rows|, i requires 0 <= i < |rows| => rows[i].id)
  }

  /** The dependency table; of two rows with one id the later one counts. */
  function Dependencies(rows: seq<Row>): Graph {
    if rows == [] then map[]
    else Dependencies(rows[..|rows| - 1])[rows[|rows| - 1].id := rows[|rows| - 1].deps]
  }

  lemma {:induction false} TableHasRows(rows: seq<Row>)
    ensures forall v :: v in Ids(rows) <==> v in Dependencies(rows)
    decreases |rows|
  {
    if rows != [] {
      var init := rows[..|rows| - 1];
      TableHasRows(init);
      assert Ids(rows) == Ids(init) + [rows[|rows| - 1].id];
    }
  }

  /** The table holds the dependencies of each id's last row. */
  lemma {:induction false} LastRowCounts(rows: seq<Row>, i: nat)
    requires i < |rows| && forall j :: i < j < |rows| ==> rows[j].id != rows[i].id
    ensures rows[i].id in Dependencies(rows) && Dependencies(rows)[rows[i].id] == rows[i].deps
    decreases |rows|
  {
    if i < |rows| - 1 {
      assert rows[..|rows| - 1][i] == rows[i];
      LastRowCounts(rows[..|rows| - 1], i);
    }
  }

  ghost predicate Distinct(ids: seq<Id>) {
    forall i, j :: 0 <= i < j < |ids| ==> ids[i] != ids[j]
  }

  function Named(ids: seq<Id>): set<Id> { set v | v in ids }

  lemma DistinctStep(ids: seq<Id>, last: Id)
    ensures Distinct(ids + [last]) <==> Distinct(ids) && last !in ids
    ensures Named(ids + [last]) == Named(ids) + {last}
  {
    var all := ids + [last];
    assert forall i :: 0 <= i < |ids| ==> all[i] == ids[i];
    if last in ids {
      var k :| 0 <= k < |ids| && ids[k] == last;
      assert all[k] == all[|ids|];
    }
  }

  /** There are as many names as rows exactly when no name comes twice. */
  lemma {:induction false} DistinctByCount(ids: seq<Id>)
    ensures |Named(ids)| <= |ids| && (|Named(ids)| == |ids| <==> Distinct(ids))
    decreases |ids|
  {
    if ids != [] {
      var init, last := ids[..|ids| - 1], ids[|ids| - 1];
      assert ids == init + [last];
      DistinctByCount(init);
      DistinctStep(init, last);
      assert last in Named(init) <==> last in init;
      hide Distinct, Named;
      if last in init { assert Named(init) + {last} == Named(init); }
    }
  }

  // ----- The conditions the checks stand for -----

  /** Every dependency listed for u is another known package. */
  ghost predicate RowClean(g: Graph, u: Id)
    requires u in g
  {
    forall i :: 0 <= i < |g[u]| ==> g[u][i] in g && g[u][i] != u
  }

  ghost predicate TableClean(g: Graph) {
    forall u :: u in g ==> RowClean(g, u)
  }

  ghost predicate ReleaseComplete(g: Graph, release: Id) {
    release in g && forall v :: v in g && v != release ==> Reaches(g, release, v)
  }

  ghost predicate HeadlessIsolated(g: Graph, h: Id, native: set<Id>) {
    h in g && forall v :: v in native ==> !Reaches(g, h, v)
  }

  ghost predicate PlanOk(rows: seq<Row>, release: Id, headless: seq<Id>, native: set<Id>) {
    var g := Dependencies(rows);
    && Distinct(Ids(rows))
    && TableClean(g)
    && !HasCycle(g)
    && ReleaseComplete(g, release)
    && (forall i :: 0 <= i < |headless| ==> HeadlessIsolated(g, headless[i], native))
  }

  /** The packages, other than the release itself, that it does not need. */
  ghost function Unreached(g: Graph, release: Id): set<Id> {
    set v | v in g && v != release && !Reaches(g, release, v)
  }

  ghost function NativeNeeds(g: Graph, h: Id, native: set<Id>): set<Id> {
    set v | v in native && Reaches(g, h, v)
  }

  /** What this issue says of the plan is true, and worth raising. */
  ghost predicate Due(issue: Issue, rows: seq<Row>, release: Id, headless: seq<Id>, native: set<Id>) {
    var g := Dependencies(rows);
    match issue
    case DuplicateRows => !Distinct(Ids(rows))
    case UnknownDependency(u, v) => u in g && v in g[u] && v !in g
    case SelfDependency(u) => u in g && u in g[u]
    case DependencyCycle(path) => ClosesCycle(g, path)
    case NotReachable(packages) => release in g && packages == Unreached(g, release) != {}
    case ReleaseMissing => release !in g
    case HeadlessMissing(h) => h in headless && h !in g
    case HeadlessNeedsNative(h, needs) => h in headless && h in g && needs == NativeNeeds(g, h, native) != {}
  }

  /** Every issue raised is due, and every issue due is raised; of the cycles so many that
      every cycle runs through an edge that closes a reported one. */
  ghost predicate Raised(errors: seq<Issue>, rows: seq<Row>, release: Id, headless: seq<Id>, native: set<Id>) {
    && (forall issue :: issue in errors ==> Due(issue, rows, release, headless, native))
    && (forall issue :: Due(issue, rows, release, headless, native) ==> issue in errors || issue.DependencyCycle?)
    && ((exists issue :: issue in errors && issue.DependencyCycle?) <==> HasCycle(Dependencies(rows)))
    && AllMet(Dependencies(rows), errors)
  }

  /** Nodes some entry lists. */
  function Mentioned(g: Graph): set<Id> {
    set u, v | u in g && v in g[u] :: v
  }

  /** The node set that the calls of one closure share. */
  class NodeSet {
    var nodes: set<Id>

    constructor ()
      ensures nodes == {}
    {
      nodes := {};
    }
  }

  /** Coloured nodes keep their colours. */
  ghost predicate Kept(before: map<Id, Color>, after: map<Id, Color>) {
    forall v :: v in before ==> v in after && after[v] == before[v]
  }

  /** Only cycles have been reported since. */
  ghost predicate CyclesAdded(before: seq<Issue>, after: seq<Issue>) {
    before <= after && forall k :: |before| <= k < |after| ==> after[k].DependencyCycle?
  }

  lemma MoreCycles(first: seq<Issue>, second: seq<Issue>, third: seq<Issue>)
    requires CyclesAdded(first, second) && CyclesAdded(second, third)
    ensures CyclesAdded(first, third)
  {
  }

  lemma CyclesPrefix(before: seq<Issue>, after: seq<Issue>)
    requires CyclesAdded(before, after)
    ensures before <= after
  {
  }

  lemma OneMoreCycle(errors: seq<Issue>, path: seq<Id>)
    ensures CyclesAdded(errors, errors + [DependencyCycle(path)]) && CyclesAdded(errors, errors)
  {
  }

  /** Whatever has been coloured since is finished. */
  ghost predicate Finished(before: map<Id, Color>, after: map<Id, Color>) {
    forall v :: v in after && v !in before ==> after[v].Black?
  }

  /** The gray nodes are exactly those on the current path, a walk. */
  ghost predicate OnPath(g: Graph, color: map<Id, Color>, path: seq<Id>) {
    IsWalk(g, path) && forall v :: v in color && color[v].Gray? ==> v in path
  }

  /** The edge from u to v closes a reported cycle. */
  ghost predicate ClosedBy(errors: seq<Issue>, u: Id, v: Id) {
    exists k :: 0 <= k < |errors| && Closes(errors[k], u, v)
  }

  ghost predicate Closes(issue: Issue, u: Id, v: Id) {
    && issue.DependencyCycle? && 2 <= |issue.path|
    && issue.path[|issue.path| - 2] == u && issue.path[|issue.path| - 1] == v
  }

  lemma ClosedStays(before: seq<Issue>, after: seq<Issue>, u: Id, v: Id)
    requires before <= after && ClosedBy(before, u, v)
    ensures ClosedBy(after, u, v)
  {
    var k :| 0 <= k < |before| && Closes(before[k], u, v);
    assert after[k] == before[k];
  }

  lemma ClosedNow(errors: seq<Issue>, path: seq<Id>, v: Id)
    requires path != []
    ensures ClosedBy(errors + [DependencyCycle(path + [v])], path[|path| - 1], v)
  {
    assert Closes((errors + [DependencyCycle(path + [v])])[|errors|], path[|path| - 1], v);
  }

  /** The first n listed successors of u are finished, close a reported cycle, or are not
      packages at all. */
  ghost predicate Explored(g: Graph, color: map<Id, Color>, errors: seq<Issue>, u: Id, n: nat)
    requires u in g && n <= |g[u]|
  {
    forall k :: 0 <= k < n && g[u][k] in g ==>
      (g[u][k] in color && color[g[u][k]].Black?) || ClosedBy(errors, u, g[u][k])
  }

  /** Every edge between packages descends in this ranking or closes a reported cycle. */
  ghost predicate Descends(g: Graph, rank: map<Id, nat>, errors: seq<Issue>) {
    forall w, v :: w in rank && v in g && v in Successors(g, w) ==>
      (v in rank && rank[v] < rank[w]) || ClosedBy(errors, w, v)
  }

  /** Some edge of the walk closes a reported cycle. */
  ghost predicate MeetsReport(errors: seq<Issue>, p: seq<Id>) {
    exists i :: 0 <= i < |p| - 1 && ClosedBy(errors, p[i], p[i + 1])
  }

  ghost predicate AllMet(g: Graph, errors: seq<Issue>) {
    forall p :: ClosesCycle(g, p) ==> MeetsReport(errors, p)
  }

  lemma MetStays(g: Graph, before: seq<Issue>, after: seq<Issue>)
    requires before <= after && AllMet(g, before)
    ensures AllMet(g, after)
  {
    hide ClosedBy, ClosesCycle;
    forall p | ClosesCycle(g, p) ensures MeetsReport(after, p) {
      assert MeetsReport(before, p);
      var i :| 0 <= i < |p| - 1 && ClosedBy(before, p[i], p[i + 1]);
      ClosedStays(before, after, p[i], p[i + 1]);
    }
  }

  /** Every cycle runs through an edge that closes a reported one, so without those edges
      there is none. */
  lemma CyclesAreMet(g: Graph, rank: map<Id, nat>, errors: seq<Issue>, p: seq<Id>)
    requires Descends(g, rank, errors) && (forall v :: v in g ==> v in rank) && ClosesCycle(g, p)
    ensures MeetsReport(errors, p)
  {
    var i :| 0 <= i < |p| - 1 && p[i] == p[|p| - 1];
    assert p[i + 1] in Successors(g, p[i]);
    if !MeetsReport(errors, p) { WalkDescends(g, rank, errors, p, i, |p| - 1); }
  }

  lemma {:induction false} WalkDescends(g: Graph, rank: map<Id, nat>, errors: seq<Issue>, p: seq<Id>, i: nat, k: nat)
    requires Descends(g, rank, errors) && (forall v :: v in g ==> v in rank) && IsWalk(g, p) && !MeetsReport(errors, p)
    requires i < k < |p| && p[k] in g
    ensures p[i] in rank && rank[p[k]] < rank[p[i]]
    decreases k
  {
    assert p[k - 1 + 1] in Successors(g, p[k - 1]);
    assert !ClosedBy(errors, p[k - 1], p[k - 1 + 1]);
    if i < k - 1 { WalkDescends(g, rank, errors, p, i, k - 1); }
  }

  lemma NothingChanged(color: map<Id, Color>)
    ensures Kept(color, color) && Finished(color, color)
  {
  }

  lemma ColorsGrow(first: map<Id, Color>, second: map<Id, Color>, third: map<Id, Color>)
    requires Kept(first, second) && Finished(first, second) && Kept(second, third) && Finished(second, third)
    ensures Kept(first, third) && Finished(first, third)
  {
  }

  lemma PathStays(g: Graph, entered: map<Id, Color>, color: map<Id, Color>, path: seq<Id>)
    requires OnPath(g, entered, path) && Kept(entered, color) && Finished(entered, color)
    ensures OnPath(g, color, path)
  {
    hide IsWalk;
  }

  lemma PathEntered(g: Graph, color: map<Id, Color>, path: seq<Id>, u: Id)
    requires OnPath(g, color, path) && u in path
    ensures OnPath(g, color[u := Gray], path)
  {
    hide IsWalk;
  }

  lemma NothingExplored(g: Graph, color: map<Id, Color>, errors: seq<Issue>, u: Id)
    requires u in g
    ensures Explored(g, color, errors, u, 0)
  {
  }

  lemma PathGrows(g: Graph, color: map<Id, Color>, path: seq<Id>, v: Id)
    requires OnPath(g, color, path) && v in Successors(g, path[|path| - 1])
    ensures OnPath(g, color, path + [v])
  {
    WalkExtends(g, path, v);
    hide IsWalk;
  }

  lemma OwnPath(g: Graph, color: map<Id, Color>, u: Id)
    requires forall v :: v in color ==> color[v].Black?
    ensures OnPath(g, color, [u])
  {
  }

  lemma AllFinished(before: map<Id, Color>, after: map<Id, Color>)
    requires (forall v :: v in before ==> before[v].Black?) && Kept(before, after) && Finished(before, after)
    ensures forall v :: v in after ==> after[v].Black?
  {
  }

  lemma ExploredMore(g: Graph, before: map<Id, Color>, color: map<Id, Color>, known: seq<Issue>, errors: seq<Issue>,
                     u: Id, i: nat)
    requires u in g && i < |g[u]| && Explored(g, before, known, u, i) && Kept(before, color) && known <= errors
    requires g[u][i] in g ==> (g[u][i] in color && color[g[u][i]].Black?) || ClosedBy(errors, u, g[u][i])
    ensures Explored(g, color, errors, u, i + 1)
  {
    hide ClosedBy;
    forall k | 0 <= k < i && ClosedBy(known, u, g[u][k]) ensures ClosedBy(errors, u, g[u][k]) {
      ClosedStays(known, errors, u, g[u][k]);
    }
  }

  /** Finishing the node entered first finishes everything coloured since. */
  lemma NodeFinished(before: map<Id, Color>, u: Id, color: map<Id, Color>)
    requires u !in before && Kept(before[u := Gray], color) && Finished(before[u := Gray], color)
    ensures Kept(before, color[u := Black]) && Finished(before, color[u := Black])
    ensures u in color && color[u].Gray?
  {
    assert u in before[u := Gray];
    forall v | v in before ensures v in color && color[v] == before[v] { assert v in before[u := Gray]; }
  }

  /** The first n dependencies of u are reported where they are bad. */
  ghost predicate RowReported(g: Graph, errors: seq<Issue>, u: Id, n: nat)
    requires u in g && n <= |g[u]|
  {
    forall j :: 0 <= j < n ==>
      && (g[u][j] !in g ==> UnknownDependency(u, g[u][j]) in errors)
      && (g[u][j] == u ==> SelfDependency(u) in errors)
  }

  ghost predicate TableReported(g: Graph, errors: seq<Issue>) {
    forall u :: u in g ==> RowReported(g, errors, u, |g[u]|)
  }

  /** The reports from number `from` on name real faults of the table. */
  ghost predicate FaultsReal(g: Graph, errors: seq<Issue>, from: nat) {
    forall k :: from <= k < |errors| ==>
      match errors[k]
      case UnknownDependency(u, v) => u in g && v in g[u] && v !in g
      case SelfDependency(u) => u in g && u in g[u]
      case _ => false
  }

  class PlanChecker {
    const deps: Graph
    var color: map<Id, Color>
    var errors: seq<Issue>
    /** Finishing order of the black nodes. */
    ghost var rank: map<Id, nat>
    ghost var clock: nat

    constructor (rows: seq<Row>)
      ensures deps == Dependencies(rows) && color == map[] && errors == [] && rank == map[] && clock == 0
    {
      deps := Dependencies(rows);
      color, errors, rank, clock := map[], [], map[], 0;
    }

    // ----- Cycles -----

    predicate NoCycleReported()
      reads this`errors
    {
      forall i :: 0 <= i < |errors| ==> !errors[i].DependencyCycle?
    }

    ghost predicate CyclesReal()
      reads this`errors
    {
      forall i :: 0 <= i < |errors| && errors[i].DependencyCycle? ==> ClosesCycle(deps, errors[i].path)
    }

    /** Black nodes are ranked, and every known successor of a black node is black and
        ranked lower, unless the edge to it closes a reported cycle. */
    ghost predicate Ranked()
      reads this`color, this`rank, this`clock, this`errors
    {
      && color.Keys <= deps.Keys
      && (forall v :: v in rank <==> v in color && color[v].Black?)
      && (forall v :: v in rank ==> rank[v] < clock)
      && Descends(deps, rank, errors)
    }

    method Enter(u: Id)
      requires u in deps && u !in color && Ranked()
      modifies this`color
      ensures Ranked() && color == old(color)[u := Gray]
    {
      color := color[u := Gray];
    }

    /** A gray successor closes a cycle with the current path. */
    method Report(path: seq<Id>, v: Id)
      requires OnPath(deps, color, path) && v in Successors(deps, path[|path| - 1]) && v in color && color[v].Gray?
      requires Ranked() && CyclesReal()
      modifies this`errors
      ensures Ranked() && CyclesReal() && !NoCycleReported()
      ensures errors == old(errors) + [DependencyCycle(path + [v])] && ClosedBy(errors, path[|path| - 1], v)
    {
      ClosedNow(errors, path, v);
      RankingStays(errors + [DependencyCycle(path + [v])]);
      WalkExtends(deps, path, v);
      ghost var at :| 0 <= at < |path| && path[at] == v;
      assert (path + [v])[at] == v;
      assert ClosesCycle(deps, path + [v]);
      errors := errors + [DependencyCycle(path + [v])];
      assert errors[|errors| - 1].DependencyCycle?;
    }

    lemma RankingStays(after: seq<Issue>)
      requires errors <= after && Descends(deps, rank, errors)
      ensures Descends(deps, rank, after)
    {
      hide ClosedBy;
      forall w, v | w in rank && v in deps && v in Successors(deps, w) && ClosedBy(errors, w, v)
        ensures ClosedBy(after, w, v)
      {
        ClosedStays(errors, after, w, v);
      }
    }

    method Leave(u: Id)
      requires u in deps && u in color && color[u].Gray? && Ranked()
      requires Explored(deps, color, errors, u, |deps[u]|)
      modifies this`color, this`rank, this`clock
      ensures Ranked() && color == old(color)[u := Black]
    {
      color := color[u := Black];
      rank, clock := rank[u := clock], clock + 1;
    }

    method Dfs(u: Id, path: seq<Id>)
      requires u in deps && u !in color && path != [] && path[|path| - 1] == u
      requires Ranked() && CyclesReal() && OnPath(deps, color, path)
      modifies this`color, this`errors, this`rank, this`clock
      decreases deps.Keys - color.Keys
      ensures Ranked() && CyclesReal()
      ensures u in color && color[u].Black?
      ensures Kept(old(color), color) && Finished(old(color), color) && old(color).Keys <= color.Keys
      ensures CyclesAdded(old(errors), errors) && (NoCycleReported() ==> errors == old(errors))
    {
      hide Ranked, CyclesReal, OnPath, Explored, Kept, Finished, CyclesAdded, ClosedBy;
      ghost var before := color;
      PathEntered(deps, color, path, u);
      Enter(u);
      ghost var entered := color;
      assert u in entered && before.Keys <= entered.Keys;
      NothingChanged(entered);
      NothingExplored(deps, color, errors, u);
      OneMoreCycle(errors, path);
      var i := 0;
      while i < |deps[u]|
        invariant i <= |deps[u]|
        invariant Ranked() && CyclesReal() && Kept(entered, color) && Finished(entered, color)
            && entered.Keys <= color.Keys
        invariant CyclesAdded(old(errors), errors) && Explored(deps, color, errors, u, i)
        invariant NoCycleReported() ==> errors == old(errors)
      {
        var v := deps[u][i];
        ghost var seen, known := color, errors;
        OneMoreCycle(errors, path + [v]);
        PathStays(deps, entered, color, path);
        NothingChanged(seen);
        if v in color && color[v].Gray? {
          Report(path, v);
        } else if v !in color && v in deps {
          PathGrows(deps, color, path, v);
          Dfs(v, path + [v]);
        }
        ColorsGrow(entered, seen, color);
        MoreCycles(old(errors), known, errors);
        CyclesPrefix(known, errors);
        ExploredMore(deps, seen, color, known, errors, u, i);
        i := i + 1;
      }
      NodeFinished(before, u, color);
      Leave(u);
    }

    /** Search from every package not reached yet. */
    method SearchAll(ids: seq<Id>)
      requires color == map[] && rank == map[] && NoCycleReported()
      requires forall v :: v in ids <==> v in deps
      modifies this`color, this`errors, this`rank, this`clock
      ensures Ranked() && CyclesReal() && CyclesAdded(old(errors), errors)
      ensures NoCycleReported() ==> errors == old(errors)
      ensures forall v :: v in deps ==> v in color && color[v].Black?
    {
      hide Ranked, CyclesReal, CyclesAdded, Kept, Finished, OnPath;
      NothingSearched();
      OneMoreCycle(errors, []);
      var i := 0;
      while i < |ids|
        invariant i <= |ids| && Ranked() && CyclesReal() && CyclesAdded(old(errors), errors)
        invariant NoCycleReported() ==> errors == old(errors)
        invariant forall v :: v in color ==> color[v].Black?
        invariant forall k :: 0 <= k < i ==> ids[k] in color
      {
        if ids[i] !in color {
          ghost var seen, known := color, errors;
          OwnPath(deps, color, ids[i]);
          Dfs(ids[i], [ids[i]]);
          AllFinished(seen, color);
          MoreCycles(old(errors), known, errors);
        }
        i := i + 1;
      }
    }

    lemma NothingSearched()
      requires color == map[] && rank == map[] && NoCycleReported()
      ensures Ranked() && CyclesReal()
    {
    }

    /** A cycle is reported exactly when there is one, and every reported path is a real
        walk that returns to itself. */
    method CheckCycles(ids: seq<Id>)
      requires color == map[] && rank == map[] && NoCycleReported()
      requires forall v :: v in ids <==> v in deps
      modifies this`color, this`errors, this`rank, this`clock
      ensures HasCycle(deps) <==> !NoCycleReported()
      ensures CyclesReal() && CyclesAdded(old(errors), errors) && (errors == old(errors) <==> !HasCycle(deps))
      ensures AllMet(deps, errors)
    {
      SearchAll(ids);
      forall p | ClosesCycle(deps, p) ensures MeetsReport(errors, p) { CyclesAreMet(deps, rank, errors, p); }
      if NoCycleReported() {
        RankedIsAcyclic(deps, rank);
      } else {
        ghost var e :| 0 <= e < |errors| && errors[e].DependencyCycle?;
        ClosedWalkIsCycle(deps, errors[e].path);
      }
    }

    // ----- Reachability -----

    /** Add everything reachable from u to the shared set, which also keeps the
        recursion from running in circles. */
    method Closure(u: Id, acc: NodeSet)
      modifies acc
      decreases Mentioned(deps) - acc.nodes
      ensures old(acc.nodes) <= acc.nodes
      ensures forall v :: v in Successors(deps, u) ==> v in acc.nodes
      ensures forall v :: v in acc.nodes && v !in old(acc.nodes) ==> Reaches(deps, u, v)
      ensures forall v, w :: v in acc.nodes && v !in old(acc.nodes) && w in Successors(deps, v) ==> w in acc.nodes
    {
      var next := Successors(deps, u);
      var i := 0;
      while i < |next|
        invariant i <= |next| && old(acc.nodes) <= acc.nodes
        invariant forall k :: 0 <= k < i ==> next[k] in acc.nodes
        invariant forall v :: v in acc.nodes && v !in old(acc.nodes) ==> Reaches(deps, u, v)
        invariant forall v, w :: v in acc.nodes && v !in old(acc.nodes) && w in Successors(deps, v) ==> w in acc.nodes
      {
        var v := next[i];
        if v !in acc.nodes {
          assert u in deps && v in deps[u];
          assert v in Mentioned(deps);
          ghost var before := acc.nodes;
          acc.nodes := acc.nodes + {v};
          Closure(v, acc);
          EdgeReaches(deps, u, v);
          forall w | w in acc.nodes && w !in before ensures Reaches(deps, u, w) {
            if w != v { EdgeThenReaches(deps, u, v, w); }
          }
        }
        i := i + 1;
      }
    }

    /** Exactly the nodes reachable from u by one or more edges. */
    method ReachableFrom(u: Id) returns (nodes: set<Id>)
      ensures forall v :: v in nodes <==> Reaches(deps, u, v)
    {
      var acc := new NodeSet();
      Closure(u, acc);
      nodes := acc.nodes;
      forall v | Reaches(deps, u, v) ensures v in nodes {
        ClosedSetHoldsReachable(deps, nodes, u, v);
      }
    }

    // ----- The checks -----

    method CheckRow(u: Id, ghost from: nat)
      requires u in deps && FaultsReal(deps, errors, from)
      modifies this`errors
      ensures old(errors) <= errors && (errors == old(errors) <==> RowClean(deps, u))
      ensures FaultsReal(deps, errors, from) && RowReported(deps, errors, u, |deps[u]|)
      ensures forall v ::
        v in deps && old(RowReported(deps, errors, v, |deps[v]|)) ==> RowReported(deps, errors, v, |deps[v]|)
    {
      var j := 0;
      while j < |deps[u]|
        invariant j <= |deps[u]| && old(errors) <= errors && FaultsReal(deps, errors, from)
        invariant errors == old(errors) <==> forall l :: 0 <= l < j ==> deps[u][l] in deps && deps[u][l] != u
        invariant RowReported(deps, errors, u, j)
      {
        var v := deps[u][j];
        if v !in deps { errors := errors + [UnknownDependency(u, v)]; }
        if v == u { errors := errors + [SelfDependency(u)]; }
        j := j + 1;
      }
      assert forall issue :: issue in old(errors) ==> issue in errors;
    }

    /** Every unknown and every reflexive dependency is reported, and nothing else. */
    method CheckTable(ids: seq<Id>)
      requires forall v :: v in ids <==> v in deps
      modifies this`errors
      ensures old(errors) <= errors && (errors == old(errors) <==> TableClean(deps))
      ensures FaultsReal(deps, errors, |old(errors)|)
      ensures TableReported(deps, errors)
    {
      hide RowClean, FaultsReal, RowReported;
      ghost var from := |errors|;
      assert FaultsReal(deps, errors, from) by { NothingReported(from); }
      var i := 0;
      while i < |ids|
        invariant i <= |ids| && old(errors) <= errors && FaultsReal(deps, errors, from)
        invariant errors == old(errors) <==> forall k :: 0 <= k < i ==> RowClean(deps, ids[k])
        invariant forall k :: 0 <= k < i ==> RowReported(deps, errors, ids[k], |deps[ids[k]]|)
      {
        if ids[i] !in ids[..i] { CheckRow(ids[i], from); }
        i := i + 1;
      }
    }

    lemma NothingReported(from: nat)
      requires from == |errors|
      ensures FaultsReal(deps, errors, from)
    {
    }

    method CheckRelease(ids: seq<Id>, release: Id)
      requires forall v :: v in ids <==> v in deps
      modifies this`errors
      ensures old(errors) <= errors && (errors == old(errors) <==> ReleaseComplete(deps, release))
      ensures errors == old(errors) +
        if release !in deps then [ReleaseMissing]
        else if Unreached(deps, release) == {} then []
        else [NotReachable(Unreached(deps, release))]
      ensures NoCycleReported() == old(NoCycleReported()) && CyclesReal() == old(CyclesReal())
    {
      if release in deps {
        var reached := ReachableFrom(release);
        var unreachable := Named(ids) - reached - {release};
        assert unreachable == Unreached(deps, release);
        if unreachable != {} {
          ghost var v :| v in unreachable;
          assert !Reaches(deps, release, v);
          errors := errors + [NotReachable(unreachable)];
        } else {
          forall v | v in deps && v != release ensures Reaches(deps, release, v) {
            assert v !in Unreached(deps, release);
          }
        }
      } else {
        errors := errors + [ReleaseMissing];
      }
    }

    method CheckHeadless(h: Id, native: set<Id>)
      modifies this`errors
      ensures old(errors) <= errors && (errors == old(errors) <==> HeadlessIsolated(deps, h, native))
      ensures errors == old(errors) +
        if h !in deps then [HeadlessMissing(h)]
        else if NativeNeeds(deps, h, native) == {} then []
        else [HeadlessNeedsNative(h, NativeNeeds(deps, h, native))]
      ensures NoCycleReported() == old(NoCycleReported()) && CyclesReal() == old(CyclesReal())
    {
      if h !in deps {
        errors := errors + [HeadlessMissing(h)];
        return;
      }
      var reached := ReachableFrom(h);
      var bad := reached * native;
      assert bad == NativeNeeds(deps, h, native);
      if bad != {} {
        ghost var v :| v in bad;
        assert Reaches(deps, h, v);
        errors := errors + [HeadlessNeedsNative(h, bad)];
      } else {
        forall v | v in native ensures !Reaches(deps, h, v) {
          assert v !in NativeNeeds(deps, h, native);
        }
      }
    }
  }

  /** What is raised before any headless package is looked at. */
  lemma RowsRaised(rows: seq<Row>, release: Id, native: set<Id>, first: seq<Issue>, table: seq<Issue>,
                   cycles: seq<Issue>, all: seq<Issue>)
    requires first == if Distinct(Ids(rows)) then [] else [DuplicateRows]
    requires first <= table && FaultsReal(Dependencies(rows), table, |first|)
    requires TableReported(Dependencies(rows), table)
    requires CyclesAdded(table, cycles) && (cycles == table <==> !HasCycle(Dependencies(rows)))
    requires forall k :: |table| <= k < |cycles| ==> ClosesCycle(Dependencies(rows), cycles[k].path)
    requires AllMet(Dependencies(rows), cycles)
    requires
      var g := Dependencies(rows);
      all == cycles + if release !in g then [ReleaseMissing]
                      else if Unreached(g, release) == {} then []
                      else [NotReachable(Unreached(g, release))]
    ensures Raised(all, rows, release, [], native)
  {
    hide ClosesCycle, HasCycle, Distinct, Unreached, Dependencies, AllMet;
    var g := Dependencies(rows);
    MetStays(g, cycles, all);
    assert forall issue :: issue in table ==> issue in all by {
      assert forall k :: 0 <= k < |table| ==> all[k] == table[k];
    }
    forall issue | issue in all ensures Due(issue, rows, release, [], native) {
      var k :| 0 <= k < |all| && all[k] == issue;
      if k < |first| {
        assert table[k] == first[k];
      } else if k < |table| {
        assert issue == table[k];
      }
    }
    forall issue | Due(issue, rows, release, [], native) ensures issue in all || issue.DependencyCycle? {
      if issue.DuplicateRows? { assert table[0] == first[0]; }
      if issue.UnknownDependency? { TableHas(g, table, issue.package, issue.dependency); }
      if issue.SelfDependency? { TableHas(g, table, issue.package, issue.package); }
    }
    if HasCycle(g) { assert all[|table|].DependencyCycle?; }
    forall issue | issue in all && issue.DependencyCycle? ensures HasCycle(g) {
      var k :| 0 <= k < |all| && all[k] == issue;
      if k < |first| { assert table[k] == first[k]; }
    }
  }

  lemma TableHas(g: Graph, errors: seq<Issue>, u: Id, v: Id)
    requires TableReported(g, errors) && u in g && v in g[u]
    ensures v !in g ==> UnknownDependency(u, v) in errors
    ensures v == u ==> SelfDependency(u) in errors
  {
    var j :| 0 <= j < |g[u]| && g[u][j] == v;
    assert RowReported(g, errors, u, |g[u]|);
  }

  /** What looking at one more headless package adds. */
  lemma HeadlessRaised(rows: seq<Row>, release: Id, headless: seq<Id>, h: Id, native: set<Id>, errors: seq<Issue>,
                       all: seq<Issue>)
    requires Raised(errors, rows, release, headless, native)
    requires
      var g := Dependencies(rows);
      all == errors + if h !in g then [HeadlessMissing(h)]
                      else if NativeNeeds(g, h, native) == {} then []
                      else [HeadlessNeedsNative(h, NativeNeeds(g, h, native))]
    ensures Raised(all, rows, release, headless + [h], native)
  {
    hide ClosesCycle, HasCycle, Distinct, Unreached, NativeNeeds, Dependencies, AllMet;
    MetStays(Dependencies(rows), errors, all);
    forall issue | issue in all ensures Due(issue, rows, release, headless + [h], native) {
      if issue in errors { assert Due(issue, rows, release, headless, native); }
    }
    forall issue | Due(issue, rows, release, headless + [h], native) ensures issue in all || issue.DependencyCycle? {
      if Due(issue, rows, release, headless, native) { assert issue in errors || issue.DependencyCycle?; }
    }
    forall issue | issue in all && issue.DependencyCycle? ensures issue in errors {}
  }

  /** The graph part of the plan check: no issue is raised exactly when the plan meets
      every condition, and the issues raised are those that are due. */
  method CheckPlan(rows: seq<Row>, release: Id, headless: seq<Id>, native: set<Id>) returns (checker: PlanChecker)
    ensures fresh(checker) && checker.deps == Dependencies(rows)
    ensures checker.errors == [] <==> PlanOk(rows, release, headless, native)
    ensures Raised(checker.errors, rows, release, headless, native)
  {
    hide HasCycle, ReleaseComplete, HeadlessIsolated, TableClean, Distinct, Raised, Unreached, NativeNeeds, AllMet,
      TableReported, Dependencies;
    checker := new PlanChecker(rows);
    var ids := Ids(rows);
    TableHasRows(rows);
    DistinctByCount(ids);
    if |ids| != |Named(ids)| { checker.errors := [DuplicateRows]; }
    ghost var first := checker.errors;
    checker.CheckTable(ids);
    ghost var table := checker.errors;
    checker.CheckCycles(ids);
    ghost var cycles := checker.errors;
    checker.CheckRelease(ids, release);
    RowsRaised(rows, release, native, first, table, cycles, checker.errors);
    assert headless[..0] == [];
    var i := 0;
    while i < |headless|
      invariant i <= |headless|
      invariant checker.errors == [] <==>
        && Distinct(ids) && TableClean(checker.deps) && !HasCycle(checker.deps)
             && ReleaseComplete(checker.deps, release)
        && forall k :: 0 <= k < i ==> HeadlessIsolated(checker.deps, headless[k], native)
      invariant Raised(checker.errors, rows, release, headless[..i], native)
    {
      ghost var errors := checker.errors;
      checker.CheckHeadless(headless[i], native);
      HeadlessRaised(rows, release, headless[..i], headless[i], native, errors, checker.errors);
      assert headless[..i + 1] == headless[..i] + [headless[i]];
      i := i + 1;
    }
    assert headless[..i] == headless;
  }
}
