/** Finite directed graphs given by adjacency lists, their walks and what is
    reachable along them. A node without an entry has no successors. */
module Graph {
  type Id = string

  type Graph = map<Id, seq<Id>>

  function Successors(g: Graph, u: Id): seq<Id> {
    if u in g then g[u] else []
  }

  /** Consecutive nodes of p are joined by edges. */
  ghost predicate IsWalk(g: Graph, p: seq<Id>) {
    && p != []
    && forall i :: 0 <= i < |p| - 1 ==> p[i + 1] in Successors(g, p[i])
  }

  ghost predicate WalkBetween(g: Graph, p: seq<Id>, u: Id, v: Id) {
    IsWalk(g, p) && p[0] == u && p[|p| - 1] == v
  }

  /** Some walk of one or more edges leads from u to v. */
  ghost predicate Reaches(g: Graph, u: Id, v: Id) {
    exists p :: WalkBetween(g, p, u, v) && 2 <= |p|
  }

  ghost predicate HasCycle(g: Graph) {
    exists u :: Reaches(g, u, u)
  }

  /** A walk that comes back to a node it has visited: the shape of every reported
      cycle. */
  ghost predicate ClosesCycle(g: Graph, p: seq<Id>) {
    IsWalk(g, p) && exists i :: 0 <= i < |p| - 1 && p[i] == p[|p| - 1]
  }

  lemma WalkExtends(g: Graph, p: seq<Id>, v: Id)
    requires IsWalk(g, p) && v in Successors(g, p[|p| - 1])
    ensures IsWalk(g, p + [v])
  {
    var q := p + [v];
    forall i | 0 <= i < |q| - 1 ensures q[i + 1] in Successors(g, q[i]) {
      if i < |p| - 1 { assert q[i] == p[i] && q[i + 1] == p[i + 1]; }
    }
  }

  lemma SubWalk(g: Graph, p: seq<Id>, i: nat, j: nat)
    requires IsWalk(g, p) && i <= j < |p|
    ensures WalkBetween(g, p[i..j + 1], p[i], p[j])
  {
    var q := p[i..j + 1];
    forall k | 0 <= k < |q| - 1 ensures q[k + 1] in Successors(g, q[k]) {
      assert p[i + k + 1] in Successors(g, p[i + k]);
    }
  }

  /** A closing walk shows a cycle. */
  lemma ClosedWalkIsCycle(g: Graph, p: seq<Id>)
    requires ClosesCycle(g, p)
    ensures HasCycle(g)
  {
    var i :| 0 <= i < |p| - 1 && p[i] == p[|p| - 1];
    SubWalk(g, p, i, |p| - 1);
    assert WalkBetween(g, p[i..|p|], p[i], p[i]);
    assert Reaches(g, p[i], p[i]);
  }

  lemma EdgeReaches(g: Graph, u: Id, v: Id)
    requires v in Successors(g, u)
    ensures Reaches(g, u, v)
  {
    assert WalkBetween(g, [u, v], u, v);
  }

  lemma EdgeThenReaches(g: Graph, u: Id, v: Id, w: Id)
    requires v in Successors(g, u) && Reaches(g, v, w)
    ensures Reaches(g, u, w)
  {
    var p :| WalkBetween(g, p, v, w) && 2 <= |p|;
    var q := [u] + p;
    forall i | 0 <= i < |q| - 1 ensures q[i + 1] in Successors(g, q[i]) {
      if 0 < i { assert q[i] == p[i - 1] && q[i + 1] == p[i]; }
    }
    assert WalkBetween(g, q, u, w);
  }

  /** A set that holds a node's successors and is closed under edges holds
      everything reachable from that node. */
  lemma {:induction false} ClosedSetHoldsWalk(g: Graph, s: set<Id>, p: seq<Id>, k: nat)
    requires IsWalk(g, p) && 0 < k < |p|
    requires forall v :: v in Successors(g, p[0]) ==> v in s
    requires forall u, v :: u in s && v in Successors(g, u) ==> v in s
    ensures p[k] in s
    decreases k
  {
    assert p[k - 1 + 1] in Successors(g, p[k - 1]);
    if 1 < k { ClosedSetHoldsWalk(g, s, p, k - 1); }
  }

  /** A closed set holding a walk's first node holds all of the walk. */
  lemma {:induction false} ClosedSetHoldsWalkFrom(g: Graph, s: set<Id>, p: seq<Id>, k: nat)
    requires IsWalk(g, p) && k < |p| && p[0] in s
    requires forall u, v :: u in s && v in Successors(g, u) ==> v in s
    ensures p[k] in s
    decreases k
  {
    if 0 < k {
      ClosedSetHoldsWalkFrom(g, s, p, k - 1);
      assert p[k - 1 + 1] in Successors(g, p[k - 1]);
    }
  }

  lemma ClosedSetHoldsReachable(g: Graph, s: set<Id>, u: Id, w: Id)
    requires forall v :: v in Successors(g, u) ==> v in s
    requires forall v, x :: v in s && x in Successors(g, v) ==> x in s
    requires Reaches(g, u, w)
    ensures w in s
  {
    var p :| WalkBetween(g, p, u, w) && 2 <= |p|;
    ClosedSetHoldsWalk(g, s, p, |p| - 1);
  }

  /** Every edge between nodes of the graph goes down in this ranking. */
  ghost predicate GoesDown(g: Graph, rank: map<Id, nat>) {
    forall u, v :: u in g && v in g && v in Successors(g, u) ==> u in rank && v in rank && rank[v] < rank[u]
  }

  /** With every edge going down in some ranking, a walk goes down too, so no walk
      comes back. */
  lemma {:induction false} RankedWalkDescends(g: Graph, rank: map<Id, nat>, p: seq<Id>, k: nat)
    requires GoesDown(g, rank)
    requires IsWalk(g, p) && 0 < k < |p| && p[k] in g && p[0] in g
    requires forall i :: 0 <= i <= k ==> p[i] in g
    ensures p[0] in rank && p[k] in rank && rank[p[k]] < rank[p[0]]
    decreases k
  {
    assert p[k - 1 + 1] in Successors(g, p[k - 1]);
    if 1 < k { RankedWalkDescends(g, rank, p, k - 1); }
  }

  lemma RankedIsAcyclic(g: Graph, rank: map<Id, nat>)
    requires GoesDown(g, rank)
    ensures !HasCycle(g)
  {
    if HasCycle(g) {
      var u :| Reaches(g, u, u);
      var p :| WalkBetween(g, p, u, u) && 2 <= |p|;
      forall i | 0 <= i <= |p| - 1 ensures p[i] in g {
        if i < |p| - 1 { assert p[i + 1] in Successors(g, p[i]); } else { assert p[1] in Successors(g, p[0]); }
      }
      RankedWalkDescends(g, rank, p, |p| - 1);
    }
  }
}
