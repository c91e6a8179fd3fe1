/**
  Dependency graphs: a finite map from each existing node to the nodes it depends on. A
  dependency may name a node that does not exist; such a node has no dependencies.
 */
module Graph {

  type Id = string
  type Graph = map<Id, seq<Id>>

  ghost predicate Edge(g: Graph, a: Id, b: Id) { a in g && b in g[a] }

  /** A non-empty sequence of nodes, each depending on the next. */
  ghost predicate Walk(g: Graph, w: seq<Id>) {
    w != [] && forall i :: 0 <= i < |w| - 1 ==> Edge(g, w[i], w[i + 1])
  }

  function Last<T>(w: seq<T>): T requires w != [] { w[|w| - 1] }

  ghost predicate WalkBetween(g: Graph, w: seq<Id>, a: Id, b: Id) { Walk(g, w) && w[0] == a && Last(w) == b }

  /** Some walk, possibly of one node, leads from a to b. */
  ghost predicate Reaches(g: Graph, a: Id, b: Id) { exists w :: WalkBetween(g, w, a, b) }

  ghost predicate ClosedWalk(g: Graph, c: seq<Id>) { |c| >= 2 && Walk(g, c) && c[0] == Last(c) }

  ghost predicate NoRepeats<T>(s: seq<T>) { forall i, j :: 0 <= i < j < |s| ==> s[i] != s[j] }

  /** A closed walk that visits no node twice, except that it ends where it starts. */
  ghost predicate SimpleCycle(g: Graph, c: seq<Id>) { ClosedWalk(g, c) && NoRepeats(c[..|c| - 1]) }

  ghost predicate Acyclic(g: Graph) { forall c :: !ClosedWalk(g, c) }

  ghost predicate CycleReachable(g: Graph, start: Id) {
    exists c :: ClosedWalk(g, c) && Reaches(g, start, c[0])
  }

  function SeqToSet<T>(s: seq<T>): set<T> { set x | x in s }

  /** Existing nodes and everything they depend on. */
  function Nodes(g: Graph): set<Id> { g.Keys + set a, i | a in g && 0 <= i < |g[a]| :: g[a][i] }

  lemma Join(g: Graph, u: seq<Id>, v: seq<Id>)
    requires Walk(g, u) && Walk(g, v) && Last(u) == v[0]
    ensures WalkBetween(g, u + v[1..], u[0], Last(v))
  {
    var w := u + v[1..];
    forall i | 0 <= i < |w| - 1 ensures Edge(g, w[i], w[i + 1]) {
      if i < |u| - 1 {
        assert Edge(g, u[i], u[i + 1]);
      } else {
        assert Edge(g, v[i - |u| + 1], v[i - |u| + 2]);
      }
    }
  }

  lemma ReachesTransitive(g: Graph, a: Id, b: Id, c: Id)
    requires Reaches(g, a, b) && Reaches(g, b, c)
    ensures Reaches(g, a, c)
  {
    var u :| WalkBetween(g, u, a, b);
    var v :| WalkBetween(g, v, b, c);
    Join(g, u, v);
  }

  lemma ReachesSelf(g: Graph, a: Id)
    ensures Reaches(g, a, a)
  {
    assert WalkBetween(g, [a], a, a);
  }

  lemma ReachesByEdge(g: Graph, a: Id, b: Id)
    requires Edge(g, a, b)
    ensures Reaches(g, a, b)
  {
    assert WalkBetween(g, [a, b], a, b);
  }

  lemma SubWalk(g: Graph, w: seq<Id>, i: nat, j: nat)
    requires Walk(g, w) && i <= j < |w|
    ensures WalkBetween(g, w[i..j + 1], w[i], w[j])
  {
    var u := w[i..j + 1];
    forall k | 0 <= k < |u| - 1 ensures Edge(g, u[k], u[k + 1]) { assert Edge(g, w[i + k], w[i + k + 1]); }
  }

  /** An edge that closes a way back makes a closed walk. */
  lemma EdgeAndWayBack(g: Graph, a: Id, b: Id)
    requires Edge(g, a, b) && Reaches(g, b, a)
    ensures exists c :: ClosedWalk(g, c) && c[0] == a
  {
    var w :| WalkBetween(g, w, b, a);
    Join(g, [a, b], w);
    var c := [a, b] + w[1..];
    assert ClosedWalk(g, c) && c[0] == a;
  }

  // ---- Ranks certify that there is no cycle ------------------------------------------------------

  /** Every dependency of a ranked node is ranked, and lower. */
  ghost predicate Ranked(g: Graph, rank: map<Id, nat>) {
    forall a, b :: a in rank && Edge(g, a, b) ==> b in rank && rank[b] < rank[a]
  }

  lemma {:induction false} RanksDescend(g: Graph, rank: map<Id, nat>, w: seq<Id>)
    requires Ranked(g, rank) && Walk(g, w) && w[0] in rank
    ensures Last(w) in rank && rank[Last(w)] + |w| - 1 <= rank[w[0]]
  {
    if |w| > 1 {
      var u := w[..|w| - 1];
      SubWalk(g, w, 0, |w| - 2);
      assert w[0..|w| - 2 + 1] == u;
      RanksDescend(g, rank, u);
      assert Edge(g, w[|w| - 2], w[|w| - 2 + 1]);
    }
  }

  /** From a ranked node no cycle can be reached. */
  lemma RankedNoCycle(g: Graph, rank: map<Id, nat>, start: Id)
    requires Ranked(g, rank) && start in rank
    ensures !CycleReachable(g, start)
  {
    forall c | ClosedWalk(g, c) ensures !Reaches(g, start, c[0]) {
      if Reaches(g, start, c[0]) {
        var w :| WalkBetween(g, w, start, c[0]);
        RanksDescend(g, rank, w);
        RanksDescend(g, rank, c);
      }
    }
  }
}
