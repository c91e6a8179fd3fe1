/**
  internal/node/blocking.go: the nodes held up by definitions that are still pending.
 */
module Blocking {
  import opened Graph
  import opened CycleSearch

  datatype PendingDef = PendingDef(requestedBy: Id, isPending: bool)

  /** Some definition requested by x is still pending; None is a nil entry. */
  ghost predicate Requests(defs: seq<Option<PendingDef>>, x: Id) {
    exists i :: 0 <= i < |defs| && defs[i].Some? && defs[i].value.isPending && defs[i].value.requestedBy == x
  }

  /** A dependency path, possibly of length zero, leads from x to such a requester. */
  ghost predicate Blocked(defs: seq<Option<PendingDef>>, dependencies: Graph, x: Id) {
    exists r :: Requests(defs, r) && Reaches(dependencies, x, r)
  }

  lemma BlockedMeans(defs: seq<Option<PendingDef>>, dependencies: Graph, x: Id)
    ensures Blocked(defs, dependencies, x) <==>
      exists i :: 0 <= i < |defs| && defs[i].Some? && defs[i].value.isPending && Reaches(dependencies, x, defs[i].value.requestedBy)
  {
  }

  /** A node that depends on a member is a member. */
  ghost predicate Closed(dependencies: Graph, s: set<Id>) {
    forall a, b :: Edge(dependencies, a, b) && b in s ==> a in s
  }

  lemma {:induction false} WalkIntoClosed(dependencies: Graph, s: set<Id>, w: seq<Id>)
    requires Closed(dependencies, s) && Walk(dependencies, w) && Last(w) in s
    ensures w[0] in s
    decreases |w|
  {
    if |w| > 1 {
      assert Edge(dependencies, w[0], w[0 + 1]);
      SubWalk(dependencies, w, 1, |w| - 1);
      assert w[1..|w| - 1 + 1] == w[1..];
      WalkIntoClosed(dependencies, s, w[1..]);
    }
  }

  lemma BlockedSpreads(defs: seq<Option<PendingDef>>, dependencies: Graph, a: Id, b: Id)
    requires Edge(dependencies, a, b) && Blocked(defs, dependencies, b)
    ensures Blocked(defs, dependencies, a)
  {
    var r :| Requests(defs, r) && Reaches(dependencies, b, r);
    ReachesByEdge(dependencies, a, b);
    ReachesTransitive(dependencies, a, b, r);
  }

  /** The blocked nodes form the least closed set that contains the requesters. */
  lemma LeastClosedSet(defs: seq<Option<PendingDef>>, dependencies: Graph, s: set<Id>)
    requires forall x :: Requests(defs, x) ==> x in s
    requires Closed(dependencies, s)
    ensures forall x :: Blocked(defs, dependencies, x) ==> x in s
  {
    forall x | Blocked(defs, dependencies, x) ensures x in s {
      var r :| Requests(defs, r) && Reaches(dependencies, x, r);
      var w :| WalkBetween(dependencies, w, x, r);
      WalkIntoClosed(dependencies, s, w);
    }
  }

  /** First pass: the requesters themselves. */
  method DirectlyBlocked(defs: seq<Option<PendingDef>>) returns (blocked: set<Id>)
    ensures forall x :: x in blocked <==> Requests(defs, x)
  {
    blocked := {};
    for i := 0 to |defs|
      invariant forall x :: x in blocked <==>
        exists k :: 0 <= k < i && defs[k].Some? && defs[k].value.isPending && defs[k].value.requestedBy == x
    {
      if defs[i].None? || !defs[i].value.isPending { continue; }
      blocked := blocked + {defs[i].value.requestedBy};
    }
  }

  ghost predicate Listed(dependents: map<Id, seq<Id>>, b: Id, a: Id) { b in dependents && a in dependents[b] }

  /** dependents[dep] = append(dependents[dep], node) */
  function AddDependent(dependents: map<Id, seq<Id>>, dep: Id, node: Id): map<Id, seq<Id>> {
    dependents[dep := (if dep in dependents then dependents[dep] else []) + [node]]
  }

  lemma AddDependentLists(dependents: map<Id, seq<Id>>, dep: Id, node: Id)
    ensures forall a, b :: Listed(AddDependent(dependents, dep, node), b, a) <==>
      Listed(dependents, b, a) || (b == dep && a == node)
  {
  }

  lemma NothingListed(dependents: map<Id, seq<Id>>)
    ensures dependents == map[] ==> forall a, b :: !Listed(dependents, b, a)
  {
  }

  /** The dependencies turned round, whatever the order in which the map is read. */
  method BuildDependents(dependencies: Graph) returns (dependents: map<Id, seq<Id>>)
    ensures forall a, b :: Edge(dependencies, a, b) <==> Listed(dependents, b, a)
  {
    hide Listed;
    hide AddDependent;
    dependents := map[];
    var rest := dependencies.Keys;
    NothingListed(dependents);
    while rest != {}
      invariant rest <= dependencies.Keys
      invariant forall a, b :: (Edge(dependencies, a, b) && a !in rest) <==> Listed(dependents, b, a)
      decreases |rest|
    {
      var node :| node in rest;
      rest := rest - {node};
      var deps := dependencies[node];
      for i := 0 to |deps|
        invariant forall a, b :: Listed(dependents, b, a) <==>
          (Edge(dependencies, a, b) && a !in rest && a != node) || (a == node && b in deps[..i])
      {
        assert deps[..i + 1] == deps[..i] + [deps[i]];
        AddDependentLists(dependents, deps[i], node);
        dependents := AddDependent(dependents, deps[i], node);
      }
      assert deps[..|deps|] == deps;
    }
  }

  /** The nodes of a set in some order. */
  method ListNodes(nodes: set<Id>) returns (list: seq<Id>)
    ensures forall x :: x in list <==> x in nodes
  {
    list := [];
    var rest := nodes;
    while rest != {}
      invariant rest <= nodes
      invariant forall x :: x in nodes <==> x in rest || x in list
      decreases |rest|
    {
      var n :| n in rest;
      rest, list := rest - {n}, list + [n];
    }
  }

  /** What holds between two turns of the breadth-first search. */
  ghost predicate Frontier(defs: seq<Option<PendingDef>>, dependencies: Graph, bound: set<Id>,
                           blocked: set<Id>, queue: seq<Id>) {
    && blocked <= bound && dependencies.Keys <= bound
    && (forall x :: x in queue ==> x in blocked)
    && (forall x :: x in blocked ==> Blocked(defs, dependencies, x))
    && (forall a, b :: Edge(dependencies, a, b) && b in blocked && b !in queue ==> a in blocked)
  }

  lemma FrontierStarts(defs: seq<Option<PendingDef>>, dependencies: Graph, bound: set<Id>,
                       blocked: set<Id>, queue: seq<Id>)
    requires forall x :: x in blocked <==> Requests(defs, x)
    requires forall x :: x in queue <==> x in blocked
    requires bound == blocked + dependencies.Keys
    ensures Frontier(defs, dependencies, bound, blocked, queue)
  {
    forall x | x in blocked ensures Blocked(defs, dependencies, x) { ReachesSelf(dependencies, x); }
  }

  lemma FrontierDone(defs: seq<Option<PendingDef>>, dependencies: Graph, bound: set<Id>, blocked: set<Id>)
    requires Frontier(defs, dependencies, bound, blocked, [])
    requires forall x :: Requests(defs, x) ==> x in blocked
    ensures forall x :: x in blocked <==> Blocked(defs, dependencies, x)
  {
    LeastClosedSet(defs, dependencies, blocked);
  }

  method ComputeBlockedSet(defs: seq<Option<PendingDef>>, dependencies: Graph) returns (blocked: set<Id>)
    ensures forall x :: x in blocked <==> Blocked(defs, dependencies, x)
    ensures forall x :: x in blocked <==>
      exists i :: 0 <= i < |defs| && defs[i].Some? && defs[i].value.isPending && Reaches(dependencies, x, defs[i].value.requestedBy)
  {
    forall x { BlockedMeans(defs, dependencies, x); }
    blocked := DirectlyBlocked(defs);
    if blocked == {} { return; }
    hide Requests;
    hide Blocked;
    hide Frontier;
    ghost var start, bound := blocked, blocked + dependencies.Keys;
    var dependents := BuildDependents(dependencies);
    var queue := ListNodes(blocked);
    FrontierStarts(defs, dependencies, bound, blocked, queue);
    while queue != []
      invariant start <= blocked && Frontier(defs, dependencies, bound, blocked, queue)
      decreases |bound - blocked|, |queue|
    {
      blocked, queue := Expand(defs, dependencies, dependents, bound, blocked, queue);
    }
    FrontierDone(defs, dependencies, bound, blocked);
  }

  /** One turn of the breadth-first search. */
  method Expand(ghost defs: seq<Option<PendingDef>>, ghost dependencies: Graph, dependents: map<Id, seq<Id>>,
                ghost bound: set<Id>, was: set<Id>, waiting: seq<Id>)
      returns (blocked: set<Id>, queue: seq<Id>)
    requires forall a, b :: Edge(dependencies, a, b) <==> Listed(dependents, b, a)
    requires waiting != [] && Frontier(defs, dependencies, bound, was, waiting)
    ensures was <= blocked && Frontier(defs, dependencies, bound, blocked, queue)
    ensures |bound - blocked| < |bound - was| || (blocked == was && |queue| < |waiting|)
  {
    hide Blocked;
    var current := waiting[0];
    blocked, queue := was, waiting[1..];
    var deps := if current in dependents then dependents[current] else [];
    for i := 0 to |deps|
      invariant was <= blocked <= bound
      invariant forall x :: x in queue ==> x in blocked
      invariant forall x :: x in blocked ==> Blocked(defs, dependencies, x)
      invariant forall k :: 0 <= k < i ==> deps[k] in blocked
      invariant forall b :: b in blocked && b !in queue ==> b == current || (b in was && b !in waiting)
      invariant blocked == was ==> queue == waiting[1..]
    {
      var dependent := deps[i];
      assert Listed(dependents, current, dependent);
      BlockedSpreads(defs, dependencies, dependent, current);
      if dependent !in blocked {
        blocked, queue := blocked + {dependent}, queue + [dependent];
      }
    }
    if blocked != was { ProperSubsetSize(bound - blocked, bound - was); }
  }

  lemma ProperSubsetSize(a: set<Id>, b: set<Id>)
    requires a < b
    ensures |a| < |b|
  {
    var x :| x in b && x !in a;
    SubsetSize(a, b - {x});
  }
}
