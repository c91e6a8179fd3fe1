/**
  internal/cycle/cycle.go: three-colour depth-first search. `Dfs` is the search as a function
  of the colours; the methods of class `Search` are proved to compute it, and the lemmas say
  what it finds.
 */
module CycleSearch {
  import opened Graph

  datatype Option<+T> = None | Some(value: T)

  /** A node without a colour is white. */
  datatype Color = Gray | Black

  type Colors = map<Id, Color>

  /** The colours after a visit, and the cycle path if one was reported. */
  datatype Visit = Visit(colors: Colors, cycle: Option<seq<Id>>)

  /** The path from the first occurrence of `n` on; nothing if `n` is not on the path. */
  function PathFrom(path: seq<Id>, n: Id): seq<Id> {
    if path == [] then [] else if path[0] == n then path else PathFrom(path[1..], n)
  }

  /** Visiting `n` with the nodes of `path` on the stack; dependencies in `skip` are passed over
      (detectCycleDFS is the case of nothing to skip). */
  function Dfs(g: Graph, skip: set<Id>, n: Id, colors: Colors, path: seq<Id>): (v: Visit)
    requires n in Nodes(g)
    ensures colors.Keys <= v.colors.Keys
    decreases |Nodes(g) - colors.Keys|, 0, 0
  {
    if n in colors then
      Visit(colors, if colors[n].Gray? then Some(PathFrom(path, n) + [n]) else None)
    else if n !in g then
      Visit(colors[n := Black], None)
    else
      assert Nodes(g) - colors[n := Gray].Keys == Nodes(g) - colors.Keys - {n};
      var v := DfsAll(g, skip, g[n], colors[n := Gray], path + [n]);
      if v.cycle.Some? then v else Visit(v.colors[n := Black], None)
  }

  function DfsAll(g: Graph, skip: set<Id>, deps: seq<Id>, colors: Colors, path: seq<Id>): (v: Visit)
    requires forall d :: d in deps ==> d in Nodes(g)
    ensures colors.Keys <= v.colors.Keys
    decreases |Nodes(g) - colors.Keys|, 1, |deps|
  {
    if deps == [] then Visit(colors, None)
    else if deps[0] in skip then DfsAll(g, skip, deps[1..], colors, path)
    else
      var v := Dfs(g, skip, deps[0], colors, path);
      if v.cycle.Some? then v
      else
        assert Nodes(g) - v.colors.Keys <= Nodes(g) - colors.Keys;
        SubsetSize(Nodes(g) - v.colors.Keys, Nodes(g) - colors.Keys);
        DfsAll(g, skip, deps[1..], v.colors, path)
  }

  lemma {:induction false} SubsetSize(a: set<Id>, b: set<Id>)
    requires a <= b
    ensures |a| <= |b|
  {
    if a != {} {
      var x :| x in a;
      SubsetSize(a - {x}, b - {x});
    }
  }

  // ---- A visit that reports nothing ---------------------------------------------------------------

  /** Old colours stay, new ones are black. */
  ghost predicate OnlyBlackened(before: Colors, after: Colors) {
    && (forall x :: x in before ==> x in after && after[x] == before[x])
    && (forall x :: x in after && x !in before ==> after[x].Black?)
  }

  lemma NoneBlackened(colors: Colors, n: Id)
    ensures OnlyBlackened(colors, colors) && (n !in colors ==> OnlyBlackened(colors, colors[n := Black]))
  {
  }

  lemma BlackenedToo(colors: Colors, n: Id, after: Colors)
    requires n !in colors
    ensures OnlyBlackened(colors[n := Gray], after) ==> OnlyBlackened(colors, after[n := Black])
  {
  }

  lemma {:induction false} DfsBlackens(g: Graph, skip: set<Id>, n: Id, colors: Colors, path: seq<Id>)
    requires n in Nodes(g)
    ensures
      var v := Dfs(g, skip, n, colors, path);
      v.cycle.None? ==> OnlyBlackened(colors, v.colors) && n in v.colors && v.colors[n].Black?
    decreases |Nodes(g) - colors.Keys|, 0, 0
  {
    NoneBlackened(colors, n);
    hide OnlyBlackened;
    if n !in colors && n in g {
      assert Nodes(g) - colors[n := Gray].Keys == Nodes(g) - colors.Keys - {n};
      DfsAllBlackens(g, skip, g[n], colors[n := Gray], path + [n]);
      BlackenedToo(colors, n, DfsAll(g, skip, g[n], colors[n := Gray], path + [n]).colors);
    }
  }

  lemma {:induction false} DfsAllBlackens(g: Graph, skip: set<Id>, deps: seq<Id>, colors: Colors, path: seq<Id>)
    requires forall d :: d in deps ==> d in Nodes(g)
    ensures
      var v := DfsAll(g, skip, deps, colors, path);
      v.cycle.None? ==>
        OnlyBlackened(colors, v.colors) && forall d :: d in deps && d !in skip ==> d in v.colors && v.colors[d].Black?
    decreases |Nodes(g) - colors.Keys|, 1, |deps|
  {
    if deps != [] {
      if deps[0] in skip {
        DfsAllBlackens(g, skip, deps[1..], colors, path);
      } else {
        DfsBlackens(g, skip, deps[0], colors, path);
        var v := Dfs(g, skip, deps[0], colors, path);
        SubsetSize(Nodes(g) - v.colors.Keys, Nodes(g) - colors.Keys);
        DfsAllBlackens(g, skip, deps[1..], v.colors, path);
      }
    }
  }

  // ---- A visit that reports a cycle ------------------------------------------------------------------

  /** The path is the stack of the search: a walk from `start` without repeats, all gray, whose last
      node depends on `n`. */
  ghost predicate OnStack(g: Graph, colors: Colors, path: seq<Id>, start: Id, n: Id) {
    && NoRepeats(path) && (forall x :: x in path ==> x in colors && colors[x].Gray?)
    && (if path == [] then n == start else Walk(g, path) && path[0] == start && Edge(g, Last(path), n))
  }

  ghost predicate GrayOnlyOn(colors: Colors, path: seq<Id>) {
    forall x :: x in colors && colors[x].Gray? ==> x in path
  }

  ghost predicate Genuine(g: Graph, start: Id, c: seq<Id>) {
    SimpleCycle(g, c) && Reaches(g, start, c[0])
  }

  /** A reported path is a simple cycle reachable from the start, or the one-element path of a node that
      was left gray by an earlier search. */
  ghost predicate Reported(g: Graph, start: Id, colors: Colors, path: seq<Id>, c: seq<Id>) {
    && c != []
    && (|c| == 1 || Genuine(g, start, c))
    && (GrayOnlyOn(colors, path) ==> Genuine(g, start, c))
  }

  lemma {:induction false} PathFromIs(path: seq<Id>, n: Id) returns (k: nat)
    ensures n in path ==> k < |path| && path[k] == n && PathFrom(path, n) == path[k..]
    ensures n !in path ==> PathFrom(path, n) == []
  {
    k := 0;
    if path != [] && path[0] != n {
      k := PathFromIs(path[1..], n);
      k := k + 1;
    }
  }

  /** The stack from n on, closed by n. */
  lemma ClosedStack(g: Graph, path: seq<Id>, k: nat, n: Id)
    requires k < |path| && path[k] == n && Walk(g, path) && NoRepeats(path) && Edge(g, Last(path), n)
    ensures SimpleCycle(g, path[k..] + [n])
  {
    var c := path[k..] + [n];
    forall i | 0 <= i < |c| - 1 ensures Edge(g, c[i], c[i + 1]) {
      if i < |c| - 2 { assert Edge(g, path[k + i], path[k + i + 1]); }
    }
    assert c[..|c| - 1] == path[k..];
  }

  lemma BackEdgeIsCycle(g: Graph, colors: Colors, path: seq<Id>, start: Id, n: Id)
    requires OnStack(g, colors, path, start, n) && n in colors && colors[n].Gray?
    ensures Reported(g, start, colors, path, PathFrom(path, n) + [n])
  {
    hide PathFrom;
    hide SimpleCycle;
    hide Edge;
    hide Walk;
    var k := PathFromIs(path, n);
    if n in path {
      ClosedStack(g, path, k, n);
      SubWalk(g, path, 0, k);
    }
  }

  lemma StackGrows(g: Graph, colors: Colors, path: seq<Id>, start: Id, n: Id, d: Id)
    requires OnStack(g, colors, path, start, n) && n !in colors && Edge(g, n, d)
    ensures OnStack(g, colors[n := Gray], path + [n], start, d)
    ensures GrayOnlyOn(colors, path) ==> GrayOnlyOn(colors[n := Gray], path + [n])
  {
    var p := path + [n];
    forall i | 0 <= i < |p| - 1 ensures Edge(g, p[i], p[i + 1]) {
      if i < |path| - 1 { assert Edge(g, path[i], path[i + 1]); }
    }
  }

  lemma StackKept(g: Graph, colors: Colors, colors': Colors, path: seq<Id>, start: Id, d: Id)
    requires OnStack(g, colors, path, start, d) && OnlyBlackened(colors, colors')
    ensures OnStack(g, colors', path, start, d)
    ensures GrayOnlyOn(colors, path) ==> GrayOnlyOn(colors', path)
  {
  }

  lemma {:induction false} DfsReports(g: Graph, skip: set<Id>, n: Id, colors: Colors, path: seq<Id>, start: Id)
    requires n in Nodes(g) && OnStack(g, colors, path, start, n)
    ensures
      var v := Dfs(g, skip, n, colors, path);
      v.cycle.Some? ==> Reported(g, start, colors, path, v.cycle.value)
    decreases |Nodes(g) - colors.Keys|, 0, 0
  {
    if n in colors {
      if colors[n].Gray? { BackEdgeIsCycle(g, colors, path, start, n); }
    } else if n in g {
      assert Nodes(g) - colors[n := Gray].Keys == Nodes(g) - colors.Keys - {n};
      forall d | d in g[n]
        ensures OnStack(g, colors[n := Gray], path + [n], start, d)
        ensures GrayOnlyOn(colors, path) ==> GrayOnlyOn(colors[n := Gray], path + [n])
      {
        StackGrows(g, colors, path, start, n, d);
      }
      DfsAllReports(g, skip, g[n], colors[n := Gray], path + [n], start);
      if g[n] != [] { StackGrows(g, colors, path, start, n, g[n][0]); }
    }
  }

  lemma {:induction false} DfsAllReports(g: Graph, skip: set<Id>, deps: seq<Id>, colors: Colors, path: seq<Id>, start: Id)
    requires forall d :: d in deps ==> d in Nodes(g) && OnStack(g, colors, path, start, d)
    ensures
      var v := DfsAll(g, skip, deps, colors, path);
      v.cycle.Some? ==> Reported(g, start, colors, path, v.cycle.value)
    decreases |Nodes(g) - colors.Keys|, 1, |deps|
  {
    if deps != [] {
      if deps[0] in skip {
        DfsAllReports(g, skip, deps[1..], colors, path, start);
      } else {
        DfsReports(g, skip, deps[0], colors, path, start);
        var v := Dfs(g, skip, deps[0], colors, path);
        if v.cycle.None? {
          DfsBlackens(g, skip, deps[0], colors, path);
          SubsetSize(Nodes(g) - v.colors.Keys, Nodes(g) - colors.Keys);
          forall d | d in deps[1..] ensures OnStack(g, v.colors, path, start, d) { StackKept(g, colors, v.colors, path, start, d); }
          StackKept(g, colors, v.colors, path, start, deps[0]);
          DfsAllReports(g, skip, deps[1..], v.colors, path, start);
        }
      }
    }
  }

  // ---- Where a report leads ------------------------------------------------------------------------------

  ghost predicate IsGray(colors: Colors, x: Id) { x in colors && colors[x].Gray? }

  /** After a report at node c[0]: every node gray now was gray before, or leads to c[0]; and the report is that node alone exactly
      if the node was gray before and is not on the stack. */
  ghost predicate Leads(g: Graph, colors: Colors, path: seq<Id>, after: Colors, c: seq<Id>) {
    && c != []
    && (forall x :: IsGray(after, x) ==> IsGray(colors, x) || Reaches(g, x, c[0]))
    && (|c| == 1 <==> IsGray(colors, c[0]) && c[0] !in path)
  }

  lemma LeadsHere(g: Graph, n: Id, colors: Colors, path: seq<Id>)
    requires IsGray(colors, n)
    ensures Leads(g, colors, path, colors, PathFrom(path, n) + [n]) && Reaches(g, n, (PathFrom(path, n) + [n])[0])
  {
    hide Reaches;
    var k := PathFromIs(path, n);
    ReachesSelf(g, n);
  }

  lemma LeadsUp(g: Graph, n: Id, colors: Colors, path: seq<Id>, after: Colors, c: seq<Id>)
    requires n in g && n !in colors && Leads(g, colors[n := Gray], path + [n], after, c)
    requires exists d :: d in g[n] && Reaches(g, d, c[0])
    ensures Leads(g, colors, path, after, c) && Reaches(g, n, c[0])
  {
    hide Reaches;
    var d :| d in g[n] && Reaches(g, d, c[0]);
    ReachesByEdge(g, n, d);
    ReachesTransitive(g, n, d, c[0]);
    assert IsGray(colors[n := Gray], c[0]) <==> IsGray(colors, c[0]) || c[0] == n;
  }

  lemma {:induction false} DfsLeads(g: Graph, skip: set<Id>, n: Id, colors: Colors, path: seq<Id>)
    requires n in Nodes(g) && forall x :: x in path ==> IsGray(colors, x)
    ensures
      var v := Dfs(g, skip, n, colors, path);
      v.cycle.Some? ==> Leads(g, colors, path, v.colors, v.cycle.value) && Reaches(g, n, v.cycle.value[0])
    decreases |Nodes(g) - colors.Keys|, 0, 0
  {
    hide Reaches;
    hide Leads;
    if n in colors {
      if colors[n].Gray? { LeadsHere(g, n, colors, path); }
    } else if n in g {
      assert Nodes(g) - colors[n := Gray].Keys == Nodes(g) - colors.Keys - {n};
      DfsAllLeads(g, skip, g[n], colors[n := Gray], path + [n]);
      var v := DfsAll(g, skip, g[n], colors[n := Gray], path + [n]);
      if v.cycle.Some? { LeadsUp(g, n, colors, path, v.colors, v.cycle.value); }
    }
  }

  lemma {:induction false} DfsAllLeads(g: Graph, skip: set<Id>, deps: seq<Id>, colors: Colors, path: seq<Id>)
    requires (forall d :: d in deps ==> d in Nodes(g)) && forall x :: x in path ==> IsGray(colors, x)
    ensures
      var v := DfsAll(g, skip, deps, colors, path);
      v.cycle.Some? ==>
        Leads(g, colors, path, v.colors, v.cycle.value) && exists d :: d in deps && Reaches(g, d, v.cycle.value[0])
    decreases |Nodes(g) - colors.Keys|, 1, |deps|
  {
    if deps != [] {
      if deps[0] in skip {
        DfsAllLeads(g, skip, deps[1..], colors, path);
      } else {
        DfsLeads(g, skip, deps[0], colors, path);
        var v := Dfs(g, skip, deps[0], colors, path);
        if v.cycle.None? {
          DfsBlackens(g, skip, deps[0], colors, path);
          SubsetSize(Nodes(g) - v.colors.Keys, Nodes(g) - colors.Keys);
          assert forall x :: IsGray(v.colors, x) <==> IsGray(colors, x);
          DfsAllLeads(g, skip, deps[1..], v.colors, path);
        }
      }
    }
  }

  // ---- Black nodes are ranked ---------------------------------------------------------------------------

  /** Every dependency of a ranked node is ranked, and lower, or one that is passed over. */
  ghost predicate RankedBut(g: Graph, rank: map<Id, nat>, skip: set<Id>) {
    forall a, b :: a in rank && Edge(g, a, b) ==> b in skip || (b in rank && rank[b] < rank[a])
  }

  ghost predicate RankedBlack(g: Graph, colors: Colors, rank: map<Id, nat>, top: nat, skip: set<Id>) {
    && RankedBut(g, rank, skip)
    && (forall x :: x in rank <==> x in colors && colors[x].Black?)
    && (forall x :: x in rank ==> rank[x] < top)
  }

  /** A node all of whose dependencies are black or passed over takes the top rank. */
  lemma RankNext(g: Graph, colors: Colors, rank: map<Id, nat>, top: nat, skip: set<Id>, n: Id)
    requires RankedBlack(g, colors, rank, top, skip) && !(n in colors && colors[n].Black?)
    requires forall d :: Edge(g, n, d) && d !in skip ==> d in colors && colors[d].Black?
    ensures RankedBlack(g, colors[n := Black], rank[n := top], top + 1, skip)
  {
  }

  lemma {:induction false} DfsRanks(g: Graph, skip: set<Id>, n: Id, colors: Colors, path: seq<Id>, rank: map<Id, nat>, top: nat)
    returns (rank': map<Id, nat>, top': nat)
    requires n in Nodes(g) && RankedBlack(g, colors, rank, top, skip)
    ensures RankedBlack(g, Dfs(g, skip, n, colors, path).colors, rank', top', skip)
    decreases |Nodes(g) - colors.Keys|, 0, 0
  {
    rank', top' := rank, top;
    if n !in colors {
      if n !in g {
        RankNext(g, colors, rank, top, skip, n);
        rank', top' := rank[n := top], top + 1;
      } else {
        assert Nodes(g) - colors[n := Gray].Keys == Nodes(g) - colors.Keys - {n};
        rank', top' := DfsAllRanks(g, skip, g[n], colors[n := Gray], path + [n], rank, top);
        var v := DfsAll(g, skip, g[n], colors[n := Gray], path + [n]);
        if v.cycle.None? {
          DfsAllBlackens(g, skip, g[n], colors[n := Gray], path + [n]);
          hide RankedBlack;
          RankNext(g, v.colors, rank', top', skip, n);
          rank', top' := rank'[n := top'], top' + 1;
        }
      }
    }
  }

  lemma {:induction false} DfsAllRanks(g: Graph, skip: set<Id>, deps: seq<Id>, colors: Colors, path: seq<Id>, rank: map<Id, nat>,
                                       top: nat)
    returns (rank': map<Id, nat>, top': nat)
    requires (forall d :: d in deps ==> d in Nodes(g)) && RankedBlack(g, colors, rank, top, skip)
    ensures RankedBlack(g, DfsAll(g, skip, deps, colors, path).colors, rank', top', skip)
    decreases |Nodes(g) - colors.Keys|, 1, |deps|
  {
    hide RankedBlack;
    rank', top' := rank, top;
    if deps != [] {
      if deps[0] in skip {
        rank', top' := DfsAllRanks(g, skip, deps[1..], colors, path, rank, top);
      } else {
        var v := Dfs(g, skip, deps[0], colors, path);
        rank', top' := DfsRanks(g, skip, deps[0], colors, path, rank, top);
        if v.cycle.None? {
          SubsetSize(Nodes(g) - v.colors.Keys, Nodes(g) - colors.Keys);
          rank', top' := DfsAllRanks(g, skip, deps[1..], v.colors, path, rank', top');
        }
      }
    }
  }

  /** A walk from a ranked node goes down the ranks, unless a node that is passed over can be reached. */
  lemma {:induction false} RanksDescendBut(g: Graph, rank: map<Id, nat>, skip: set<Id>, x: Id, w: seq<Id>)
    requires RankedBut(g, rank, skip) && Walk(g, w) && w[0] in rank && Reaches(g, x, w[0])
    requires forall y :: y in skip ==> !Reaches(g, x, y)
    ensures Last(w) in rank && rank[Last(w)] + |w| - 1 <= rank[w[0]]
  {
    if |w| > 1 {
      var u := w[..|w| - 1];
      SubWalk(g, w, 0, |w| - 2);
      assert w[0..|w| - 2 + 1] == u;
      RanksDescendBut(g, rank, skip, x, u);
      assert Edge(g, w[|w| - 2], w[|w| - 2 + 1]);
      assert WalkBetween(g, w, w[0], Last(w));
      ReachesTransitive(g, x, w[0], Last(w));
    }
  }

  /** If a cycle can be reached from a ranked node, so can a node that is passed over. */
  lemma RankedReaches(g: Graph, rank: map<Id, nat>, skip: set<Id>, x: Id)
    requires RankedBut(g, rank, skip) && x in rank && CycleReachable(g, x)
    ensures exists y :: y in skip && Reaches(g, x, y)
  {
    if forall y :: y in skip ==> !Reaches(g, x, y) {
      var c :| ClosedWalk(g, c) && Reaches(g, x, c[0]);
      var w :| WalkBetween(g, w, x, c[0]);
      ReachesSelf(g, x);
      RanksDescendBut(g, rank, skip, x, w);
      RanksDescendBut(g, rank, skip, x, c);
    }
  }

  // ---- Exactly when a search reports ---------------------------------------------------------------------------

  ghost predicate Clear(skip: set<Id>, w: seq<Id>) { forall i :: 0 <= i < |w| ==> w[i] !in skip }

  /** Some walk leads from a to b past none of the nodes to be passed over. */
  ghost predicate ReachesClear(g: Graph, skip: set<Id>, a: Id, b: Id) { exists w :: WalkBetween(g, w, a, b) && Clear(skip, w) }

  lemma ClearSelf(g: Graph, skip: set<Id>, a: Id)
    requires a !in skip
    ensures ReachesClear(g, skip, a, a)
  {
    assert WalkBetween(g, [a], a, a) && Clear(skip, [a]);
  }

  lemma ClearByEdge(g: Graph, skip: set<Id>, a: Id, b: Id, c: Id)
    requires Edge(g, a, b) && a !in skip && ReachesClear(g, skip, b, c)
    ensures ReachesClear(g, skip, a, c)
  {
    var w :| WalkBetween(g, w, b, c) && Clear(skip, w);
    Join(g, [a, b], w);
    assert [a, b] + w[1..] == [a] + w;
    assert Clear(skip, [a] + w);
  }

  lemma ClearHere(g: Graph, skip: set<Id>, n: Id, path: seq<Id>)
    requires n !in skip && Clear(skip, path)
    ensures Clear(skip, path + [n]) && Clear(skip, PathFrom(path, n) + [n])
    ensures ReachesClear(g, skip, n, (PathFrom(path, n) + [n])[0])
  {
    var k := PathFromIs(path, n);
    ClearSelf(g, skip, n);
  }

  /** What is reported leads past none of the nodes passed over. */
  lemma {:induction false} DfsClear(g: Graph, skip: set<Id>, n: Id, colors: Colors, path: seq<Id>)
    requires n in Nodes(g) && n !in skip && Clear(skip, path)
    ensures
      var v := Dfs(g, skip, n, colors, path);
      v.cycle.Some? ==> v.cycle.value != [] && Clear(skip, v.cycle.value) && ReachesClear(g, skip, n, v.cycle.value[0])
    decreases |Nodes(g) - colors.Keys|, 0, 0
  {
    hide ReachesClear;
    ClearHere(g, skip, n, path);
    hide Clear;
    if n !in colors && n in g {
      assert Nodes(g) - colors[n := Gray].Keys == Nodes(g) - colors.Keys - {n};
      DfsAllClear(g, skip, g[n], colors[n := Gray], path + [n]);
      var v := DfsAll(g, skip, g[n], colors[n := Gray], path + [n]);
      if v.cycle.Some? {
        var d :| d in g[n] && ReachesClear(g, skip, d, v.cycle.value[0]);
        ClearByEdge(g, skip, n, d, v.cycle.value[0]);
      }
    }
  }

  lemma {:induction false} DfsAllClear(g: Graph, skip: set<Id>, deps: seq<Id>, colors: Colors, path: seq<Id>)
    requires (forall d :: d in deps ==> d in Nodes(g)) && Clear(skip, path)
    ensures
      var v := DfsAll(g, skip, deps, colors, path);
      v.cycle.Some? ==>
        v.cycle.value != [] && Clear(skip, v.cycle.value) && exists d :: d in deps && ReachesClear(g, skip, d, v.cycle.value[0])
    decreases |Nodes(g) - colors.Keys|, 1, |deps|
  {
    hide ReachesClear;
    hide Clear;
    if deps != [] {
      if deps[0] in skip {
        DfsAllClear(g, skip, deps[1..], colors, path);
      } else {
        DfsClear(g, skip, deps[0], colors, path);
        var v := Dfs(g, skip, deps[0], colors, path);
        if v.cycle.None? {
          SubsetSize(Nodes(g) - v.colors.Keys, Nodes(g) - colors.Keys);
          DfsAllClear(g, skip, deps[1..], v.colors, path);
        }
      }
    }
  }

  lemma {:induction false} ClearDescends(g: Graph, rank: map<Id, nat>, skip: set<Id>, w: seq<Id>)
    requires RankedBut(g, rank, skip) && Walk(g, w) && Clear(skip, w) && w[0] in rank
    ensures Last(w) in rank && rank[Last(w)] + |w| - 1 <= rank[w[0]]
  {
    if |w| > 1 {
      var u := w[..|w| - 1];
      SubWalk(g, w, 0, |w| - 2);
      assert w[0..|w| - 2 + 1] == u;
      ClearDescends(g, rank, skip, u);
      assert Edge(g, w[|w| - 2], w[|w| - 2 + 1]);
    }
  }

  /** A node left gray, or on a cycle that has no node to be passed over. */
  ghost predicate Suspect(g: Graph, skip: set<Id>, colors: Colors, x: Id) {
    IsGray(colors, x) || exists c :: ClosedWalk(g, c) && c[0] == x && Clear(skip, c)
  }

  /** A search reports exactly if such a node can be reached past none of the nodes to be passed over. */
  lemma StartReportsExactly(g: Graph, skip: set<Id>, n: Id, colors: Colors, rank: map<Id, nat>, top: nat)
    requires n in Nodes(g) && n !in skip && RankedBlack(g, colors, rank, top, skip)
    ensures Dfs(g, skip, n, colors, []).cycle.Some? <==>
      exists x :: ReachesClear(g, skip, n, x) && Suspect(g, skip, colors, x)
  {
    var v := Dfs(g, skip, n, colors, []);
    if v.cycle.Some? {
      var c := v.cycle.value;
      DfsClear(g, skip, n, colors, []);
      DfsLeads(g, skip, n, colors, []);
      DfsReports(g, skip, n, colors, [], n);
      assert Suspect(g, skip, colors, c[0]);
    } else {
      DfsBlackens(g, skip, n, colors, []);
      var rank', top' := DfsRanks(g, skip, n, colors, [], rank, top);
      forall x | ReachesClear(g, skip, n, x) ensures !Suspect(g, skip, colors, x) {
        var w :| WalkBetween(g, w, n, x) && Clear(skip, w);
        ClearDescends(g, rank', skip, w);
        forall c | ClosedWalk(g, c) && c[0] == x ensures !Clear(skip, c) {
          if Clear(skip, c) { ClearDescends(g, rank', skip, c); }
        }
      }
    }
  }

  // ---- DetectCycleFrom ---------------------------------------------------------------------------------------

  /** What DetectCycleFrom returns: the cycle path, or none. */
  function DetectFrom(g: Graph, start: Id): Option<seq<Id>> {
    if start !in g then None else Dfs(g, {}, start, map[], []).cycle
  }

  /** A cycle is reported exactly when one is reachable from the start, and the path is such a cycle. */
  lemma DetectFromExact(g: Graph, start: Id)
    ensures DetectFrom(g, start).Some? <==> CycleReachable(g, start)
    ensures DetectFrom(g, start).Some? ==> Genuine(g, start, DetectFrom(g, start).value)
  {
    if start !in g {
      RankedNoCycle(g, map[start := 0], start);
    } else {
      DfsReports(g, {}, start, map[], [], start);
      if DetectFrom(g, start).None? {
        var rank, top := DfsRanks(g, {}, start, map[], [], map[], 0);
        DfsBlackens(g, {}, start, map[], []);
        RankedNoCycle(g, rank, start);
      }
    }
  }
}
