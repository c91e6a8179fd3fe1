/**
  The entry points of internal/cycle/cycle.go and internal/node/cycle.go over the search.
 */
module CycleDetection {
  import opened Graph
  import opened CycleSearch

  // ---- The searches as methods ---------------------------------------------------------------------

  lemma PathFromStep(path: seq<Id>, n: Id, i: nat)
    requires i <= |path|
    ensures i < |path| && path[i] == n ==> PathFrom(path[i..], n) == [n] + path[i + 1..]
    ensures i < |path| && path[i] != n ==> PathFrom(path[i..], n) == PathFrom(path[i + 1..], n)
    ensures i == |path| ==> PathFrom(path[i..], n) == []
  {
    if i < |path| { assert path[i..][1..] == path[i + 1..] && path[i..] == [path[i]] + path[i + 1..]; }
  }

  /** The back-edge branch: collect the path from the first occurrence of `n`, then close it. */
  method CloseCycle(path: seq<Id>, n: Id) returns (cyclePath: seq<Id>)
    ensures cyclePath == PathFrom(path, n) + [n]
  {
    hide PathFrom;
    cyclePath := [];
    var inCycle := false;
    assert path[0..] == path;
    for i := 0 to |path|
      invariant !inCycle ==> cyclePath == [] && PathFrom(path, n) == PathFrom(path[i..], n)
      invariant inCycle ==> PathFrom(path, n) == cyclePath + path[i..]
    {
      PathFromStep(path, n, i);
      if path[i] == n { inCycle := true; }
      if inCycle { cyclePath := cyclePath + [path[i]]; }
    }
    PathFromStep(path, n, |path|);
    cyclePath := cyclePath + [n];
  }

  class Search {
    const g: Graph
    var colors: Colors

    constructor (g: Graph)
      ensures this.g == g && colors == map[]
    {
      this.g := g;
      colors := map[];
    }

    /** detectCycleDFSForAll, and with nothing to skip detectCycleDFS. */
    method DetectCycleDFS(n: Id, path: seq<Id>, skip: set<Id>) returns (hasCycle: bool, cyclePath: seq<Id>)
      requires n in Nodes(g)
      modifies this
      ensures
        var v := Dfs(g, skip, n, old(colors), path);
        && colors == v.colors && hasCycle == v.cycle.Some?
        && cyclePath == if v.cycle.Some? then v.cycle.value else []
      decreases |Nodes(g) - colors.Keys|
    {
      if n in colors {
        if colors[n].Gray? {
          cyclePath := CloseCycle(path, n);
          return true, cyclePath;
        }
        return false, [];
      }
      assert Nodes(g) - colors[n := Gray].Keys == Nodes(g) - colors.Keys - {n};
      colors := colors[n := Gray];
      if n !in g {
        colors := colors[n := Black];
        return false, [];
      }
      ghost var gray := colors;
      var newPath, deps := path + [n], g[n];
      for i := 0 to |deps|
        invariant gray.Keys <= colors.Keys
        invariant DfsAll(g, skip, deps, gray, newPath) == DfsAll(g, skip, deps[i..], colors, newPath)
      {
        SubsetSize(Nodes(g) - colors.Keys, Nodes(g) - gray.Keys);
        assert deps[i..][1..] == deps[i + 1..];
        if deps[i] !in skip {
          hasCycle, cyclePath := DetectCycleDFS(deps[i], newPath, skip);
          if hasCycle { return; }
        }
      }
      colors := colors[n := Black];
      return false, [];
    }

    /** detectCycleDFS of internal/node/cycle.go: the same search, but the path it reports names the entry
        node once more in front. */
    method NodeDetectCycleDFS(n: Id, path: seq<Id>) returns (hasCycle: bool, cyclePath: seq<Id>)
      requires n in Nodes(g)
      modifies this
      ensures
        var v := Dfs(g, {}, n, old(colors), path);
        && colors == v.colors && hasCycle == v.cycle.Some?
        && cyclePath == if v.cycle.Some? then EntryTwice(v.cycle.value) else []
      decreases |Nodes(g) - colors.Keys|
    {
      hide EntryTwice;
      hide PathFrom;
      if n in colors {
        if colors[n].Gray? {
          var closed := CloseCycle(path, n);
          ClosedTwice(PathFrom(path, n), n);
          return true, [n] + closed;
        }
        return false, [];
      }
      assert Nodes(g) - colors[n := Gray].Keys == Nodes(g) - colors.Keys - {n};
      colors := colors[n := Gray];
      if n !in g {
        colors := colors[n := Black];
        return false, [];
      }
      ghost var gray := colors;
      var newPath, deps := path + [n], g[n];
      for i := 0 to |deps|
        invariant gray.Keys <= colors.Keys
        invariant DfsAll(g, {}, deps, gray, newPath) == DfsAll(g, {}, deps[i..], colors, newPath)
      {
        SubsetSize(Nodes(g) - colors.Keys, Nodes(g) - gray.Keys);
        assert deps[i..][1..] == deps[i + 1..];
        hasCycle, cyclePath := NodeDetectCycleDFS(deps[i], newPath);
        if hasCycle { return; }
      }
      colors := colors[n := Black];
      return false, [];
    }
  }

  function EntryTwice(c: seq<Id>): seq<Id> { if c == [] then [] else [Last(c)] + c }

  lemma ClosedTwice(c: seq<Id>, n: Id)
    ensures EntryTwice(c + [n]) == [n] + (c + [n])
  {
  }

  method DetectCycleFrom(g: Graph, start: Id) returns (hasCycle: bool, path: seq<Id>)
    ensures hasCycle <==> CycleReachable(g, start)
    ensures hasCycle ==> Genuine(g, start, path)
    ensures DetectFrom(g, start) == if hasCycle then Some(path) else None
  {
    DetectFromExact(g, start);
    if start !in g { return false, []; }
    var search := new Search(g);
    hasCycle, path := search.DetectCycleDFS(start, [], {});
  }

  /** internal/node/cycle.go: the same verdict and the same path, with the entry node twice in front. */
  method DetectCycle(g: Graph, start: Id) returns (hasCycle: bool, path: seq<Id>)
    ensures hasCycle <==> CycleReachable(g, start)
    ensures DetectFrom(g, start).Some? == hasCycle
    ensures hasCycle ==>
      && var c := DetectFrom(g, start).value;
         Genuine(g, start, c) && path == [c[0]] + c
  {
    DetectFromExact(g, start);
    if start !in g { return false, []; }
    var search := new Search(g);
    hasCycle, path := search.NodeDetectCycleDFS(start, []);
  }

  // ---- DetectAllCycles ------------------------------------------------------------------------------------

  /** The paths reported when the nodes `ids` are started in order. */
  function AllCycles(g: Graph, ids: seq<Id>, colors: Colors, found: set<Id>): seq<seq<Id>>
    requires forall id :: id in ids ==> id in Nodes(g)
  {
    if ids == [] then []
    else if (ids[0] in colors && colors[ids[0]].Black?) || ids[0] in found then AllCycles(g, ids[1..], colors, found)
    else
      var v := Dfs(g, found, ids[0], colors, []);
      if v.cycle.Some? then [v.cycle.value] + AllCycles(g, ids[1..], v.colors, found + SeqToSet(v.cycle.value))
      else AllCycles(g, ids[1..], v.colors, found)
  }

  /** Until a first cycle is found nothing is gray between two starts. */
  lemma {:induction false} AllCyclesClean(g: Graph, ids: seq<Id>, colors: Colors, rank: map<Id, nat>, top: nat)
    requires (forall id :: id in ids ==> id in Nodes(g)) && RankedBlack(g, colors, rank, top, {})
    requires GrayOnlyOn(colors, [])
    ensures
      var r := AllCycles(g, ids, colors, {});
      && (r != [] ==> SimpleCycle(g, r[0]))
      && (r == [] ==> forall id :: id in ids || id in rank ==> !CycleReachable(g, id))
    decreases |ids|
  {
    if ids == [] {
      forall id | id in rank ensures !CycleReachable(g, id) { RankedNoCycle(g, rank, id); }
    } else if ids[0] in colors && colors[ids[0]].Black? {
      AllCyclesClean(g, ids[1..], colors, rank, top);
    } else {
      var v := Dfs(g, {}, ids[0], colors, []);
      DfsReports(g, {}, ids[0], colors, [], ids[0]);
      if v.cycle.None? {
        DfsBlackens(g, {}, ids[0], colors, []);
        var rank', top' := DfsRanks(g, {}, ids[0], colors, [], rank, top);
        AllCyclesClean(g, ids[1..], v.colors, rank', top');
      }
    }
  }

  /** The list is empty exactly when the whole graph is acyclic, and its first entry is a simple cycle. */
  lemma AllCyclesExact(g: Graph, ids: seq<Id>)
    requires SeqToSet(ids) == g.Keys
    ensures forall id :: id in ids ==> id in Nodes(g)
    ensures AllCycles(g, ids, map[], {}) == [] <==> Acyclic(g)
    ensures AllCycles(g, ids, map[], {}) != [] ==> SimpleCycle(g, AllCycles(g, ids, map[], {})[0])
  {
    assert forall id :: id in ids <==> id in SeqToSet(ids);
    AllCyclesClean(g, ids, map[], map[], 0);
    if AllCycles(g, ids, map[], {}) == [] {
      forall c ensures !ClosedWalk(g, c) {
        if ClosedWalk(g, c) {
          assert Edge(g, c[0], c[0 + 1]);
          ReachesSelf(g, c[0]);
          assert CycleReachable(g, c[0]);
        }
      }
    }
  }

  /** Every later entry is a simple cycle too, or a single node. */
  lemma {:induction false} AllCyclesEntries(g: Graph, ids: seq<Id>, colors: Colors, found: set<Id>, k: nat)
    requires (forall id :: id in ids ==> id in Nodes(g)) && k < |AllCycles(g, ids, colors, found)|
    ensures
      var c := AllCycles(g, ids, colors, found)[k];
      |c| == 1 || SimpleCycle(g, c)
    decreases |ids|
  {
    if (ids[0] in colors && colors[ids[0]].Black?) || ids[0] in found {
      AllCyclesEntries(g, ids[1..], colors, found, k);
    } else {
      var v := Dfs(g, found, ids[0], colors, []);
      DfsReports(g, found, ids[0], colors, [], ids[0]);
      if v.cycle.None? {
        AllCyclesEntries(g, ids[1..], v.colors, found, k);
      } else if k > 0 {
        AllCyclesEntries(g, ids[1..], v.colors, found + SeqToSet(v.cycle.value), k - 1);
      }
    }
  }

  /** Every gray node leads to the first node of an entry, and a cycle can be reached from there. */
  ghost predicate GrayLeads(g: Graph, colors: Colors, entries: seq<seq<Id>>) {
    && (forall j :: 0 <= j < |entries| ==> entries[j] != [] && CycleReachable(g, entries[j][0]))
    && (forall x :: IsGray(colors, x) ==> LeadsToEntry(g, x, entries))
  }

  ghost predicate LeadsToEntry(g: Graph, x: Id, entries: seq<seq<Id>>) {
    exists j :: 0 <= j < |entries| && entries[j] != [] && Reaches(g, x, entries[j][0])
  }

  lemma CycleFurtherOn(g: Graph, a: Id, b: Id)
    requires Reaches(g, a, b) && CycleReachable(g, b)
    ensures CycleReachable(g, a)
  {
    var c :| ClosedWalk(g, c) && Reaches(g, b, c[0]);
    ReachesTransitive(g, a, b, c[0]);
  }

  /** One search of DetectAllCycles that reports c. */
  lemma SearchLeads(g: Graph, found: set<Id>, id: Id, colors: Colors, entries: seq<seq<Id>>)
    requires id in Nodes(g) && GrayLeads(g, colors, entries) && Dfs(g, found, id, colors, []).cycle.Some?
    ensures
      var v := Dfs(g, found, id, colors, []);
      && GrayLeads(g, v.colors, entries + [v.cycle.value])
      && (|v.cycle.value| == 1 ==> LeadsToEntry(g, v.cycle.value[0], entries))
  {
    var v := Dfs(g, found, id, colors, []);
    var c := v.cycle.value;
    DfsLeads(g, found, id, colors, []);
    DfsReports(g, found, id, colors, [], id);
    hide Dfs;
    hide CycleReachable;
    if |c| == 1 {
      var j :| 0 <= j < |entries| && entries[j] != [] && Reaches(g, c[0], entries[j][0]);
      CycleFurtherOn(g, c[0], entries[j][0]);
    } else {
      OnCycle(g, c);
    }
    forall x | IsGray(v.colors, x) ensures LeadsToEntry(g, x, entries + [c]) {
      if IsGray(colors, x) {
        var j :| 0 <= j < |entries| && entries[j] != [] && Reaches(g, x, entries[j][0]);
        assert (entries + [c])[j] == entries[j];
      } else {
        assert (entries + [c])[|entries|] == c;
      }
    }
  }

  lemma OnCycle(g: Graph, c: seq<Id>)
    requires ClosedWalk(g, c)
    ensures CycleReachable(g, c[0])
  {
    ReachesSelf(g, c[0]);
  }

  lemma {:induction false} EntriesLead(g: Graph, ids: seq<Id>, colors: Colors, found: set<Id>, before: seq<seq<Id>>, k: nat)
    requires (forall id :: id in ids ==> id in Nodes(g)) && GrayLeads(g, colors, before)
    requires k < |AllCycles(g, ids, colors, found)|
    ensures
      var r := AllCycles(g, ids, colors, found);
      && r[k] != [] && CycleReachable(g, r[k][0])
      && (|r[k]| == 1 ==> LeadsToEntry(g, r[k][0], before + r[..k]))
    decreases |ids|
  {
    hide Dfs;
    hide CycleReachable;
    if (ids[0] in colors && colors[ids[0]].Black?) || ids[0] in found {
      EntriesLead(g, ids[1..], colors, found, before, k);
    } else {
      var v := Dfs(g, found, ids[0], colors, []);
      if v.cycle.None? {
        DfsBlackens(g, found, ids[0], colors, []);
        assert forall x :: IsGray(v.colors, x) <==> IsGray(colors, x);
        EntriesLead(g, ids[1..], v.colors, found, before, k);
      } else {
        SearchLeads(g, found, ids[0], colors, before);
        var rest := AllCycles(g, ids[1..], v.colors, found + SeqToSet(v.cycle.value));
        if k == 0 {
          assert before + [] == before;
          assert (before + [v.cycle.value])[|before|] == v.cycle.value;
        } else {
          EntriesLead(g, ids[1..], v.colors, found + SeqToSet(v.cycle.value), before + [v.cycle.value], k - 1);
          assert before + [v.cycle.value] + rest[..k - 1] == before + ([v.cycle.value] + rest)[..k];
        }
      }
    }
  }

  /** From the first node of every entry a cycle can be reached; and an entry of a single node, which is not itself a cycle, leads to
      the first node of an earlier entry: it was left gray by that search. */
  lemma SingleEntriesLead(g: Graph, ids: seq<Id>, k: nat)
    requires (forall id :: id in ids ==> id in Nodes(g)) && k < |AllCycles(g, ids, map[], {})|
    ensures
      var r := AllCycles(g, ids, map[], {});
      && r[k] != [] && CycleReachable(g, r[k][0])
      && (|r[k]| == 1 ==> LeadsToEntry(g, r[k][0], r[..k]))
  {
    EntriesLead(g, ids, map[], {}, [], k);
    assert [] + AllCycles(g, ids, map[], {})[..k] == AllCycles(g, ids, map[], {})[..k];
  }

  ghost predicate FoundLead(g: Graph, found: set<Id>, entries: seq<seq<Id>>) {
    forall y :: y in found ==> LeadsToEntry(g, y, entries)
  }

  lemma LeadsFurther(g: Graph, x: Id, y: Id, entries: seq<seq<Id>>)
    requires Reaches(g, x, y) && LeadsToEntry(g, y, entries)
    ensures LeadsToEntry(g, x, entries)
  {
    var j :| 0 <= j < |entries| && entries[j] != [] && Reaches(g, y, entries[j][0]);
    ReachesTransitive(g, x, y, entries[j][0]);
  }

  /** The nodes of a new entry lead to it. */
  lemma FoundMore(g: Graph, found: set<Id>, entries: seq<seq<Id>>, c: seq<Id>)
    requires FoundLead(g, found, entries) && (|c| == 1 || SimpleCycle(g, c))
    ensures FoundLead(g, found + SeqToSet(c), entries + [c])
  {
    forall y | y in found + SeqToSet(c) ensures LeadsToEntry(g, y, entries + [c]) {
      if y in c {
        assert (entries + [c])[|entries|] == c;
        var i :| 0 <= i < |c| && c[i] == y;
        if |c| == 1 { ReachesSelf(g, y); } else { SubWalk(g, c, i, |c| - 1); }
      } else {
        var j :| 0 <= j < |entries| && entries[j] != [] && Reaches(g, y, entries[j][0]);
        assert (entries + [c])[j] == entries[j];
      }
    }
  }

  /** Whatever was coloured or reported or is still to be started: if a cycle can be reached from it, so can an entry. */
  lemma {:induction false} AllCovered(g: Graph, ids: seq<Id>, colors: Colors, found: set<Id>, before: seq<seq<Id>>,
                                      rank: map<Id, nat>, top: nat, x: Id)
    requires (forall id :: id in ids ==> id in Nodes(g)) && RankedBlack(g, colors, rank, top, found)
    requires GrayLeads(g, colors, before) && FoundLead(g, found, before)
    requires (x in ids || x in colors || x in found) && CycleReachable(g, x)
    ensures LeadsToEntry(g, x, before + AllCycles(g, ids, colors, found))
    decreases |ids|
  {
    hide Dfs;
    hide CycleReachable;
    hide Reaches;
    if ids == [] {
      assert before + [] == before;
      if x !in found && colors[x].Black? {
        RankedReaches(g, rank, found, x);
        var y :| y in found && Reaches(g, x, y);
        LeadsFurther(g, x, y, before);
      }
    } else if (ids[0] in colors && colors[ids[0]].Black?) || ids[0] in found {
      AllCovered(g, ids[1..], colors, found, before, rank, top, x);
    } else {
      var v := Dfs(g, found, ids[0], colors, []);
      var rank', top' := DfsRanks(g, found, ids[0], colors, [], rank, top);
      ColoursItself(g, found, ids[0], colors);
      hide RankedBlack;
      if v.cycle.None? {
        DfsBlackens(g, found, ids[0], colors, []);
        assert forall y :: IsGray(v.colors, y) <==> IsGray(colors, y);
        AllCovered(g, ids[1..], v.colors, found, before, rank', top', x);
      } else {
        var c := v.cycle.value;
        SearchLeads(g, found, ids[0], colors, before);
        DfsReports(g, found, ids[0], colors, [], ids[0]);
        FoundMore(g, found, before, c);
        MoreSkipped(g, v.colors, rank', top', found, found + SeqToSet(c));
        var rest := AllCycles(g, ids[1..], v.colors, found + SeqToSet(c));
        AllCovered(g, ids[1..], v.colors, found + SeqToSet(c), before + [c], rank', top', x);
        assert before + [c] + rest == before + ([c] + rest);
      }
    }
  }

  lemma ColoursItself(g: Graph, skip: set<Id>, n: Id, colors: Colors)
    requires n in Nodes(g)
    ensures n in Dfs(g, skip, n, colors, []).colors
  {
  }

  lemma MoreSkipped(g: Graph, colors: Colors, rank: map<Id, nat>, top: nat, skip: set<Id>, more: set<Id>)
    requires RankedBlack(g, colors, rank, top, skip) && skip <= more
    ensures RankedBlack(g, colors, rank, top, more)
  {
  }

  lemma CycleFromExisting(g: Graph, x: Id)
    requires CycleReachable(g, x)
    ensures x in g
  {
    var c :| ClosedWalk(g, c) && Reaches(g, x, c[0]);
    var w :| WalkBetween(g, w, x, c[0]);
    if |w| == 1 { assert Edge(g, c[0], c[0 + 1]); } else { assert Edge(g, w[0], w[0 + 1]); }
  }

  /** Nothing is missed: a cycle can be reached from a node exactly if the first node of an entry can. */
  lemma EntriesCoverCycles(g: Graph, ids: seq<Id>, x: Id)
    requires SeqToSet(ids) == g.Keys
    ensures forall id :: id in ids ==> id in Nodes(g)
    ensures CycleReachable(g, x) <==> LeadsToEntry(g, x, AllCycles(g, ids, map[], {}))
  {
    assert forall id :: id in ids <==> id in SeqToSet(ids);
    var r := AllCycles(g, ids, map[], {});
    if CycleReachable(g, x) {
      CycleFromExisting(g, x);
      AllCovered(g, ids, map[], {}, [], map[], 0, x);
      assert [] + r == r;
    }
    if LeadsToEntry(g, x, r) {
      var j :| 0 <= j < |r| && r[j] != [] && Reaches(g, x, r[j][0]);
      SingleEntriesLead(g, ids, j);
      CycleFurtherOn(g, x, r[j][0]);
    }
  }

  method DetectAllCycles(g: Graph, ids: seq<Id>) returns (cycles: seq<seq<Id>>)
    requires SeqToSet(ids) == g.Keys
    ensures cycles == [] <==> Acyclic(g)
    ensures cycles != [] ==> SimpleCycle(g, cycles[0])
    ensures forall k :: 0 <= k < |cycles| ==> |cycles[k]| == 1 || SimpleCycle(g, cycles[k])
    ensures forall x :: CycleReachable(g, x) <==> LeadsToEntry(g, x, cycles)
    ensures (forall id :: id in ids ==> id in Nodes(g)) && cycles == AllCycles(g, ids, map[], {})
  {
    AllCyclesExact(g, ids);
    hide Dfs;
    hide Acyclic;
    hide SimpleCycle;
    hide CycleReachable;
    hide LeadsToEntry;
    cycles := [];
    var search := new Search(g);
    var inFoundCycle: set<Id> := {};
    ghost var all := AllCycles(g, ids, map[], {});
    for i := 0 to |ids|
      invariant fresh(search) && search.g == g
      invariant all == cycles + AllCycles(g, ids[i..], search.colors, inFoundCycle)
    {
      var id := ids[i];
      assert ids[i..][1..] == ids[i + 1..];
      if !(id in search.colors && search.colors[id].Black?) && id !in inFoundCycle {
        var hasCycle, path := search.DetectCycleDFS(id, [], inFoundCycle);
        if hasCycle {
          cycles := cycles + [path];
          inFoundCycle := inFoundCycle + SeqToSet(path);
        }
      }
    }
    assert ids[|ids|..] == [] && cycles + [] == cycles;
    assert cycles == all;
    EntriesAre(g, ids);
  }

  lemma EntriesAre(g: Graph, ids: seq<Id>)
    requires SeqToSet(ids) == g.Keys
    ensures forall id :: id in ids ==> id in Nodes(g)
    ensures
      var r := AllCycles(g, ids, map[], {});
      && (forall k :: 0 <= k < |r| ==> |r[k]| == 1 || SimpleCycle(g, r[k]))
      && (forall x :: CycleReachable(g, x) <==> LeadsToEntry(g, x, r))
  {
    AllCyclesExact(g, ids);
    hide *;
    var r := AllCycles(g, ids, map[], {});
    forall k | 0 <= k < |r| ensures |r[k]| == 1 || SimpleCycle(g, r[k]) { AllCyclesEntries(g, ids, map[], {}, k); }
    forall x ensures CycleReachable(g, x) <==> LeadsToEntry(g, x, r) { EntriesCoverCycles(g, ids, x); }
  }

  // ---- A gray node left behind --------------------------------------------------------------------------

  const STALE: Graph := map["X" := ["A"], "A" := ["B"], "B" := ["A"], "Y" := ["X"]]

  const STALE_COLORS: Colors := map["X" := Gray, "A" := Gray, "B" := Gray]

  lemma StaleFirstSearch()
    ensures "X" in Nodes(STALE) && Dfs(STALE, {}, "X", map[], []) == Visit(STALE_COLORS, Some(["A", "B", "A"]))
  {
    var g := STALE;
    assert g["X"] == ["A"] && g["A"] == ["B"] && g["B"] == ["A"];
    assert "A" in Nodes(g) && "B" in Nodes(g) && "X" in Nodes(g) by { assert {"A", "B", "X"} <= g.Keys; }
    var c1, c2: Colors := map["X" := Gray], map["X" := Gray, "A" := Gray];
    var path := ["X", "A", "B"];
    assert PathFrom(path, "A") == ["A", "B"] by { assert path[1..] == ["A", "B"]; }
    assert ["A", "B"] + ["A"] == ["A", "B", "A"];
    assert Dfs(g, {}, "A", STALE_COLORS, path) == Visit(STALE_COLORS, Some(["A", "B", "A"]));
    assert DfsAll(g, {}, ["A"], STALE_COLORS, path) == Visit(STALE_COLORS, Some(["A", "B", "A"]));
    assert c2["B" := Gray] == STALE_COLORS && ["X", "A"] + ["B"] == path;
    assert Dfs(g, {}, "B", c2, ["X", "A"]) == Visit(STALE_COLORS, Some(["A", "B", "A"]));
    assert DfsAll(g, {}, ["B"], c2, ["X", "A"]) == Visit(STALE_COLORS, Some(["A", "B", "A"]));
    assert c1["A" := Gray] == c2 && ["X"] + ["A"] == ["X", "A"];
    assert Dfs(g, {}, "A", c1, ["X"]) == Visit(STALE_COLORS, Some(["A", "B", "A"]));
    assert DfsAll(g, {}, ["A"], c1, ["X"]) == Visit(STALE_COLORS, Some(["A", "B", "A"]));
    assert map["X" := Gray] == c1 && [] + ["X"] == ["X"];
  }

  lemma StaleSecondSearch(found: set<Id>)
    requires found == {"A", "B"}
    ensures "Y" in Nodes(STALE) && Dfs(STALE, found, "Y", STALE_COLORS, []).cycle == Some(["X"])
  {
    var g := STALE;
    assert "Y" in Nodes(g) && "X" in Nodes(g) by { assert {"X", "Y"} <= g.Keys; }
    assert PathFrom(["Y"], "X") + ["X"] == ["X"] by { assert ["Y"][1..] == []; }
    assert g["Y"] == ["X"] && [] + ["Y"] == ["Y"];
    var c := STALE_COLORS["Y" := Gray];
    assert Dfs(g, found, "X", c, ["Y"]) == Visit(c, Some(["X"]));
    assert DfsAll(g, found, ["X"], c, ["Y"]) == Visit(c, Some(["X"]));
  }

  lemma Comes(c: seq<Id>, i: nat) returns (j: nat)
    requires ClosedWalk(STALE, c) && i < |c|
    ensures j < |c| && Edge(STALE, c[j], c[i])
  {
    if i == 0 {
      j := |c| - 2;
      assert Edge(STALE, c[j], c[j + 1]);
    } else {
      j := i - 1;
      assert Edge(STALE, c[j], c[j + 1]);
    }
  }

  lemma NotOnCycle(c: seq<Id>)
    requires ClosedWalk(STALE, c)
    ensures "X" !in c
  {
    if i :| 0 <= i < |c| && c[i] == "X" {
      var j := Comes(c, i);
      assert c[j] == "Y";
      var k := Comes(c, j);
    }
  }

  lemma SkippedStart(g: Graph, id: Id, rest: seq<Id>, colors: Colors, found: set<Id>)
    requires id in found && id in Nodes(g) && forall x :: x in rest ==> x in Nodes(g)
    ensures AllCycles(g, [id] + rest, colors, found) == AllCycles(g, rest, colors, found)
  {
    assert ([id] + rest)[1..] == rest;
  }

  /** A start that an earlier search left gray, and that is on no path reported so far, is reported alone. */
  lemma GrayStartIsReported(g: Graph, id: Id, rest: seq<Id>, colors: Colors, found: set<Id>)
    requires IsGray(colors, id) && id !in found && id in Nodes(g) && forall x :: x in rest ==> x in Nodes(g)
    ensures AllCycles(g, [id] + rest, colors, found) == [[id]] + AllCycles(g, rest, colors, found + {id})
  {
    assert ([id] + rest)[1..] == rest;
    assert SeqToSet([id]) == {id} && PathFrom([], id) + [id] == [id];
  }

  lemma ReportingStart(g: Graph, id: Id, rest: seq<Id>, colors: Colors, found: set<Id>, after: Colors, c: seq<Id>)
    requires id !in found && !(id in colors && colors[id].Black?) && id in Nodes(g) && forall x :: x in rest ==> x in Nodes(g)
    requires Dfs(g, found, id, colors, []) == Visit(after, Some(c))
    ensures AllCycles(g, [id] + rest, colors, found) == [c] + AllCycles(g, rest, after, found + SeqToSet(c))
  {
    hide Dfs;
    assert ([id] + rest)[1..] == rest;
  }

  /** The search that finds a cycle leaves its whole stack gray. A later start that runs into such a node
      reports it alone, although it lies on no cycle. */
  lemma StaleGrayIsReported()
    ensures forall id :: id in ["X", "A", "B", "Y"] ==> id in Nodes(STALE)
    ensures AllCycles(STALE, ["X", "A", "B", "Y"], map[], {}) == [["A", "B", "A"], ["X"]]
    ensures forall c :: ClosedWalk(STALE, c) ==> "X" !in c
  {
    hide ClosedWalk;
    hide Dfs;
    forall c | ClosedWalk(STALE, c) ensures "X" !in c { NotOnCycle(c); }
    var g, found := STALE, SeqToSet(["A", "B", "A"]);
    assert found == {"A", "B"} && {} + found == found;
    assert g.Keys == {"X", "A", "B", "Y"};
    StaleFirstSearch();
    StaleSecondSearch(found);
    var last := Dfs(g, found, "Y", STALE_COLORS, []);
    assert AllCycles(g, [], last.colors, found + SeqToSet(["X"])) == [];
    hide AllCycles;
    hide SeqToSet;
    ReportingStart(g, "Y", [], STALE_COLORS, found, last.colors, ["X"]);
    SkippedStart(g, "B", ["Y"], STALE_COLORS, found);
    SkippedStart(g, "A", ["B", "Y"], STALE_COLORS, found);
    ReportingStart(g, "X", ["A", "B", "Y"], map[], {}, STALE_COLORS, ["A", "B", "A"]);
    assert ["Y"] + [] == ["Y"] && ["B"] + ["Y"] == ["B", "Y"] && ["A"] + ["B", "Y"] == ["A", "B", "Y"];
    assert ["X"] + ["A", "B", "Y"] == ["X", "A", "B", "Y"];
  }

  // ---- WouldCreateCycle -------------------------------------------------------------------------------------

  /** dependencyWrapper: the graph with the proposed dependency, if its source exists. */
  function WithDependency(g: Graph, from: Id, to: Id): Graph {
    if from !in g || to in g[from] then g else g[from := g[from] + [to]]
  }

  method WouldCreateCycle(g: Graph, from: Id, to: Id) returns (hasCycle: bool, path: seq<Id>)
    ensures hasCycle == WouldCreate(g, from, to)
    ensures Acyclic(g) ==> (hasCycle <==> from == to || (from in g && Reaches(g, to, from)))
    ensures hasCycle ==> if from == to then path == [from, to] else Genuine(WithDependency(g, from, to), from, path)
  {
    if Acyclic(g) { WouldCreateExactly(g, from, to); }
    if from == to { return true, [from, to]; }
    if from !in g { return false, []; }
    hasCycle, path := DetectCycleFrom(WithDependency(g, from, to), from);
    DetectFromExact(WithDependency(g, from, to), from);
  }

  predicate WouldCreate(g: Graph, from: Id, to: Id) {
    from == to || (from in g && DetectFrom(WithDependency(g, from, to), from).Some?)
  }

  /** The dependency really added; a source that does not exist comes into being with it. */
  function AddDependency(g: Graph, from: Id, to: Id): Graph {
    g[from := (if from in g then g[from] else []) + [to]]
  }

  lemma AddedEdges(g: Graph, from: Id, to: Id, a: Id, b: Id)
    ensures Edge(AddDependency(g, from, to), a, b) <==> Edge(g, a, b) || (a == from && b == to)
    ensures from in g ==> (Edge(WithDependency(g, from, to), a, b) <==> Edge(g, a, b) || (a == from && b == to))
  {
  }

  lemma SameWalks(g: Graph, h: Graph, w: seq<Id>)
    requires Walk(g, w) && forall i :: 0 <= i < |w| - 1 ==> Edge(h, w[i], w[i + 1])
    ensures Walk(h, w)
  {
  }

  /** A way from `to` to `from` in the larger graph has a first arrival at `from`; up to there it uses no new edge. */
  lemma {:induction false} WayBackIsOld(g: Graph, h: Graph, from: Id, to: Id, w: seq<Id>)
    requires forall a, b :: Edge(h, a, b) ==> Edge(g, a, b) || a == from
    requires Walk(h, w) && Last(w) == from
    ensures Reaches(g, w[0], from)
    decreases |w|
  {
    if w[0] == from {
      ReachesSelf(g, from);
    } else {
      assert Edge(h, w[0], w[0 + 1]);
      SubWalk(h, w, 1, |w| - 1);
      assert w[1..|w| - 1 + 1] == w[1..];
      WayBackIsOld(g, h, from, to, w[1..]);
      ReachesByEdge(g, w[0], w[1]);
      ReachesTransitive(g, w[0], w[1], from);
    }
  }

  /** Adding one dependency to an acyclic graph closes a cycle exactly when its target already leads back. */
  lemma NewCycleExactly(g: Graph, from: Id, to: Id)
    requires Acyclic(g)
    ensures !Acyclic(AddDependency(g, from, to)) <==> Reaches(g, to, from)
  {
    var h := AddDependency(g, from, to);
    forall a, b ensures Edge(h, a, b) <==> Edge(g, a, b) || (a == from && b == to) { AddedEdges(g, from, to, a, b); }
    if Reaches(g, to, from) {
      var w :| WalkBetween(g, w, to, from);
      assert WalkBetween(h, w, to, from);
      EdgeAndWayBack(h, from, to);
    }
    if c :| ClosedWalk(h, c) {
      if i :| 0 <= i < |c| - 1 && !Edge(g, c[i], c[i + 1]) {
        assert Edge(h, c[i], c[i + 1]);
        SubWalk(h, c, i + 1, |c| - 1);
        SubWalk(h, c, 0, i);
        Join(h, c[i + 1..|c| - 1 + 1], c[0..i + 1]);
        WayBackIsOld(g, h, from, to, c[i + 1..|c| - 1 + 1] + c[0..i + 1][1..]);
      } else {
        SameWalks(h, g, c);
        assert ClosedWalk(g, c);
        assert false;
      }
    }
  }

  /** On an acyclic graph the answer is yes exactly when the two nodes are the same, or the source exists
      and the target leads back to it. */
  lemma WouldCreateExactly(g: Graph, from: Id, to: Id)
    requires Acyclic(g)
    ensures WouldCreate(g, from, to) <==> from == to || (from in g && Reaches(g, to, from))
  {
    if from != to && from in g {
      var h := WithDependency(g, from, to);
      DetectFromExact(h, from);
      forall a, b ensures Edge(h, a, b) <==> Edge(g, a, b) || (a == from && b == to) { AddedEdges(g, from, to, a, b); }
      if Reaches(g, to, from) {
        var w :| WalkBetween(g, w, to, from);
        assert WalkBetween(h, w, to, from);
        EdgeAndWayBack(h, from, to);
        ReachesSelf(h, from);
      } else if CycleReachable(h, from) {
        var c :| ClosedWalk(h, c) && Reaches(h, from, c[0]);
        NewCycleExactly(g, from, to);
        forall i | 0 <= i < |c| - 1 ensures Edge(AddDependency(g, from, to), c[i], c[i + 1]) {
          assert Edge(h, c[i], c[i + 1]);
          AddedEdges(g, from, to, c[i], c[i + 1]);
        }
        assert ClosedWalk(AddDependency(g, from, to), c);
        assert false;
      }
    }
  }

  /** So on an acyclic graph the answer tells whether the dependency closes a cycle, except for a source that does
      not exist yet and is already depended upon by the target. */
  lemma WouldCreateIsRight(g: Graph, from: Id, to: Id)
    requires Acyclic(g)
    ensures (WouldCreate(g, from, to) <==> !Acyclic(AddDependency(g, from, to)))
       <==> (from in g || from == to || !Reaches(g, to, from))
  {
    WouldCreateExactly(g, from, to);
    NewCycleExactly(g, from, to);
    if from == to { ReachesSelf(g, from); }
  }

  /** Dependencies added one after the other, each only between existing nodes and after the answer no. */
  function AddGuarded(g: Graph, proposals: seq<(Id, Id)>): Graph {
    if proposals == [] then g
    else
      var (from, to) := proposals[0];
      var next := if from in g && to in g && !WouldCreate(g, from, to) then AddDependency(g, from, to) else g;
      AddGuarded(next, proposals[1..])
  }

  /** Whatever is proposed, a graph that was acyclic stays so. */
  lemma {:induction false} GuardedGraphStaysAcyclic(g: Graph, proposals: seq<(Id, Id)>)
    requires Acyclic(g)
    ensures Acyclic(AddGuarded(g, proposals))
    decreases |proposals|
  {
    if proposals != [] {
      var (from, to) := proposals[0];
      WouldCreateIsRight(g, from, to);
      var next := if from in g && to in g && !WouldCreate(g, from, to) then AddDependency(g, from, to) else g;
      GuardedGraphStaysAcyclic(next, proposals[1..]);
    }
  }
}
