/**
  internal/taint and the taint part of internal/state/apply.go: how doubt about a proof node passes to the nodes below it.
 */
module Taint {
  import opened Graph
  import opened Sorting
  import opened Lexicographic
  import ExportTree

  type NodeId = ExportTree.NodeId

  datatype Epistemic = Pending | Validated | Admitted | Refuted | Archived | NeedsRefinement

  datatype TaintState = Clean | SelfAdmitted | Tainted | Unresolved

  type States = map<NodeId, Epistemic>

  type Taints = map<NodeId, TaintState>

  predicate IsAncestorOf(a: NodeId, b: NodeId) { |a| < |b| && a <= b }

  // ---- The rule, and what it amounts to ---------------------------------------------------------------

  /** ComputeTaint, once it is known whether an ancestor is unresolved and whether one is tainted or self-admitted. */
  function Rule(state: Epistemic, unresolved: bool, tainted: bool): TaintState {
    if state.Pending? || unresolved then Unresolved
    else if state.Admitted? then SelfAdmitted
    else if tainted then Tainted
    else Clean
  }

  ghost predicate AncestorIn(states: States, n: NodeId, a: NodeId) { a in states && IsAncestorOf(a, n) }

  ghost predicate AncestorUnresolved(states: States, taint: Taints, n: NodeId)
    requires states.Keys == taint.Keys
  {
    exists a :: AncestorIn(states, n, a) && taint[a].Unresolved?
  }

  ghost predicate AncestorTainted(states: States, taint: Taints, n: NodeId)
    requires states.Keys == taint.Keys
  {
    exists a :: AncestorIn(states, n, a) && (taint[a].Tainted? || taint[a].SelfAdmitted?)
  }

  /** The recorded taint is what the rule gives from the recorded taints of the ancestors. */
  ghost predicate Local(states: States, taint: Taints, n: NodeId)
    requires states.Keys == taint.Keys && n in states
  {
    taint[n] == Rule(states[n], AncestorUnresolved(states, taint, n), AncestorTainted(states, taint, n))
  }

  ghost predicate SomePending(states: States, n: NodeId) { exists a :: AncestorIn(states, n, a) && states[a].Pending? }

  ghost predicate SomeAdmitted(states: States, n: NodeId) { exists a :: AncestorIn(states, n, a) && states[a].Admitted? }

  /** The taint in terms of epistemic states only: unresolved if the node or one above it is pending, else self-admitted if it
      is admitted, else tainted if one above it is admitted. */
  ghost function TaintOf(states: States, n: NodeId): TaintState
    requires n in states
  {
    if states[n].Pending? || SomePending(states, n) then Unresolved
    else if states[n].Admitted? then SelfAdmitted
    else if SomeAdmitted(states, n) then Tainted
    else Clean
  }

  ghost predicate InSync(states: States, taint: Taints) {
    states.Keys == taint.Keys && forall n :: n in states ==> taint[n] == TaintOf(states, n)
  }

  lemma AncestorsTransitive(states: States, n: NodeId, a: NodeId, b: NodeId)
    requires AncestorIn(states, n, a) && AncestorIn(states, a, b)
    ensures AncestorIn(states, n, b)
  {
  }

  /** Above a node that is right, the rule looks at taints where the closed form looks at epistemic states. */
  lemma RuleAgrees(states: States, taint: Taints, n: NodeId)
    requires states.Keys == taint.Keys && n in states
    requires forall a :: AncestorIn(states, n, a) ==> taint[a] == TaintOf(states, a)
    ensures Rule(states[n], AncestorUnresolved(states, taint, n), AncestorTainted(states, taint, n)) == TaintOf(states, n)
  {
    hide IsAncestorOf;
    assert forall a :: AncestorIn(states, n, a) && states[a].Pending? ==> taint[a].Unresolved?;
    if a :| AncestorIn(states, n, a) && taint[a].Unresolved? {
      if b :| AncestorIn(states, a, b) && states[b].Pending? { AncestorsTransitive(states, n, a, b); }
    } else {
      if a :| AncestorIn(states, n, a) && taint[a].Tainted? {
        var b :| AncestorIn(states, a, b) && states[b].Admitted?;
        AncestorsTransitive(states, n, a, b);
      }
      if a :| AncestorIn(states, n, a) && states[a].Admitted? { assert taint[a].SelfAdmitted?; }
    }
  }

  lemma {:induction false} LocalIsRight(states: States, taint: Taints, n: NodeId)
    requires states.Keys == taint.Keys && n in states && forall m :: m in states ==> Local(states, taint, m)
    ensures taint[n] == TaintOf(states, n)
    decreases |n|
  {
    forall a | AncestorIn(states, n, a) ensures taint[a] == TaintOf(states, a) { LocalIsRight(states, taint, a); }
    RuleAgrees(states, taint, n);
  }

  /** The only labelling that satisfies the rule everywhere is the closed form. */
  lemma SyncExactly(states: States, taint: Taints)
    requires states.Keys == taint.Keys
    ensures InSync(states, taint) <==> forall n :: n in states ==> Local(states, taint, n)
  {
    if InSync(states, taint) {
      forall n | n in states ensures Local(states, taint, n) { RuleAgrees(states, taint, n); }
    }
    if forall n :: n in states ==> Local(states, taint, n) {
      forall n | n in states ensures taint[n] == TaintOf(states, n) { LocalIsRight(states, taint, n); }
    }
  }

  /** The rule at n depends on the state of n and on the taints at and above it. */
  lemma LocalDepends(states: States, taint: Taints, states': States, taint': Taints, n: NodeId)
    requires states.Keys == taint.Keys == states'.Keys == taint'.Keys && n in states
    requires Local(states, taint, n) && states'[n] == states[n] && taint'[n] == taint[n]
    requires forall a :: AncestorIn(states, n, a) ==> taint'[a] == taint[a]
    ensures Local(states', taint', n)
  {
    assert forall a :: AncestorIn(states', n, a) <==> AncestorIn(states, n, a);
  }

  /** The taint of m after a recomputation at root: as recorded elsewhere, by the rule at and below root. */
  ghost function Retainted(states: States, taint: Taints, root: NodeId, m: NodeId): TaintState
    requires states.Keys == taint.Keys && m in states
    decreases |m|
  {
    if !(root <= m) then taint[m]
    else Rule(states[m],
              exists a :: AncestorIn(states, m, a) && Retainted(states, taint, root, a).Unresolved?,
              exists a :: AncestorIn(states, m, a)
                && (Retainted(states, taint, root, a).Tainted? || Retainted(states, taint, root, a).SelfAdmitted?))
  }

  ghost function Recomputed(states: States, taint: Taints, root: NodeId): (r: Taints)
    requires states.Keys == taint.Keys
    ensures r.Keys == states.Keys
  {
    map m | m in states :: Retainted(states, taint, root, m)
  }

  /** A labelling that is as recorded elsewhere and obeys the rule at and below root is the recomputed one. */
  lemma {:induction false} RetaintedUnique(states: States, taint: Taints, root: NodeId, after: Taints, m: NodeId)
    requires states.Keys == taint.Keys == after.Keys && m in states
    requires forall n :: n in states && !(root <= n) ==> after[n] == taint[n]
    requires forall n :: n in states && root <= n ==> Local(states, after, n)
    ensures after[m] == Retainted(states, taint, root, m)
    decreases |m|
  {
    forall a | AncestorIn(states, m, a) ensures after[a] == Retainted(states, taint, root, a) {
      RetaintedUnique(states, taint, root, after, a);
    }
    if root <= m { assert Local(states, after, m); }
  }

  lemma RecomputedUnique(states: States, taint: Taints, root: NodeId, after: Taints)
    requires states.Keys == taint.Keys == after.Keys
    requires forall n :: n in states && !(root <= n) ==> after[n] == taint[n]
    requires forall n :: n in states && root <= n ==> Local(states, after, n)
    ensures after == Recomputed(states, taint, root)
  {
    hide Local;
    hide Retainted;
    forall m | m in states ensures after[m] == Recomputed(states, taint, root)[m] { RetaintedUnique(states, taint, root, after, m); }
  }

  /** The recomputed labelling does obey the rule there. */
  lemma RecomputedLocal(states: States, taint: Taints, root: NodeId, m: NodeId)
    requires states.Keys == taint.Keys && m in states && root <= m
    ensures Local(states, Recomputed(states, taint, root), m)
  {
    var r := Recomputed(states, taint, root);
    assert forall a :: AncestorIn(states, m, a) ==> r[a] == Retainted(states, taint, root, a);
  }

  // ---- The program ----------------------------------------------------------------------------------------

  ghost predicate ListsAncestors(states: States, n: NodeId, list: seq<NodeId>) {
    forall a :: a in list <==> AncestorIn(states, n, a)
  }

  lemma ParentsAncestors(states: States, n: NodeId, a: NodeId)
    requires |n| > 1
    ensures AncestorIn(states, n, a) <==> a in states && (a == n[..|n| - 1] || IsAncestorOf(a, n[..|n| - 1]))
  {
    var p: NodeId := n[..|n| - 1];
    if IsAncestorOf(a, n) { assert a == n[..|a|] && (|a| < |p| ==> a == p[..|a|]); }
  }

  /** Shallower first. */
  predicate DepthLeq(a: NodeId, b: NodeId) { |a| < |b| || (|a| == |b| && Leq(a, b)) }

  lemma DepthOrder()
    ensures TotalOrder(DepthLeq)
  {
    forall a: NodeId, b: NodeId ensures DepthLeq(a, b) || DepthLeq(b, a) { LeqTotal(a, b); }
    forall a: NodeId, b: NodeId | DepthLeq(a, b) && DepthLeq(b, a) ensures a == b { LeqAntisymmetric(a, b); }
    forall a: NodeId, b: NodeId, c: NodeId | DepthLeq(a, b) && DepthLeq(b, c) ensures DepthLeq(a, c) {
      if Leq(a, b) && Leq(b, c) { LeqTransitive(a, b, c); }
    }
  }

  /** Nodes of equal depth may come out in any order. */
  method SortByDepth(nodes: seq<NodeId>) returns (sorted: seq<NodeId>)
    ensures forall n :: n in sorted <==> n in nodes
    ensures forall i, j :: 0 <= i < j < |sorted| ==> |sorted[i]| <= |sorted[j]|
  {
    DepthOrder();
    SortIsSortedPermutation(DepthLeq, nodes);
    sorted := Sort(DepthLeq, nodes);
    forall n ensures n in sorted <==> n in nodes { assert n in multiset(sorted) <==> n in multiset(nodes); }
  }

  ghost predicate LocalUpTo(states: States, taint: Taints, list: seq<NodeId>, i: nat)
    requires states.Keys == taint.Keys && i <= |list| && forall n :: n in list ==> n in states
  {
    forall j :: 0 <= j < i ==> Local(states, taint, list[j])
  }

  /** Working from shallow to deep, a node set right stays right. */
  lemma LocalOneMore(states: States, taint: Taints, list: seq<NodeId>, i: nat, t: TaintState)
    requires states.Keys == taint.Keys && i < |list| && forall n :: n in list ==> n in states
    requires forall j, k :: 0 <= j < k < |list| ==> |list[j]| <= |list[k]|
    requires LocalUpTo(states, taint, list, i)
    requires t == Rule(states[list[i]], AncestorUnresolved(states, taint, list[i]), AncestorTainted(states, taint, list[i]))
    ensures taint[list[i] := t].Keys == states.Keys && LocalUpTo(states, taint[list[i] := t], list, i + 1)
    ensures taint[list[i]] == t ==> LocalUpTo(states, taint, list, i + 1)
  {
    var n, after := list[i], taint[list[i] := t];
    assert after.Keys == states.Keys;
    assert taint[n] == t ==> after == taint;
    forall j | 0 <= j < i + 1 ensures Local(states, after, list[j]) {
      if list[j] == n {
        SameRule(states, taint, after, n);
      } else {
        LocalDepends(states, taint, states, after, list[j]);
      }
    }
  }

  lemma SameRule(states: States, taint: Taints, taint': Taints, n: NodeId)
    requires states.Keys == taint.Keys == taint'.Keys && n in states
    requires forall a :: AncestorIn(states, n, a) ==> taint'[a] == taint[a]
    ensures AncestorUnresolved(states, taint', n) == AncestorUnresolved(states, taint, n)
    ensures AncestorTainted(states, taint', n) == AncestorTainted(states, taint, n)
  {
  }

  class ProofState {
    var states: States
    var taint: Taints

    ghost predicate Valid() reads this { states.Keys == taint.Keys }

    constructor ()
      ensures states == map[] && taint == map[]
    {
      states, taint := map[], map[];
    }

    /** getAncestors: up from parent to parent. */
    method GetAncestors(n: NodeId) returns (ancestors: seq<NodeId>)
      ensures ListsAncestors(states, n, ancestors)
    {
      ancestors := [];
      var at: NodeId := n;
      while |at| > 1
        invariant forall a :: AncestorIn(states, n, a) <==> a in ancestors || AncestorIn(states, at, a)
        invariant at <= n
        decreases |at|
      {
        var parent: NodeId := at[..|at| - 1];
        forall a ensures AncestorIn(states, at, a) <==> a in states && (a == parent || IsAncestorOf(a, parent)) {
          ParentsAncestors(states, at, a);
        }
        if parent in states { ancestors := ancestors + [parent]; }
        at := parent;
      }
    }

    /** getAncestorsCached: from the list of the parent, if that is in the cache. */
    method GetAncestorsCached(n: NodeId, cache: map<NodeId, seq<NodeId>>)
        returns (ancestors: seq<NodeId>, filled: map<NodeId, seq<NodeId>>)
      requires forall k :: k in cache ==> ListsAncestors(states, k, cache[k])
      ensures ListsAncestors(states, n, ancestors)
      ensures forall k :: k in filled ==> ListsAncestors(states, k, filled[k])
    {
      if n in cache { return cache[n], cache; }
      if |n| <= 1 { return [], cache[n := []]; }
      var parent: NodeId := n[..|n| - 1];
      forall a ensures AncestorIn(states, n, a) <==> a in states && (a == parent || IsAncestorOf(a, parent)) {
        ParentsAncestors(states, n, a);
      }
      if parent in cache {
        assert ListsAncestors(states, parent, cache[parent]);
        ancestors := if parent in states then [parent] + cache[parent] else cache[parent];
      } else {
        ancestors := GetAncestors(n);
      }
      filled := cache[n := ancestors];
    }

    /** ComputeTaint: two passes over the ancestors. */
    method ComputeTaint(n: NodeId, ancestors: seq<NodeId>) returns (t: TaintState)
      requires Valid() && n in states && ListsAncestors(states, n, ancestors)
      ensures t == Rule(states[n], AncestorUnresolved(states, taint, n), AncestorTainted(states, taint, n))
    {
      if states[n].Pending? { return Unresolved; }
      for i := 0 to |ancestors|
        invariant forall j :: 0 <= j < i ==> ancestors[j] in taint && !taint[ancestors[j]].Unresolved?
      {
        assert ancestors[i] in ancestors && AncestorIn(states, n, ancestors[i]);
        if taint[ancestors[i]].Unresolved? { return Unresolved; }
      }
      assert forall a :: a in ancestors ==> a in taint && !taint[a].Unresolved?;
      if states[n].Admitted? { return SelfAdmitted; }
      for i := 0 to |ancestors|
        invariant forall j :: 0 <= j < i ==>
          ancestors[j] in taint && !taint[ancestors[j]].Tainted? && !taint[ancestors[j]].SelfAdmitted?
      {
        assert ancestors[i] in ancestors && AncestorIn(states, n, ancestors[i]);
        if taint[ancestors[i]].Tainted? || taint[ancestors[i]].SelfAdmitted? { return Tainted; }
      }
      assert forall a :: a in ancestors ==> a in taint && !taint[a].Tainted? && !taint[a].SelfAdmitted?;
      return Clean;
    }

    /** The nodes below root, shallower first. */
    method Descendants(root: NodeId) returns (list: seq<NodeId>)
      requires Valid()
      ensures forall n :: n in list <==> n in states && IsAncestorOf(root, n)
      ensures forall i, j :: 0 <= i < j < |list| ==> |list[i]| <= |list[j]|
    {
      list := [];
      var rest := states.Keys;
      while rest != {}
        invariant rest <= states.Keys
        invariant forall n :: n in list <==> n in states && n !in rest && IsAncestorOf(root, n)
        decreases |rest|
      {
        var n :| n in rest;
        rest := rest - {n};
        if IsAncestorOf(root, n) { list := list + [n]; }
      }
      list := SortByDepth(list);
    }

    /** PropagateTaint: afterwards every node below root obeys the rule, and no other was touched. */
    method PropagateTaint(root: NodeId) returns (changed: seq<NodeId>)
      requires Valid()
      modifies this`taint
      ensures Valid()
      ensures forall n :: n in states && IsAncestorOf(root, n) ==> Local(states, taint, n)
      ensures forall n :: n in states && !IsAncestorOf(root, n) ==> taint[n] == old(taint)[n]
      ensures forall n :: n in changed <==> n in states && IsAncestorOf(root, n) && taint[n] != old(taint)[n]
    {
      changed := [];
      var list := Descendants(root);
      var rootAncestors := GetAncestors(root);
      var cache: map<NodeId, seq<NodeId>> := map[root := rootAncestors];
      for i := 0 to |list|
        invariant Valid() && forall k :: k in cache ==> ListsAncestors(states, k, cache[k])
        invariant LocalUpTo(states, taint, list, i)
        invariant forall n :: n in states && n !in list[..i] ==> taint[n] == old(taint)[n]
        invariant forall n :: n in changed <==> n in list[..i] && taint[n] != old(taint)[n]
      {
        var desc := list[i];
        assert list[..i + 1] == list[..i] + [desc];
        var ancestors;
        ancestors, cache := GetAncestorsCached(desc, cache);
        var newTaint := ComputeTaint(desc, ancestors);
        LocalOneMore(states, taint, list, i, newTaint);
        if taint[desc] != newTaint {
          taint := taint[desc := newTaint];
          changed := changed + [desc];
        }
      }
      assert list[..|list|] == list;
    }

    /** recomputeTaintForNode. */
    method RecomputeTaintForNode(n: NodeId)
      requires Valid() && n in states
      modifies this`taint
      ensures Valid() && taint == Recomputed(states, old(taint), n)
    {
      ghost var before := taint;
      var ancestors := GetAncestors(n);
      var newTaint := ComputeTaint(n, ancestors);
      taint := taint[n := newTaint];
      ghost var own := taint;
      assert own.Keys == states.Keys;
      var changed := PropagateTaint(n);
      forall m | m in states && n <= m ensures Local(states, taint, m) {
        if m == n { SameRule(states, before, taint, n); }
      }
      RecomputedUnique(states, before, n, taint);
    }

    /** Applying one ledger event. */
    method ApplyEvent(e: Event) returns (ok: bool)
      requires Valid()
      modifies this
      ensures Valid() && (ok <==> Applies(old(states), e))
      ensures ok ==> states == StatesAfter(old(states), e) && taint == TaintsAfter(old(states), old(taint), e)
      ensures !ok ==> states == old(states) && taint == old(taint)
    {
      match e {
        case NodeCreated(n) =>
          states, taint := states[n := Pending], taint[n := Unresolved];
        case EpistemicChanged(n, to) =>
          if n !in states || to.Pending? || to.NeedsRefinement? || !Legal(states[n], to) { return false; }
          states := states[n := to];
          RecomputeTaintForNode(n);
        case RefinementRequested(n) =>
          if n !in states || !Legal(states[n], NeedsRefinement) { return false; }
          states := states[n := NeedsRefinement];
        case TaintRecomputed(n, t) =>
          if n !in states { return false; }
          taint := taint[n := t];
        case OtherEvent =>
      }
      return true;
    }
  }

  // ---- Events -------------------------------------------------------------------------------------------------

  /** A node is created pending and unresolved; the other events leave states and taints alone. */
  datatype Event =
    | NodeCreated(id: NodeId)
    | EpistemicChanged(id: NodeId, to: Epistemic)
    | RefinementRequested(id: NodeId)
    | TaintRecomputed(id: NodeId, newTaint: TaintState)
    | OtherEvent

  /** ValidateEpistemicTransition */
  predicate Legal(from: Epistemic, to: Epistemic) {
    match from
    case Pending => to in {Validated, Admitted, Refuted, Archived}
    case Validated => to.NeedsRefinement?
    case NeedsRefinement => to in {Validated, Admitted, Refuted, Archived}
    case _ => false
  }

  predicate Applies(states: States, e: Event) {
    match e
    case NodeCreated(_) => true
    case EpistemicChanged(n, to) => n in states && !to.Pending? && !to.NeedsRefinement? && Legal(states[n], to)
    case RefinementRequested(n) => n in states && Legal(states[n], NeedsRefinement)
    case TaintRecomputed(n, _) => n in states
    case OtherEvent => true
  }

  function StatesAfter(states: States, e: Event): States {
    match e
    case NodeCreated(n) => states[n := Pending]
    case EpistemicChanged(n, to) => states[n := to]
    case RefinementRequested(n) => states[n := NeedsRefinement]
    case _ => states
  }

  ghost function TaintsAfter(states: States, taint: Taints, e: Event): (r: Taints)
    requires states.Keys == taint.Keys && Applies(states, e)
    ensures r.Keys == StatesAfter(states, e).Keys
  {
    match e
    case NodeCreated(n) => taint[n := Unresolved]
    case EpistemicChanged(n, to) => assert states[n := to].Keys == states.Keys; Recomputed(states[n := to], taint, n)
    case TaintRecomputed(n, t) => taint[n := t]
    case _ => taint
  }

  /** What keeps all taints right: no node is created above one that is not unresolved, and a recorded taint is the right one. */
  ghost predicate KeepsSync(states: States, e: Event)
    requires Applies(states, e)
  {
    match e
    case NodeCreated(n) => forall q :: q in states && IsAncestorOf(n, q) ==> TaintOf(states, q).Unresolved?
    case TaintRecomputed(n, t) => t == TaintOf(states, n)
    case _ => true
  }

  /** If only n and the nodes below it can be wrong, everything is right after the recomputation. */
  lemma RecomputeSync(states: States, taint: Taints, n: NodeId)
    requires states.Keys == taint.Keys && n in states
    requires forall m :: m in states && !(n <= m) ==> Local(states, taint, m)
    ensures InSync(states, Recomputed(states, taint, n))
  {
    hide Retainted;
    var r := Recomputed(states, taint, n);
    forall m | m in states ensures Local(states, r, m) {
      if n <= m {
        RecomputedLocal(states, taint, n, m);
      } else {
        UntouchedAbove(states, taint, n, m);
        LocalDepends(states, taint, states, r, m);
      }
    }
    SyncExactly(states, r);
  }

  lemma UntouchedAbove(states: States, taint: Taints, n: NodeId, m: NodeId)
    requires states.Keys == taint.Keys && m in states && !(n <= m)
    ensures
      var r := Recomputed(states, taint, n);
      r[m] == taint[m] && forall a :: AncestorIn(states, m, a) ==> r[a] == taint[a]
  {
    assert Retainted(states, taint, n, m) == taint[m];
    forall a | AncestorIn(states, m, a) ensures Recomputed(states, taint, n)[a] == taint[a] {
      assert Retainted(states, taint, n, a) == taint[a];
    }
  }

  lemma ChangedSync(states: States, taint: Taints, n: NodeId, to: Epistemic)
    requires InSync(states, taint) && n in states
    ensures states[n := to].Keys == taint.Keys && InSync(states[n := to], Recomputed(states[n := to], taint, n))
  {
    var states' := states[n := to];
    assert states'.Keys == states.Keys;
    SyncExactly(states, taint);
    forall m | m in states' && !(n <= m) ensures Local(states', taint, m) { LocalDepends(states, taint, states', taint, m); }
    RecomputeSync(states', taint, n);
  }

  /** One event applied where all taints are right: they are right afterwards exactly if it is one that keeps them so. */
  lemma EventSyncExactly(states: States, taint: Taints, e: Event)
    requires InSync(states, taint) && Applies(states, e)
    ensures InSync(StatesAfter(states, e), TaintsAfter(states, taint, e)) <==> KeepsSync(states, e)
  {
    hide Recomputed;
    match e
    case NodeCreated(n) => CreatedSync(states, taint, n);
    case EpistemicChanged(n, to) => ChangedSync(states, taint, n, to);
    case RefinementRequested(n) => RefinementSync(states, taint, n);
    case TaintRecomputed(n, t) =>
      var after := taint[n := t];
      assert after.Keys == states.Keys && forall m :: m in states && m != n ==> after[m] == TaintOf(states, m);
      assert after[n] == t;
    case OtherEvent =>
  }

  /** A new pending node: what lies below it must be unresolved already, the rest does not notice. */
  lemma CreatedSync(states: States, taint: Taints, n: NodeId)
    requires InSync(states, taint)
    ensures InSync(states[n := Pending], taint[n := Unresolved]) <==> KeepsSync(states, NodeCreated(n))
  {
    var states', taint' := states[n := Pending], taint[n := Unresolved];
    assert states'.Keys == taint'.Keys;
    forall m | m in states && m != n ensures TaintOf(states', m) == if IsAncestorOf(n, m) then Unresolved else TaintOf(states, m) {
      if IsAncestorOf(n, m) {
        assert AncestorIn(states', m, n) && states'[n].Pending?;
      } else {
        assert forall a :: AncestorIn(states', m, a) <==> AncestorIn(states, m, a);
      }
    }
  }

  /** Validated and needing refinement are alike to the rule. */
  lemma RefinementSync(states: States, taint: Taints, n: NodeId)
    requires InSync(states, taint) && n in states && states[n].Validated?
    ensures InSync(states[n := NeedsRefinement], taint)
  {
    var states' := states[n := NeedsRefinement];
    assert states'.Keys == states.Keys;
    forall m | m in states ensures TaintOf(states', m) == TaintOf(states, m) {
      assert forall a :: AncestorIn(states', m, a) <==> AncestorIn(states, m, a);
    }
  }

  // ---- Whole ledgers ------------------------------------------------------------------------------------------

  ghost predicate AllApply(states: States, events: seq<Event>)
    decreases |events|
  {
    events == [] || (Applies(states, events[0]) && AllApply(StatesAfter(states, events[0]), events[1..]))
  }

  ghost function StatesOf(states: States, events: seq<Event>): States
    decreases |events|
  {
    if events == [] then states else StatesOf(StatesAfter(states, events[0]), events[1..])
  }

  /** No event creates the node anew. */
  predicate NotCreated(events: seq<Event>, n: NodeId) { forall i :: 0 <= i < |events| ==> events[i] != NodeCreated(n) }

  /** Which state an existing node can be given by one event, other than its creation: it is sent back for refinement exactly if it
      was validated, never set back to pending, and judged exactly if it is pending or needs refinement. */
  lemma MovesExactly(states: States, n: NodeId, to: Epistemic)
    requires n in states && to != states[n]
    ensures (exists e :: Applies(states, e) && e != NodeCreated(n) && StatesAfter(states, e)[n] == to) <==>
      match to
      case Pending => false
      case NeedsRefinement => states[n].Validated?
      case _ => states[n].Pending? || states[n].NeedsRefinement?
  {
    var e := if to.NeedsRefinement? then RefinementRequested(n) else EpistemicChanged(n, to);
    assert StatesAfter(states, e)[n] == to;
  }

  /** The states that can come after a state, in the course of any number of events. */
  predicate Leads(from: Epistemic, to: Epistemic) {
    match from
    case Pending => true
    case Validated => !to.Pending?
    case NeedsRefinement => !to.Pending?
    case _ => to == from
  }

  lemma {:induction false} OnlyLeads(states: States, events: seq<Event>, n: NodeId)
    requires n in states && AllApply(states, events) && NotCreated(events, n)
    ensures n in StatesOf(states, events) && Leads(states[n], StatesOf(states, events)[n])
    decreases |events|
  {
    if events != [] {
      var next := StatesAfter(states, events[0]);
      assert events[0] != NodeCreated(n);
      if next[n] != states[n] { MovesExactly(states, n, next[n]); }
      OnlyLeads(next, events[1..], n);
    }
  }

  /** Which states a node of a ledger that loads can come to: admitted, refuted and archived are final; validated and needing
      refinement lead to each other and to these; and all but pending can be reached from pending. */
  lemma PathsExactly(states: States, n: NodeId, to: Epistemic)
    requires n in states
    ensures (exists events :: ComesTo(states, events, n, to)) <==> Leads(states[n], to)
  {
    if events :| ComesTo(states, events, n, to) { OnlyLeads(states, events, n); }
    if Leads(states[n], to) {
      var events := WayTo(states, n, to);
    }
  }

  ghost predicate ComesTo(states: States, events: seq<Event>, n: NodeId, to: Epistemic) {
    AllApply(states, events) && NotCreated(events, n) && n in StatesOf(states, events) && StatesOf(states, events)[n] == to
  }

  lemma WayTo(states: States, n: NodeId, to: Epistemic) returns (events: seq<Event>)
    requires n in states && Leads(states[n], to)
    ensures ComesTo(states, events, n, to)
  {
    var validate, judge, refine := EpistemicChanged(n, Validated), EpistemicChanged(n, to), RefinementRequested(n);
    if to == states[n] {
      events := [];
    } else if to.NeedsRefinement? && !states[n].Validated? {
      events := [validate, refine];
      assert events[1..] == [refine] && [refine][1..] == [];
      assert AllApply(StatesAfter(states, validate), [refine]);
      assert StatesOf(StatesAfter(states, validate), [refine]) == states[n := Validated][n := NeedsRefinement];
    } else if states[n].Validated? && !to.NeedsRefinement? {
      events := [refine, judge];
      assert events[1..] == [judge] && [judge][1..] == [];
      assert AllApply(StatesAfter(states, refine), [judge]);
      assert StatesOf(StatesAfter(states, refine), [judge]) == states[n := NeedsRefinement][n := to];
    } else {
      var e := if to.NeedsRefinement? then refine else judge;
      events := [e];
      assert events[1..] == [];
      assert StatesOf(states, events) == states[n := to];
    }
  }

  ghost function TaintsOf(states: States, taint: Taints, events: seq<Event>): Taints
    requires states.Keys == taint.Keys && AllApply(states, events)
    decreases |events|
  {
    if events == [] then taint
    else TaintsOf(StatesAfter(states, events[0]), TaintsAfter(states, taint, events[0]), events[1..])
  }

  /** All taints are right before the first event and after each. */
  ghost predicate SyncThroughout(states: States, taint: Taints, events: seq<Event>)
    requires states.Keys == taint.Keys && AllApply(states, events)
    decreases |events|
  {
    InSync(states, taint) && (events != [] ==>
      SyncThroughout(StatesAfter(states, events[0]), TaintsAfter(states, taint, events[0]), events[1..]))
  }

  ghost predicate AllKeepSync(states: States, events: seq<Event>)
    requires AllApply(states, events)
    decreases |events|
  {
    events == [] || (KeepsSync(states, events[0]) && AllKeepSync(StatesAfter(states, events[0]), events[1..]))
  }

  /** The taints are right throughout the loading of a ledger exactly if each of its events keeps them right. */
  lemma {:induction false} LedgerSyncExactly(states: States, taint: Taints, events: seq<Event>)
    requires InSync(states, taint) && AllApply(states, events)
    ensures SyncThroughout(states, taint, events) <==> AllKeepSync(states, events)
    ensures AllKeepSync(states, events) ==> InSync(StatesOf(states, events), TaintsOf(states, taint, events))
    decreases |events|
  {
    hide InSync;
    hide KeepsSync;
    hide TaintsAfter;
    hide StatesAfter;
    hide Applies;
    if events != [] {
      EventSyncExactly(states, taint, events[0]);
      SameKeys(states, taint);
      if KeepsSync(states, events[0]) {
        LedgerSyncExactly(StatesAfter(states, events[0]), TaintsAfter(states, taint, events[0]), events[1..]);
      } else {
        NotInSync(StatesAfter(states, events[0]), TaintsAfter(states, taint, events[0]), events[1..]);
      }
    } else {
      SameKeys(states, taint);
    }
  }

  lemma SameKeys(states: States, taint: Taints)
    requires InSync(states, taint)
    ensures states.Keys == taint.Keys
  {
  }

  lemma NotInSync(states: States, taint: Taints, events: seq<Event>)
    requires states.Keys == taint.Keys && AllApply(states, events) && !InSync(states, taint)
    ensures !SyncThroughout(states, taint, events)
  {
  }

  /** Parents before children, and every recorded taint the right one: that is enough. */
  ghost predicate Orderly(states: States, events: seq<Event>)
    requires AllApply(states, events)
    decreases |events|
  {
    events == [] ||
    ( && (events[0].NodeCreated? ==> forall q :: q in states ==> !IsAncestorOf(events[0].id, q))
      && (events[0].TaintRecomputed? ==> events[0].newTaint == TaintOf(states, events[0].id))
      && Orderly(StatesAfter(states, events[0]), events[1..]))
  }

  lemma {:induction false} OrderlyKeepsSync(states: States, events: seq<Event>)
    requires AllApply(states, events) && Orderly(states, events)
    ensures AllKeepSync(states, events)
    decreases |events|
  {
    if events != [] { OrderlyKeepsSync(StatesAfter(states, events[0]), events[1..]); }
  }

  /** Loading a ledger: succeeds exactly if every event applies, to the state that the events add up to. */
  method Load(events: seq<Event>) returns (s: ProofState, ok: bool)
    ensures s.Valid() && (ok <==> AllApply(map[], events))
    ensures ok ==> s.states == StatesOf(map[], events) && s.taint == TaintsOf(map[], map[], events)
    ensures ok && AllKeepSync(map[], events) ==> InSync(s.states, s.taint)
  {
    hide TaintsAfter;
    hide StatesAfter;
    hide Applies;
    hide InSync;
    hide AllKeepSync;
    s := new ProofState();
    ok := true;
    EmptySync();
    assert events[0..] == events;
    for i := 0 to |events|
      invariant fresh(s) && s.Valid() && (AllApply(map[], events) <==> AllApply(s.states, events[i..]))
      invariant AllApply(map[], events) ==> StatesOf(map[], events) == StatesOf(s.states, events[i..])
      invariant AllApply(map[], events) ==> TaintsOf(map[], map[], events) == TaintsOf(s.states, s.taint, events[i..])
    {
      assert events[i..][0] == events[i] && events[i..][1..] == events[i + 1..];
      ok := s.ApplyEvent(events[i]);
      if !ok { return; }
    }
    if AllKeepSync(map[], events) { LedgerSyncExactly(map[], map[], events); }
  }

  lemma EmptySync()
    ensures InSync(map[], map[])
  {
  }
}
