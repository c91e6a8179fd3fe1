/**
  internal/export/export.go: from a flat list of proof nodes to the tree that is printed.
 */
module ExportTree {
  import opened Graph
  import opened Lexicographic
  import opened Sorting

  /** A node identifier such as 1.2.3; the parent drops the last part. */
  type NodeId = s: seq<int> | s != [] witness [1]

  const ROOT: NodeId := [1]

  // ---- compareNodeIDs ------------------------------------------------------------------------------

  predicate IdLeq(a: NodeId, b: NodeId) { Leq(a, b) }

  method CompareNodeIDs(a: NodeId, b: NodeId) returns (r: int)
    ensures r == -1 <==> Less(a, b)
    ensures r == 0 <==> a == b
    ensures r == 1 <==> Less(b, a)
  {
    LeqAntisymmetric(a, b);
    var minLen := if |b| < |a| then |b| else |a|;
    for i := 0 to minLen
      invariant a[..i] == b[..i]
    {
      if a[i] < b[i] { assert Below(a, b, i); return -1; }
      if a[i] > b[i] { assert Below(b, a, i); return 1; }
    }
    if |a| < |b| { return -1; }
    if |a| > |b| { return 1; }
    return 0;
  }

  lemma IdOrder()
    ensures TotalOrder(IdLeq)
  {
    forall a: NodeId, b: NodeId ensures IdLeq(a, b) || IdLeq(b, a) { LeqTotal(a, b); }
    forall a: NodeId, b: NodeId | IdLeq(a, b) && IdLeq(b, a) ensures a == b { LeqAntisymmetric(a, b); }
    forall a: NodeId, b: NodeId, c: NodeId | IdLeq(a, b) && IdLeq(b, c) ensures IdLeq(a, c) { LeqTransitive(a, b, c); }
  }

  // ---- The tree as a table of children ---------------------------------------------------------------

  type Children = map<NodeId, seq<NodeId>>

  ghost predicate IsChild(c: NodeId, p: NodeId) { |c| == |p| + 1 && p <= c }

  /** Every node lists exactly the existing nodes below it, each once; no identifier is longer than `max`. */
  ghost predicate Linked(kids: Children, max: nat) {
    && (forall p :: p in kids ==> |p| <= max && NoRepeats(kids[p]))
    && (forall p, c :: p in kids && c in kids[p] ==> c in kids && IsChild(c, p))
    && (forall p, c :: p in kids && c in kids && IsChild(c, p) ==> c in kids[p])
  }

  /** q lies below p, or is p, and so do all identifiers in between, which exist. */
  ghost predicate Connected(ids: set<NodeId>, p: NodeId, q: NodeId) {
    p <= q && forall k :: |p| <= k <= |q| ==> q[..k] in ids
  }

  /** Every ancestor of q exists. */
  ghost predicate Rooted(ids: set<NodeId>, q: NodeId) { Connected(ids, ROOT, q) }

  ghost function Preorder(kids: Children, p: NodeId, max: nat): seq<NodeId>
    requires Linked(kids, max) && p in kids
    decreases max - |p|, 1, 0
  {
    [p] + Forest(kids, kids[p], p, max)
  }

  ghost function Forest(kids: Children, cs: seq<NodeId>, p: NodeId, max: nat): seq<NodeId>
    requires Linked(kids, max) && p in kids && forall c :: c in cs ==> c in kids[p]
    decreases max - |p|, 0, |cs|
  {
    if cs == [] then [] else Preorder(kids, cs[0], max) + Forest(kids, cs[1..], p, max)
  }

  // ---- Which nodes are printed ---------------------------------------------------------------------------

  lemma ConnectedByChild(kids: Children, p: NodeId, q: NodeId, max: nat)
    requires Linked(kids, max) && p in kids
    ensures Connected(kids.Keys, p, q) <==> q == p || exists c :: c in kids[p] && Connected(kids.Keys, c, q)
  {
    if Connected(kids.Keys, p, q) && q != p {
      var c := q[..|p| + 1];
      assert c in kids.Keys && IsChild(c, p);
      assert Connected(kids.Keys, c, q);
    }
    if c :| c in kids[p] && Connected(kids.Keys, c, q) {
      assert IsChild(c, p);
      forall k | |p| <= k <= |q| ensures q[..k] in kids.Keys {
        if k == |p| { assert q[..k] == c[..k] == p; }
      }
    }
    assert p[..|p|] == p;
  }

  lemma {:induction false} PreorderMembers(kids: Children, p: NodeId, q: NodeId, max: nat)
    requires Linked(kids, max) && p in kids
    ensures q in Preorder(kids, p, max) <==> Connected(kids.Keys, p, q)
    decreases max - |p|, 1, 0
  {
    ForestMembers(kids, kids[p], p, q, max);
    ConnectedByChild(kids, p, q, max);
  }

  lemma {:induction false} ForestMembers(kids: Children, cs: seq<NodeId>, p: NodeId, q: NodeId, max: nat)
    requires Linked(kids, max) && p in kids && forall c :: c in cs ==> c in kids[p]
    ensures q in Forest(kids, cs, p, max) <==> exists c :: c in cs && Connected(kids.Keys, c, q)
    decreases max - |p|, 0, |cs|
  {
    if cs != [] {
      assert IsChild(cs[0], p);
      PreorderMembers(kids, cs[0], q, max);
      ForestMembers(kids, cs[1..], p, q, max);
      assert cs == [cs[0]] + cs[1..];
    }
  }

  // ---- In which order ------------------------------------------------------------------------------------

  ghost predicate Increasing(s: seq<NodeId>) { forall i, j :: 0 <= i < j < |s| ==> Less(s[i], s[j]) }

  /** Everything below the smaller of two siblings comes before everything below the larger. */
  lemma BranchesApart(c: NodeId, d: NodeId, q: NodeId, r: NodeId)
    requires |c| == |d| && Less(c, d) && c <= q && d <= r
    ensures Less(q, r)
  {
    var k :| 0 <= k < |c| && Below(c, d, k);
    assert q[..k] == c[..k] && r[..k] == d[..k];
    assert Below(q, r, k);
  }

  lemma IncreasingConcat(s: seq<NodeId>, t: seq<NodeId>)
    requires Increasing(s) && Increasing(t)
    requires forall q, r :: q in s && r in t ==> Less(q, r)
    ensures Increasing(s + t)
  {
  }

  /** A node comes before everything below it. */
  lemma ForestBelow(kids: Children, p: NodeId, max: nat, r: NodeId)
    requires Linked(kids, max) && p in kids && r in Forest(kids, kids[p], p, max)
    ensures Less(p, r)
  {
    hide Preorder;
    hide Forest;
    ForestMembers(kids, kids[p], p, r, max);
    var c :| c in kids[p] && Connected(kids.Keys, c, r);
    assert IsChild(c, p);
  }

  /** Everything below c comes before everything below its larger siblings. */
  lemma ForestAfter(kids: Children, c: NodeId, cs: seq<NodeId>, p: NodeId, max: nat, q: NodeId, r: NodeId)
    requires Linked(kids, max) && p in kids && c in kids[p] && forall d :: d in cs ==> d in kids[p] && Less(c, d)
    requires q in Preorder(kids, c, max) && r in Forest(kids, cs, p, max)
    ensures Less(q, r)
  {
    hide Preorder;
    hide Forest;
    hide Less;
    PreorderMembers(kids, c, q, max);
    ForestMembers(kids, cs, p, r, max);
    var d :| d in cs && Connected(kids.Keys, d, r);
    assert IsChild(c, p) && IsChild(d, p);
    BranchesApart(c, d, q, r);
  }

  /** The child lists of p and of everything below it are in order. */
  ghost predicate SortedBelow(kids: Children, p: NodeId) {
    forall q :: q in kids && Connected(kids.Keys, p, q) ==> Increasing(kids[q])
  }

  lemma SortedBelowChild(kids: Children, p: NodeId, c: NodeId, max: nat)
    requires Linked(kids, max) && p in kids && c in kids[p] && SortedBelow(kids, p)
    ensures SortedBelow(kids, c) && Increasing(kids[p])
  {
    hide Increasing;
    forall q | q in kids && Connected(kids.Keys, c, q) ensures Increasing(kids[q]) { ConnectedByChild(kids, p, q, max); }
    ConnectedByChild(kids, p, p, max);
  }

  lemma {:induction false} PreorderIncreasing(kids: Children, p: NodeId, max: nat)
    requires Linked(kids, max) && p in kids && SortedBelow(kids, p)
    ensures Increasing(Preorder(kids, p, max))
    decreases max - |p|, 1, 0
  {
    hide Less;
    hide Forest;
    var below := Forest(kids, kids[p], p, max);
    ConnectedByChild(kids, p, p, max);
    ForestIncreasing(kids, kids[p], p, max);
    forall r | r in below ensures Less(p, r) { ForestBelow(kids, p, max, r); }
    IncreasingConcat([p], below);
  }

  lemma {:induction false} ForestIncreasing(kids: Children, cs: seq<NodeId>, p: NodeId, max: nat)
    requires Linked(kids, max) && p in kids && forall c :: c in cs ==> c in kids[p]
    requires SortedBelow(kids, p) && Increasing(cs)
    ensures Increasing(Forest(kids, cs, p, max))
    decreases max - |p|, 0, |cs|
  {
    hide Less;
    hide Preorder;
    if cs != [] {
      assert IsChild(cs[0], p);
      var first, rest := Preorder(kids, cs[0], max), Forest(kids, cs[1..], p, max);
      SortedBelowChild(kids, p, cs[0], max);
      PreorderIncreasing(kids, cs[0], max);
      ForestIncreasing(kids, cs[1..], p, max);
      forall q, r | q in first && r in rest ensures Less(q, r) { ForestAfter(kids, cs[0], cs[1..], p, max, q, r); }
      IncreasingConcat(first, rest);
    }
  }

  lemma {:induction false} OccursOnce(s: seq<NodeId>, q: NodeId)
    requires NoRepeats(s)
    ensures multiset(s)[q] == if q in s then 1 else 0
  {
    if s != [] {
      assert s == [s[0]] + s[1..];
      OccursOnce(s[1..], q);
    }
  }

  function Filter(s: seq<NodeId>, keep: set<NodeId>): seq<NodeId> {
    if s == [] then [] else (if s[0] in keep then [s[0]] else []) + Filter(s[1..], keep)
  }

  lemma {:induction false} FilterMembers(s: seq<NodeId>, keep: set<NodeId>)
    ensures forall q :: q in Filter(s, keep) <==> q in s && q in keep
    ensures NoRepeats(s) ==> NoRepeats(Filter(s, keep))
  {
    if s != [] { FilterMembers(s[1..], keep); }
  }

  /** What is printed: the nodes all of whose ancestors exist, in the order of their identifiers. */
  ghost function Printed(ids: seq<NodeId>): seq<NodeId> {
    Sort(IdLeq, Filter(ids, set q | q in ids && Rooted(SeqToSet(ids), q)))
  }

  lemma SameMembersSameMultiset(s: seq<NodeId>, t: seq<NodeId>)
    requires NoRepeats(s) && NoRepeats(t)
    requires forall q :: q in s <==> q in t
    ensures multiset(s) == multiset(t)
  {
    forall q ensures multiset(s)[q] == multiset(t)[q] {
      OccursOnce(s, q);
      OccursOnce(t, q);
    }
  }

  lemma PreorderIsPrinted(kids: Children, ids: seq<NodeId>, max: nat)
    requires Linked(kids, max) && ROOT in kids && SortedBelow(kids, ROOT)
    requires NoRepeats(ids) && kids.Keys == SeqToSet(ids)
    ensures Preorder(kids, ROOT, max) == Printed(ids)
  {
    var keep := set q | q in ids && Rooted(SeqToSet(ids), q);
    var out := Preorder(kids, ROOT, max);
    PreorderIncreasing(kids, ROOT, max);
    FilterMembers(ids, keep);
    forall q ensures q in out <==> q in Filter(ids, keep) {
      PreorderMembers(kids, ROOT, q, max);
      assert q[..|q|] == q;
    }
    SameMembersSameMultiset(out, Filter(ids, keep));
    IdOrder();
    SortIsSortedPermutation(IdLeq, Filter(ids, keep));
    SortedPermutationIsUnique(IdLeq, out, Printed(ids));
  }

  lemma SortIncreasing(s: seq<NodeId>)
    requires NoRepeats(s)
    ensures Increasing(Sort(IdLeq, s))
    ensures forall q :: q in Sort(IdLeq, s) <==> q in s
  {
    IdOrder();
    SortIsSortedPermutation(IdLeq, s);
    var out := Sort(IdLeq, s);
    forall q ensures q in out <==> q in s { assert q in multiset(out) <==> q in multiset(s); }
    forall i, j | 0 <= i < j < |out| ensures Less(out[i], out[j]) {
      if out[i] == out[j] {
        OccursOnce(s, out[i]);
        TwiceCounts(out, i, j);
      }
    }
  }

  lemma RootedExactly(ids: seq<NodeId>, q: NodeId)
    ensures Rooted(SeqToSet(ids), q) <==> q[0] == 1 && forall k :: 1 <= k <= |q| ==> q[..k] in ids
  {
    assert q[0] == 1 ==> ROOT <= q;
  }

  /** Each node whose ancestors exist is printed once, the others never, and identifiers increase. */
  lemma PrintedExactly(ids: seq<NodeId>)
    requires NoRepeats(ids)
    ensures Increasing(Printed(ids))
    ensures forall q :: q in Printed(ids) <==> Rooted(SeqToSet(ids), q)
    ensures forall q: NodeId :: q in Printed(ids) <==> q[0] == 1 && forall k :: 1 <= k <= |q| ==> q[..k] in ids
  {
    forall q: NodeId ensures Rooted(SeqToSet(ids), q) <==> q[0] == 1 && forall k :: 1 <= k <= |q| ==> q[..k] in ids {
      RootedExactly(ids, q);
    }
    var keep := set q | q in ids && Rooted(SeqToSet(ids), q);
    var kept := Filter(ids, keep);
    FilterMembers(ids, keep);
    SortIncreasing(kept);
    forall q ensures Rooted(SeqToSet(ids), q) ==> q in ids { assert q[..|q|] == q; }
  }

  lemma TwiceCounts(s: seq<NodeId>, i: nat, j: nat)
    requires i < j < |s| && s[i] == s[j]
    ensures multiset(s)[s[i]] >= 2
  {
    assert s == s[..j] + s[j..];
    assert s[..j][i] in multiset(s[..j]) && s[j..][0] in multiset(s[j..]);
  }

  /** If the root exists and every other node has its parent, printing loses nothing: it sorts. */
  lemma ParentClosedPrintsAll(ids: seq<NodeId>)
    requires NoRepeats(ids)
    requires forall q :: q in ids ==> q == ROOT || (|q| > 1 && q[..|q| - 1] in ids)
    ensures Printed(ids) == Sort(IdLeq, ids)
  {
    var keep := set q | q in ids && Rooted(SeqToSet(ids), q);
    forall q | q in ids ensures q in keep { ParentClosedRooted(ids, q); }
    FilterAll(ids, keep);
  }

  lemma {:induction false} ParentClosedRooted(ids: seq<NodeId>, q: NodeId)
    requires forall q :: q in ids ==> q == ROOT || (|q| > 1 && q[..|q| - 1] in ids)
    requires q in ids
    ensures Rooted(SeqToSet(ids), q)
    decreases |q|
  {
    if q == ROOT {
      assert q[..1] == q;
    } else {
      var p: NodeId := q[..|q| - 1];
      ParentClosedRooted(ids, p);
      assert q[..|q|] == q;
      forall k | 1 <= k <= |q| ensures q[..k] in SeqToSet(ids) {
        if k < |q| { assert q[..k] == p[..k]; }
      }
    }
  }

  lemma {:induction false} FilterAll(s: seq<NodeId>, keep: set<NodeId>)
    requires forall q :: q in s ==> q in keep
    ensures Filter(s, keep) == s
  {
    if s != [] { FilterAll(s[1..], keep); }
  }
}
