/**
  internal/export/export.go: building, sorting and printing the tree, as the program does it.
  A tree node is named by its identifier; the table `children` holds the child lists that the
  program appends to and sorts in place.
 */
module ExportMarkdown {
  import opened Graph
  import opened Lexicographic
  import opened Sorting
  import opened ExportTree

  /** What is printed for one node: the header level and what depends on the node alone. */
  datatype Heading = Heading(level: int, id: NodeId, details: string)

  function Level(depth: int): int { if depth + 1 > 6 then 6 else depth + 1 }

  function Title(details: map<NodeId, string>, id: NodeId, depth: int): Heading {
    Heading(Level(depth), id, if id in details then details[id] else "")
  }

  /** The headings for a list of nodes; `shift` is what the depth exceeds the length of the identifier by. */
  ghost function Titled(details: map<NodeId, string>, s: seq<NodeId>, shift: int): seq<Heading> {
    seq(|s|, i requires 0 <= i < |s| => Title(details, s[i], |s[i]| + shift))
  }

  lemma TitledConcat(details: map<NodeId, string>, s: seq<NodeId>, t: seq<NodeId>, shift: int)
    ensures Titled(details, s + t, shift) == Titled(details, s, shift) + Titled(details, t, shift)
  {
  }

  lemma TitledOne(details: map<NodeId, string>, p: NodeId, shift: int)
    ensures Titled(details, [p], shift) == [Title(details, p, |p| + shift)]
  {
  }

  function MaxLength(ids: seq<NodeId>): (max: nat)
    ensures forall q :: q in ids ==> |q| <= max
  {
    if ids == [] then 0
    else
      var rest := MaxLength(ids[1..]);
      if |ids[0]| > rest then |ids[0]| else rest
  }

  /** The same nodes with their child lists rearranged. */
  ghost predicate Rearranged(before: Children, after: Children) {
    after.Keys == before.Keys && forall q :: q in before ==> multiset(after[q]) == multiset(before[q])
  }

  lemma RearrangedLinked(before: Children, after: Children, max: nat)
    requires Linked(before, max) && Rearranged(before, after)
    ensures Linked(after, max)
  {
    forall p | p in after ensures NoRepeats(after[p]) && forall c :: c in after[p] <==> c in before[p] {
      forall c ensures c in after[p] <==> c in before[p] {
        assert c in multiset(after[p]) <==> c in multiset(before[p]);
      }
      forall i, j | 0 <= i < j < |after[p]| ensures after[p][i] != after[p][j] {
        if after[p][i] == after[p][j] {
          TwiceCounts(after[p], i, j);
          OccursOnce(before[p], after[p][i]);
        }
      }
    }
  }

  /** The child lists of the nodes in `on` are sorted, the others as they were. */
  ghost predicate SortedOn(before: Children, after: Children, on: set<NodeId>) {
    && after.Keys == before.Keys
    && forall q :: q in before ==> after[q] == if q in on then Sort(IdLeq, before[q]) else before[q]
  }

  lemma SortedOnLinked(before: Children, after: Children, on: set<NodeId>, max: nat)
    requires Linked(before, max) && SortedOn(before, after, on)
    ensures Linked(after, max)
  {
    hide Linked;
    IdOrder();
    forall q | q in before ensures multiset(after[q]) == multiset(before[q]) { SortIsSortedPermutation(IdLeq, before[q]); }
    RearrangedLinked(before, after, max);
  }

  lemma SortedOnTwice(a: Children, b: Children, c: Children, s: set<NodeId>, t: set<NodeId>)
    requires SortedOn(a, b, s) && SortedOn(b, c, t) && s !! t
    ensures SortedOn(a, c, s + t)
  {
  }

  ghost function Subtree(ids: set<NodeId>, p: NodeId): set<NodeId> { set q | q in ids && Connected(ids, p, q) }

  /** Node p and what lies below its first i children. */
  ghost function Covered(ids: set<NodeId>, p: NodeId, cs: seq<NodeId>, i: nat): set<NodeId> {
    set q | q in ids && (q == p || exists j :: 0 <= j < i <= |cs| && Connected(ids, cs[j], q))
  }

  lemma BranchesDiffer(p: NodeId, c: NodeId, d: NodeId, q: NodeId)
    requires IsChild(c, p) && IsChild(d, p) && c != d
    ensures !(c <= q && d <= q)
  {
    assert c <= q ==> q[..|p| + 1] == c;
    assert d <= q ==> q[..|p| + 1] == d;
  }

  lemma CoveredStep(ids: set<NodeId>, p: NodeId, cs: seq<NodeId>, i: nat)
    requires i < |cs| && NoRepeats(cs) && forall c :: c in cs ==> IsChild(c, p)
    ensures Covered(ids, p, cs, i + 1) == Covered(ids, p, cs, i) + Subtree(ids, cs[i])
    ensures Covered(ids, p, cs, i) !! Subtree(ids, cs[i])
  {
    assert IsChild(cs[i], p);
    forall q, j | 0 <= j < i ensures !(Connected(ids, cs[j], q) && Connected(ids, cs[i], q)) {
      BranchesDiffer(p, cs[j], cs[i], q);
    }
  }

  lemma CoveredEnds(kids: Children, p: NodeId, max: nat)
    requires Linked(kids, max) && p in kids
    ensures Covered(kids.Keys, p, kids[p], 0) == {p}
    ensures Covered(kids.Keys, p, kids[p], |kids[p]|) == Subtree(kids.Keys, p)
  {
    var ids := kids.Keys;
    forall q | q in ids ensures q in Covered(ids, p, kids[p], |kids[p]|) <==> q in Subtree(ids, p) {
      ConnectedByChild(kids, p, q, max);
    }
  }

  // ---- Hanging the nodes under their parents ---------------------------------------------------------

  /** The child lists hold, once each, those of the nodes done so far that belong there. */
  ghost predicate Partly(kids: Children, done: seq<NodeId>) {
    && (forall p :: p in kids ==> NoRepeats(kids[p]))
    && (forall p, c :: p in kids ==> (c in kids[p] <==> c in done && IsChild(c, p)))
  }

  function Attach(kids: Children, n: NodeId): Children {
    if n == ROOT || |n| <= 1 then kids
    else
      var parent: NodeId := n[..|n| - 1];
      if parent in kids then kids[parent := kids[parent] + [n]] else kids
  }

  lemma OnlyParent(n: NodeId, p: NodeId)
    ensures IsChild(n, p) <==> |n| > 1 && p == n[..|n| - 1]
  {
  }

  lemma AttachStep(kids: Children, done: seq<NodeId>, n: NodeId)
    requires Partly(kids, done) && n !in done
    ensures Partly(Attach(kids, n), done + [n]) && Attach(kids, n).Keys == kids.Keys
  {
    var after := Attach(kids, n);
    forall p, c | p in after ensures c in after[p] <==> c in done + [n] && IsChild(c, p) { OnlyParent(n, p); }
  }

  lemma NothingAttached(kids: Children)
    requires forall p :: p in kids ==> kids[p] == []
    ensures Partly(kids, [])
  {
  }

  lemma PartlyAll(kids: Children, ids: seq<NodeId>)
    requires Partly(kids, ids) && kids.Keys == SeqToSet(ids)
    ensures Linked(kids, MaxLength(ids))
  {
  }

  lemma ChildIsDeeper(kids: Children, p: NodeId, c: NodeId, max: nat)
    requires Linked(kids, max) && p in kids && c in kids[p]
    ensures c in kids && |c| == |p| + 1 <= max && IsChild(c, p)
  {
  }

  lemma ChildrenListed(kids: Children, p: NodeId, max: nat)
    requires Linked(kids, max) && p in kids
    ensures NoRepeats(kids[p]) && forall c :: c in kids[p] ==> IsChild(c, p)
  {
  }

  /** Sorting below a child leaves the child list of the parent alone. */
  lemma SubtreeBelow(ids: set<NodeId>, p: NodeId, c: NodeId, before: Children, after: Children)
    requires p in before && IsChild(c, p) && SortedOn(before, after, Subtree(ids, c))
    ensures after.Keys == before.Keys && after[p] == before[p]
  {
  }

  lemma ForestStep(kids: Children, p: NodeId, i: nat, max: nat)
    requires Linked(kids, max) && p in kids && i < |kids[p]|
    ensures kids[p][i] in kids
    ensures Forest(kids, kids[p][i..], p, max) == Preorder(kids, kids[p][i], max) + Forest(kids, kids[p][i + 1..], p, max)
  {
    hide Preorder;
    assert kids[p][i] in kids[p];
    assert kids[p][i..][1..] == kids[p][i + 1..];
  }

  lemma PreorderEnds(kids: Children, p: NodeId, max: nat)
    requires Linked(kids, max) && p in kids
    ensures Preorder(kids, p, max) == [p] + Forest(kids, kids[p][0..], p, max)
    ensures Forest(kids, kids[p][|kids[p]|..], p, max) == []
  {
    assert kids[p][0..] == kids[p];
  }

  lemma SortOne(kids: Children, p: NodeId, max: nat)
    requires Linked(kids, max) && p in kids
    ensures
      var after, cs := kids[p := Sort(IdLeq, kids[p])], Sort(IdLeq, kids[p]);
      && Linked(after, max)
      && SortedOn(kids, after, Covered(kids.Keys, p, cs, 0))
      && Covered(kids.Keys, p, cs, |cs|) == Subtree(kids.Keys, p)
      && NoRepeats(cs) && forall c :: c in cs ==> IsChild(c, p)
  {
    var after := kids[p := Sort(IdLeq, kids[p])];
    assert SortedOn(kids, after, {p});
    SortedOnLinked(kids, after, {p}, max);
    CoveredEnds(after, p, max);
    ChildrenListed(after, p, max);
  }

  class Tree {
    const details: map<NodeId, string>
    var children: Children

    /** buildTree up to the sorting: an empty child list for each node, then each node under its parent. */
    constructor (details: map<NodeId, string>, ids: seq<NodeId>)
      requires NoRepeats(ids)
      ensures this.details == details
      ensures children.Keys == SeqToSet(ids) && Linked(children, MaxLength(ids))
    {
      this.details := details;
      children := map[];
      new;
      for i := 0 to |ids|
        invariant children.Keys == SeqToSet(ids[..i])
        invariant forall p :: p in children ==> children[p] == []
      {
        assert ids[..i + 1] == ids[..i] + [ids[i]];
        children := children[ids[i] := []];
      }
      assert ids[..|ids|] == ids;
      hide Partly;
      hide Attach;
      NothingAttached(children);
      for i := 0 to |ids|
        invariant children.Keys == SeqToSet(ids) && Partly(children, ids[..i])
      {
        assert ids[..i + 1] == ids[..i] + [ids[i]];
        AttachStep(children, ids[..i], ids[i]);
        children := Attach(children, ids[i]);
      }
      PartlyAll(children, ids);
    }

    /** sortTreeChildren: sorts the child lists of p and of everything below p, and no others. */
    method SortTreeChildren(p: NodeId, ghost max: nat)
      requires Linked(children, max) && p in children
      modifies this`children
      ensures children.Keys == old(children.Keys)
      ensures SortedOn(old(children), children, Subtree(children.Keys, p))
      decreases max - |p|
    {
      hide *;
      ghost var was, ids := children, children.Keys;
      SortOne(was, p, max);
      children := children[p := Sort(IdLeq, children[p])];
      var cs := children[p];
      for i := 0 to |cs|
        invariant p in children && children[p] == cs && children.Keys == ids && Linked(children, max)
        invariant SortedOn(was, children, Covered(ids, p, cs, i))
      {
        CoveredStep(ids, p, cs, i);
        ChildIsDeeper(children, p, cs[i], max);
        ghost var before := children;
        SortTreeChildren(cs[i], max);
        SubtreeBelow(ids, p, cs[i], before, children);
        SortedOnTwice(was, before, children, Covered(ids, p, cs, i), Subtree(ids, cs[i]));
        SortedOnLinked(before, children, Subtree(ids, cs[i]), max);
      }
    }

    /** renderMarkdownNode: appends the headings of p and of everything below it to the output. */
    method RenderMarkdownNode(sb: seq<Heading>, p: NodeId, depth: int, ghost max: nat) returns (out: seq<Heading>)
      requires Linked(children, max) && p in children
      ensures out == sb + Titled(details, Preorder(children, p, max), depth - |p|)
      decreases max - |p|
    {
      hide Titled;
      hide Linked;
      hide Title;
      hide Preorder;
      hide Forest;
      ghost var shift := depth - |p|;
      out := sb + [Title(details, p, depth)];
      TitledOne(details, p, shift);
      PreorderEnds(children, p, max);
      var cs := children[p];
      ghost var done := [p];
      for i := 0 to |cs|
        invariant forall c :: c in cs[i..] ==> c in children[p]
        invariant Preorder(children, p, max) == done + Forest(children, cs[i..], p, max)
        invariant out == sb + Titled(details, done, shift)
      {
        ChildIsDeeper(children, p, cs[i], max);
        ForestStep(children, p, i, max);
        out := RenderMarkdownNode(out, cs[i], depth + 1, max);
        TitledConcat(details, done, Preorder(children, cs[i], max), shift);
        done := done + Preorder(children, cs[i], max);
      }
      assert done == Preorder(children, p, max);
    }
  }

  lemma SortedTreeIsPrinted(linked: Children, kids: Children, ids: seq<NodeId>, max: nat)
    requires Linked(linked, max) && SortedOn(linked, kids, Subtree(linked.Keys, ROOT)) && ROOT in linked
    requires NoRepeats(ids) && linked.Keys == SeqToSet(ids)
    ensures Linked(kids, max) && Preorder(kids, ROOT, max) == Printed(ids)
  {
    hide Increasing;
    forall q | q in linked ensures NoRepeats(linked[q]) {}
    SortedOnLinked(linked, kids, Subtree(linked.Keys, ROOT), max);
    forall q | q in linked && Connected(linked.Keys, ROOT, q) ensures Increasing(kids[q]) { SortIncreasing(linked[q]); }
    PreorderIsPrinted(kids, ids, max);
  }

  lemma NothingPrinted(ids: seq<NodeId>)
    requires NoRepeats(ids) && ROOT !in ids
    ensures Printed(ids) == []
  {
    PrintedExactly(ids);
    assert |Printed(ids)| > 0 ==> Printed(ids)[0] in Printed(ids);
    forall q ensures q !in Printed(ids) { assert ROOT <= q ==> q[..1] == ROOT; }
  }

  lemma SortedList(ids: seq<NodeId>)
    requires NoRepeats(ids)
    ensures NoRepeats(Sort(IdLeq, ids)) && SeqToSet(Sort(IdLeq, ids)) == SeqToSet(ids)
  {
    SortIncreasing(ids);
  }

  /** ToMarkdown on the nodes of a proof, listed in any order. */
  method ToMarkdown(details: map<NodeId, string>, ids: seq<NodeId>) returns (out: seq<Heading>)
    requires NoRepeats(ids)
    ensures out == Titled(details, Printed(ids), 0)
    ensures forall i :: 0 <= i < |out| && out[i].id in details ==> out[i].details == details[out[i].id]
    ensures forall i :: 0 <= i < |out| && out[i].id == ROOT ==> out[i].level == 2
    ensures forall i, j :: 0 <= i < |out| && 0 <= j < |out| && IsChild(out[j].id, out[i].id) ==>
      out[j].level == if out[i].level < 6 then out[i].level + 1 else 6
  {
    hide Linked;
    hide Printed;
    hide SortedOn;
    hide Sort;
    hide IsChild;
    var sorted := Sort(IdLeq, ids);
    SortedList(ids);
    var tree := new Tree(details, sorted);
    ghost var max := MaxLength(sorted);
    if ROOT !in tree.children {
      NothingPrinted(ids);
      return [];
    }
    ghost var linked := tree.children;
    tree.SortTreeChildren(ROOT, max);
    SortedTreeIsPrinted(linked, tree.children, ids, max);
    out := tree.RenderMarkdownNode([], ROOT, 1, max);
    assert out == Titled(details, Printed(ids), 0);
    Headings(details, Printed(ids));
  }

  /** The root is a heading of the second level, a child one level below its parent, down to the sixth. */
  lemma Headings(details: map<NodeId, string>, s: seq<NodeId>)
    ensures
      var out := Titled(details, s, 0);
      && (forall i :: 0 <= i < |out| && out[i].id in details ==> out[i].details == details[out[i].id])
      && (forall i :: 0 <= i < |out| && out[i].id == ROOT ==> out[i].level == 2)
      && (forall i, j :: 0 <= i < |out| && 0 <= j < |out| && IsChild(out[j].id, out[i].id) ==>
            out[j].level == if out[i].level < 6 then out[i].level + 1 else 6)
  {
  }
}
