/**
  Node claims over the ledger: the workflow part of replay (internal/state/apply.go), the
  guarded operations of internal/service/proof.go, and the unguarded release of cmd/af/reap.go.
 */
module Workflow {
  import opened LedgerProtocol
  import opened LedgerSerial
  import opened LedgerCas
  import opened LedgerRuns
  import PersistentLocks

  type NodeID = string

  datatype WorkflowState = Available | Claimed(owner: string)

  /** Ledger events; `Other` stands for every event that leaves the workflow state alone. In the program such an event can fail to
      apply for reasons of its own; here loading means its workflow part. */
  datatype Event =
    | NodeCreated(id: NodeID)
    | NodesClaimed(ids: seq<NodeID>, owner: string)
    | ClaimRefreshed(id: NodeID, owner: string)
    | NodesReleased(ids: seq<NodeID>)
    | Other

  type Table = map<NodeID, WorkflowState>

  /** Claiming goes from available to claimed only; there is no way from claimed to claimed. */
  function ApplyClaims(t: Table, ids: seq<NodeID>, owner: string): Option<Table> {
    if ids == [] then Some(t)
    else if ids[0] in t && t[ids[0]].Available? then ApplyClaims(t[ids[0] := Claimed(owner)], ids[1..], owner)
    else None
  }

  function ApplyReleases(t: Table, ids: seq<NodeID>): Option<Table> {
    if ids == [] then Some(t)
    else if ids[0] in t && t[ids[0]].Claimed? then ApplyReleases(t[ids[0] := Available], ids[1..])
    else None
  }

  function ApplyEvent(t: Table, e: Event): Option<Table> {
    match e
    case NodeCreated(id) => Some(t[id := Available])
    case NodesClaimed(ids, owner) => ApplyClaims(t, ids, owner)
    case ClaimRefreshed(id, owner) => if id in t && t[id] == Claimed(owner) then Some(t) else None
    case NodesReleased(ids) => ApplyReleases(t, ids)
    case Other => Some(t)
  }

  /** Loading the state: an event that does not apply makes the whole ledger unreadable. */
  function Replay(events: seq<Event>): Option<Table> {
    if events == [] then Some(map[])
    else
      var before := Replay(events[..|events| - 1]);
      if before.None? then None else ApplyEvent(before.value, events[|events| - 1])
  }

  lemma ReplaySnoc(events: seq<Event>, e: Event)
    ensures Replay(events + [e]) == (if Replay(events).None? then None else ApplyEvent(Replay(events).value, e))
  {
    assert (events + [e])[..|events|] == events;
  }

  predicate Blank(owner: string) { forall i :: 0 <= i < |owner| ==> PersistentLocks.IsSpace(owner[i]) }

  /** What the service appends by compare-and-swap on the state it loaded. A release names no owner, so that some owner may ask
      for it exactly if the node is claimed. */
  predicate ServiceGuard(read: seq<Event>, e: Event) {
    && Replay(read).Some?
    && var t := Replay(read).value;
       match e
       case NodesClaimed(ids, owner) => !Blank(owner) && |ids| == 1 && ids[0] in t && t[ids[0]].Available?
       case ClaimRefreshed(id, owner) => !Blank(owner) && id in t && t[id] == Claimed(owner)
       case NodesReleased(ids) => |ids| == 1 && ids[0] in t && t[ids[0]].Claimed?
       case _ => true
  }

  /** Events appended without a guard. Creating a node is among them: bulk refinement appends
      all but its first node plainly. */
  predicate WorkflowNeutral(e: Event) { e.NodeCreated? || e.Other? }

  predicate Distinct(ids: seq<NodeID>) { forall i, j :: 0 <= i < j < |ids| ==> ids[i] != ids[j] }

  predicate AllClaimed(t: Table, ids: seq<NodeID>) { forall i :: 0 <= i < |ids| ==> ids[i] in t && t[ids[i]].Claimed? }

  /** What `af reap` checks on the state it loaded: it releases nodes it found claimed, each once. */
  predicate ReapCheck(read: seq<Event>, e: Event) {
    e.NodesReleased? && Replay(read).Some? && Distinct(e.ids) && AllClaimed(Replay(read).value, e.ids)
  }

  predicate NoCheck(read: seq<Event>, e: Event) { false }

  /** The guarded operations alone, and together with reapers, which append plainly after their check. */
  const SERVICE: Clients<Event> := Clients(ServiceGuard, NoCheck, WorkflowNeutral)

  const WITH_REAP: Clients<Event> := Clients(ServiceGuard, ReapCheck, WorkflowNeutral)

  lemma {:induction false} ReleasesExactly(t: Table, ids: seq<NodeID>)
    ensures ApplyReleases(t, ids).Some? <==> Distinct(ids) && AllClaimed(t, ids)
  {
    if ids != [] && ids[0] in t && t[ids[0]].Claimed? {
      var u := t[ids[0] := Available];
      ReleasesExactly(u, ids[1..]);
      if Distinct(ids) && AllClaimed(t, ids) {
        forall i | 0 <= i < |ids[1..]| ensures ids[1..][i] in u && u[ids[1..][i]].Claimed? { assert ids[1..][i] == ids[i + 1]; }
      }
      if Distinct(ids[1..]) && AllClaimed(u, ids[1..]) {
        forall i | 1 <= i < |ids| ensures ids[i] != ids[0] && ids[i] in t && t[ids[i]].Claimed? { assert ids[i] == ids[1..][i - 1]; }
        forall i, j | 0 <= i < j < |ids| ensures ids[i] != ids[j] { if i > 0 { assert ids[1..][i - 1] != ids[1..][j - 1]; } }
      }
    }
  }

  /** A release appended to a ledger that loads leaves one that loads exactly if its nodes are distinct and claimed there. */
  lemma ReleaseAppliesExactly(ledger: seq<Event>, ids: seq<NodeID>)
    requires Replay(ledger).Some?
    ensures Replay(ledger + [NodesReleased(ids)]).Some? <==> Distinct(ids) && AllClaimed(Replay(ledger).value, ids)
  {
    ReplaySnoc(ledger, NodesReleased(ids));
    ReleasesExactly(Replay(ledger).value, ids);
  }

  lemma ApplySingle(t: Table, e: Event)
    requires (e.NodesClaimed? || e.NodesReleased?) && |e.ids| == 1 && e.ids[0] in t && t[e.ids[0]].Claimed? == e.NodesReleased?
    ensures ApplyEvent(t, e) == Some(t[e.ids[0] := if e.NodesReleased? then Available else Claimed(e.owner)])
  {
    var t' := t[e.ids[0] := if e.NodesReleased? then Available else Claimed(e.owner)];
    assert e.ids[1..] == [];
    assert ApplyReleases(t', []) == Some(t') == ApplyClaims(t', [], "");
    if e.NodesClaimed? { assert ApplyClaims(t', [], e.owner) == Some(t'); }
  }

  /** Each event beyond the first n leaves the workflow alone, was guarded on its exact prefix, or is a release of distinct nodes
      that finds them claimed if the ledger before it loads. */
  ghost predicate Applicable(n: nat, ledger: seq<Event>) {
    forall k :: n <= k < |ledger| ==>
      || WorkflowNeutral(ledger[k])
      || ServiceGuard(ledger[..k], ledger[k])
      || (ledger[k].NodesReleased? && Distinct(ledger[k].ids) && Fits(ledger, k))
  }

  /** A release at position k finds all its nodes claimed, if the ledger before it loads. */
  ghost predicate Fits(ledger: seq<Event>, k: nat) {
    k < |ledger| && ledger[k].NodesReleased? && Replay(ledger[..k]).Some? ==>
      AllClaimed(Replay(ledger[..k]).value, ledger[k].ids)
  }

  lemma {:induction false} GuardedLedgerReplays(n: nat, ledger: seq<Event>, k: nat)
    requires Applicable(n, ledger) && n <= k <= |ledger| && Replay(ledger[..n]).Some?
    ensures Replay(ledger[..k]).Some?
    decreases k
  {
    if k > n {
      GuardedLedgerReplays(n, ledger, k - 1);
      var before, e := ledger[..k - 1], ledger[k - 1];
      assert ledger[..k] == before + [e];
      ReplaySnoc(before, e);
      if !WorkflowNeutral(e) && ServiceGuard(before, e) {
        if e.NodesClaimed? || e.NodesReleased? { ApplySingle(Replay(before).value, e); }
      } else if e.NodesReleased? {
        ReleasesExactly(Replay(before).value, e.ids);
      }
    }
  }

  /** Number k was put in place by a reaper: plainly, after a read. */
  ghost predicate Reaped(s: State<Event>, k: nat) {
    && k in s.dir && s.dir[k].author in s.procs && !s.procs[s.dir[k].author].Reading?
    && CallOf(s, k).Append? && CallOf(s, k).looked.Some?
  }

  /** Every release that a reaper appended beyond the first n events fits. */
  ghost predicate ReapsFit(s: State<Event>, n: nat)
    requires Contiguous(s.dir.Keys)
  {
    forall k: nat :: n <= k < |Ledger(s.dir)| && Reaped(s, k + 1) ==> Fits(Ledger(s.dir), k)
  }

  ghost predicate ServiceClients(c: Clients<Event>) { c == SERVICE || c == WITH_REAP }

  lemma EntitledApplies(c: Clients<Event>, s: State<Event>, n: nat)
    requires Contiguous(s.dir.Keys) && Entitled(c, s, n) && ServiceClients(c) && ReapsFit(s, n)
    ensures Applicable(n, Ledger(s.dir))
  {
    hide Replay;
    hide Fits;
    hide ServiceGuard;
    hide Contiguous;
    var ledger := Ledger(s.dir);
    forall k: nat | n <= k < |ledger|
      ensures || WorkflowNeutral(ledger[k]) || ServiceGuard(ledger[..k], ledger[k])
              || (ledger[k].NodesReleased? && Distinct(ledger[k].ids) && Fits(ledger, k))
    {
      assert n < k + 1 <= |ledger| && ledger[k] == ledger[k + 1 - 1] && ledger[..k] == ledger[..k + 1 - 1];
      var call := CallOf(s, k + 1);
      if call.Append? && call.looked.Some? { assert Reaped(s, k + 1); }
    }
  }

  /** Where nobody appends plainly after a read, nobody reaps. */
  lemma NoReapers(s: State<Event>, n: nat)
    requires Contiguous(s.dir.Keys) && Entitled(SERVICE, s, n)
    ensures ReapsFit(s, n)
  {
    hide Replay;
    hide Fits;
    hide ServiceGuard;
    forall k: nat | n < k <= |Ledger(s.dir)| ensures !Reaped(s, k) { assert Vouched(SERVICE, CallOf(s, k)); }
  }

  lemma AllReplays(n: nat, ledger: seq<Event>, first: seq<Event>)
    requires Applicable(n, ledger) && |first| == n && first <= ledger && Replay(first).Some?
    ensures Replay(ledger).Some?
  {
    assert ledger[..n] == first && ledger[..|ledger|] == ledger;
    GuardedLedgerReplays(n, ledger, |ledger|);
  }

  /** In every interleaving of the guarded operations, with any unguarded events that leave the workflow alone, a ledger that could
      be loaded can always be loaded, as far as the workflow states of nodes go: other events may fail for reasons of their own. */
  lemma LedgerStaysReadable(s: State<Event>, n: nat, run: seq<Label<Event>>)
    requires Initial(s, n) && Contiguous(s.dir.Keys) && Replay(Ledger(s.dir)).Some?
    requires IsRun(SERVICE, s, run) && NoRollback(run)
    ensures
      var e := End(SERVICE, s, run);
      Contiguous(e.dir.Keys) && Replay(Ledger(e.dir)).Some?
  {
    hide Replay;
    hide End;
    hide IsRun;
    hide Entitled;
    hide Applicable;
    hide ReapsFit;
    hide Contiguous;
    GuardsHoldInLedger(SERVICE, s, n, run);
    var e := End(SERVICE, s, run);
    NoReapers(e, n);
    EntitledApplies(SERVICE, e, n);
    AllReplays(n, Ledger(e.dir), Ledger(s.dir));
  }

  /** With reapers it can be loaded exactly if every release a reaper appended finds its nodes claimed, in the ledger before it:
      the check made when reading is not enough. */
  lemma ReadableExactly(s: State<Event>, n: nat, run: seq<Label<Event>>)
    requires Initial(s, n) && Contiguous(s.dir.Keys) && Replay(Ledger(s.dir)).Some?
    requires IsRun(WITH_REAP, s, run) && NoRollback(run)
    ensures
      var e := End(WITH_REAP, s, run);
      Contiguous(e.dir.Keys) && (Replay(Ledger(e.dir)).Some? <==> ReapsFit(e, n))
  {
    hide Replay;
    hide End;
    hide IsRun;
    hide Entitled;
    hide Applicable;
    hide Fits;
    hide Contiguous;
    GuardsHoldInLedger(WITH_REAP, s, n, run);
    var e := End(WITH_REAP, s, run);
    if ReapsFit(e, n) {
      EntitledApplies(WITH_REAP, e, n);
      AllReplays(n, Ledger(e.dir), Ledger(s.dir));
    }
    if Replay(Ledger(e.dir)).Some? {
      forall k: nat | n <= k < |Ledger(e.dir)| ensures Fits(Ledger(e.dir), k) { AppliedFits(Ledger(e.dir), k); }
    }
  }

  lemma AppliedFits(ledger: seq<Event>, k: nat)
    requires k < |ledger| && Replay(ledger).Some?
    ensures Fits(ledger, k)
  {
    hide Replay;
    if ledger[k].NodesReleased? {
      ReplayPrefix(ledger, k);
      ReplayPrefix(ledger, k + 1);
      assert ledger[..k + 1] == ledger[..k] + [ledger[k]];
      ReleaseAppliesExactly(ledger[..k], ledger[k].ids);
    }
  }

  // ---- At most one claim at a time --------------------------------------------------------------

  predicate Claims(e: Event, id: NodeID) { e.NodesClaimed? && id in e.ids }

  predicate Frees(e: Event, id: NodeID) { (e.NodesReleased? && id in e.ids) || e == NodeCreated(id) }

  lemma {:induction false} ReplayPrefix(events: seq<Event>, k: nat)
    requires k <= |events| && Replay(events).Some?
    ensures Replay(events[..k]).Some?
  {
    if k == |events| {
      assert events[..k] == events;
    } else {
      ReplayPrefix(events[..|events| - 1], k);
      assert events[..|events| - 1][..k] == events[..k];
    }
  }

  lemma {:induction false} ClaimsEffect(t: Table, ids: seq<NodeID>, owner: string, id: NodeID)
    requires ApplyClaims(t, ids, owner).Some?
    ensures
      var t' := ApplyClaims(t, ids, owner).value;
      && (id in ids ==> id in t && t[id].Available? && id in t' && t'[id] == Claimed(owner))
      && (id !in ids ==> (id in t' <==> id in t) && (id in t ==> t'[id] == t[id]))
  {
    if ids != [] {
      var u := t[ids[0] := Claimed(owner)];
      ClaimsEffect(u, ids[1..], owner, id);
      ClaimsEffect(u, ids[1..], owner, ids[0]);
    }
  }

  lemma {:induction false} ReleasesEffect(t: Table, ids: seq<NodeID>, id: NodeID)
    requires ApplyReleases(t, ids).Some? && id !in ids
    ensures
      var t' := ApplyReleases(t, ids).value;
      (id in t' <==> id in t) && (id in t ==> t'[id] == t[id])
  {
    if ids != [] { ReleasesEffect(t[ids[0] := Available], ids[1..], id); }
  }

  /** One event on a claimed node that it does not free: the node stays claimed, and is not claimed again. */
  lemma ClaimKept(t: Table, e: Event, id: NodeID, owner: string)
    requires ApplyEvent(t, e).Some? && id in t && t[id] == Claimed(owner) && !Frees(e, id)
    ensures
      var t' := ApplyEvent(t, e).value;
      id in t' && t'[id] == Claimed(owner) && !Claims(e, id)
  {
    if e.NodesClaimed? { ClaimsEffect(t, e.ids, e.owner, id); }
    if e.NodesReleased? { ReleasesEffect(t, e.ids, id); }
  }

  /** A claim lasts, for the owner that made it, until an event frees the node. */
  lemma {:induction false} ClaimLasts(events: seq<Event>, i: nat, k: nat, id: NodeID)
    requires i < k <= |events| && Replay(events).Some? && Claims(events[i], id)
    requires forall m :: i < m < k ==> !Frees(events[m], id)
    ensures
      && Replay(events[..k]).Some? && id in Replay(events[..k]).value
      && Replay(events[..k]).value[id] == Claimed(events[i].owner)
      && (forall m :: i < m < k ==> !Claims(events[m], id))
    decreases k
  {
    hide Replay;
    hide Frees;
    hide ApplyClaims;
    hide ApplyReleases;
    ReplayPrefix(events, k);
    ReplayPrefix(events, k - 1);
    assert events[..k] == events[..k - 1] + [events[k - 1]];
    ReplaySnoc(events[..k - 1], events[k - 1]);
    var t, e := Replay(events[..k - 1]).value, events[k - 1];
    if i == k - 1 {
      ClaimsEffect(t, e.ids, e.owner, id);
    } else {
      ClaimLasts(events, i, k - 1, id);
      ClaimKept(t, e, id, events[i].owner);
    }
  }

  /** Event i claims the node for `owner`, and nothing frees it later. */
  ghost predicate ClaimStands(events: seq<Event>, i: int, id: NodeID, owner: string) {
    && 0 <= i < |events| && Claims(events[i], id) && events[i].owner == owner
    && forall m :: i < m < |events| ==> !Frees(events[m], id)
  }

  /** The state of every node of a ledger that loads: it exists exactly if it was created, and is claimed by an owner exactly if
      a claim by that owner stands. */
  lemma {:induction false} ClaimedExactly(events: seq<Event>, id: NodeID, owner: string)
    requires Replay(events).Some?
    ensures id in Replay(events).value <==> exists i :: 0 <= i < |events| && events[i] == NodeCreated(id)
    ensures id in Replay(events).value && Replay(events).value[id] == Claimed(owner) <==>
      exists i :: ClaimStands(events, i, id, owner)
    decreases |events|
  {
    if events != [] {
      var init, e := events[..|events| - 1], events[|events| - 1];
      assert events == init + [e];
      ReplaySnoc(init, e);
      ClaimedExactly(init, id, owner);
      ClaimedStep(init, e, id, owner);
    }
  }

  lemma ClaimedStep(init: seq<Event>, e: Event, id: NodeID, owner: string)
    requires Replay(init).Some? && ApplyEvent(Replay(init).value, e).Some?
    requires id in Replay(init).value <==> exists i :: 0 <= i < |init| && init[i] == NodeCreated(id)
    requires id in Replay(init).value && Replay(init).value[id] == Claimed(owner) <==> exists i :: ClaimStands(init, i, id, owner)
    ensures
      var t', events := ApplyEvent(Replay(init).value, e).value, init + [e];
      && (id in t' <==> exists i :: 0 <= i < |events| && events[i] == NodeCreated(id))
      && (id in t' && t'[id] == Claimed(owner) <==> exists i :: ClaimStands(events, i, id, owner))
  {
    hide Replay;
    var t, events := Replay(init).value, init + [e];
    assert forall i :: 0 <= i < |init| ==> events[i] == init[i];
    assert events[|init|] == e;
    ClaimStandsStep(init, e, id, owner);
    if e.NodesClaimed? { ClaimsEffect(t, e.ids, e.owner, id); }
    if e.NodesReleased? { if id in e.ids { ReleasedAre(t, e.ids, id); } else { ReleasesEffect(t, e.ids, id); } }
  }

  lemma ClaimStandsStep(init: seq<Event>, e: Event, id: NodeID, owner: string)
    ensures (exists i :: ClaimStands(init + [e], i, id, owner)) <==>
      (Claims(e, id) && e.owner == owner) || (!Frees(e, id) && exists i :: ClaimStands(init, i, id, owner))
  {
    var events := init + [e];
    assert forall i :: 0 <= i < |init| ==> events[i] == init[i];
    assert events[|init|] == e;
    if i :| ClaimStands(events, i, id, owner) {
      if i < |init| { assert ClaimStands(init, i, id, owner); }
    }
    if i :| ClaimStands(init, i, id, owner) {
      if !Frees(e, id) { assert ClaimStands(events, i, id, owner); }
    }
    if Claims(e, id) && e.owner == owner { assert ClaimStands(events, |init|, id, owner); }
  }

  lemma {:induction false} ReleasedAre(t: Table, ids: seq<NodeID>, id: NodeID)
    requires ApplyReleases(t, ids).Some? && id in ids
    ensures
      var t' := ApplyReleases(t, ids).value;
      id in t && id in t' && t'[id].Available?
  {
    var u := t[ids[0] := Available];
    if id in ids[1..] { ReleasedAre(u, ids[1..], id); } else { ReleasesEffect(u, ids[1..], id); }
  }

  predicate AllAvailable(t: Table, ids: seq<NodeID>) { forall i :: 0 <= i < |ids| ==> ids[i] in t && t[ids[i]].Available? }

  lemma {:induction false} ClaimsExactly(t: Table, ids: seq<NodeID>, owner: string)
    ensures ApplyClaims(t, ids, owner).Some? <==> Distinct(ids) && AllAvailable(t, ids)
  {
    if ids != [] && ids[0] in t && t[ids[0]].Available? {
      var u := t[ids[0] := Claimed(owner)];
      ClaimsExactly(u, ids[1..], owner);
      if Distinct(ids) && AllAvailable(t, ids) {
        forall i | 0 <= i < |ids[1..]| ensures ids[1..][i] in u && u[ids[1..][i]].Available? { assert ids[1..][i] == ids[i + 1]; }
      }
      if Distinct(ids[1..]) && AllAvailable(u, ids[1..]) {
        forall i | 1 <= i < |ids| ensures ids[i] != ids[0] && ids[i] in t && t[ids[i]].Available? {
          assert ids[i] == ids[1..][i - 1];
        }
        forall i, j | 0 <= i < j < |ids| ensures ids[i] != ids[j] { if i > 0 { assert ids[1..][i - 1] != ids[1..][j - 1]; } }
      }
    }
  }

  /** Likewise a claim exactly if its nodes are distinct, exist and are free; a refresh exactly if the node is claimed by that
      owner, and it changes nothing. */
  lemma ClaimAppliesExactly(ledger: seq<Event>, ids: seq<NodeID>, id: NodeID, owner: string)
    requires Replay(ledger).Some?
    ensures Replay(ledger + [NodesClaimed(ids, owner)]).Some? <==> Distinct(ids) && AllAvailable(Replay(ledger).value, ids)
    ensures Replay(ledger + [ClaimRefreshed(id, owner)]) ==
      if exists i :: ClaimStands(ledger, i, id, owner) then Replay(ledger) else None
  {
    ReplaySnoc(ledger, NodesClaimed(ids, owner));
    ClaimsExactly(Replay(ledger).value, ids, owner);
    ReplaySnoc(ledger, ClaimRefreshed(id, owner));
    ClaimedExactly(ledger, id, owner);
  }

  // ---- The service operations ---------------------------------------------------------------------------------

  datatype Operation =
    | ClaimNode(id: NodeID, owner: string, timeout: int)
    | RefreshClaim(id: NodeID, owner: string, timeout: int)
    | ReleaseNode(id: NodeID, owner: string)

  /** The event submitted by compare-and-swap, or why none is. */
  datatype Reply =
    | Submits(event: Event) | EmptyInput | InvalidTimeout | CannotLoad | NodeNotFound | InvalidState | NotClaimed | OwnerMismatch

  function Operate(read: seq<Event>, op: Operation): Reply {
    match op
    case ClaimNode(id, owner, timeout) =>
      if Blank(owner) then EmptyInput
      else if timeout <= 0 then InvalidTimeout
      else if Replay(read).None? then CannotLoad
      else if id !in Replay(read).value then NodeNotFound
      else if !Replay(read).value[id].Available? then InvalidState
      else Submits(NodesClaimed([id], owner))
    case RefreshClaim(id, owner, timeout) =>
      if Blank(owner) then EmptyInput
      else if timeout <= 0 then InvalidTimeout
      else
        var r := CheckOwner(read, id, owner);
        if r.Submits? then Submits(ClaimRefreshed(id, owner)) else r
    case ReleaseNode(id, owner) => CheckOwner(read, id, owner)
  }

  /** The checks that RefreshClaim and ReleaseNode share. */
  function CheckOwner(read: seq<Event>, id: NodeID, owner: string): Reply {
    if Replay(read).None? then CannotLoad
    else if id !in Replay(read).value then NodeNotFound
    else if !Replay(read).value[id].Claimed? then NotClaimed
    else if Replay(read).value[id] != Claimed(owner) then OwnerMismatch
    else Submits(NodesReleased([id]))
  }

  /** The guard accepts exactly the claims, refreshes and releases that some call of the service submits. */
  lemma GuardExactly(read: seq<Event>, e: Event)
    requires e.NodesClaimed? || e.ClaimRefreshed? || e.NodesReleased?
    ensures ServiceGuard(read, e) <==> exists op :: Operate(read, op) == Submits(e)
  {
    hide Replay;
    hide Blank;
    if ServiceGuard(read, e) {
      var t := Replay(read).value;
      match e
      case NodesClaimed(ids, owner) =>
        assert ids == [ids[0]];
        assert Operate(read, ClaimNode(ids[0], owner, 1)) == Submits(e);
      case ClaimRefreshed(id, owner) => assert Operate(read, RefreshClaim(id, owner, 1)) == Submits(e);
      case NodesReleased(ids) =>
        assert ids == [ids[0]];
        assert Operate(read, ReleaseNode(ids[0], t[ids[0]].owner)) == Submits(e);
    }
  }

  /** An owner is given if some character of it is no white space. */
  lemma GivenExactly(owner: string)
    ensures !Blank(owner) <==> exists i :: 0 <= i < |owner| && !PersistentLocks.IsSpace(owner[i])
  {
  }

  /** The events that leave every ledger that loads one that loads are the neutral ones, and claims and releases of nothing. */
  lemma NeutralExactly(e: Event)
    ensures (forall ledger :: Replay(ledger).Some? ==> Replay(ledger + [e]).Some?) <==>
      e.NodeCreated? || e.Other? || ((e.NodesClaimed? || e.NodesReleased?) && e.ids == [])
    ensures WorkflowNeutral(e) ==> forall ledger :: Replay(ledger).Some? ==> Replay(ledger + [e]).Some?
    ensures e.NodeCreated? || e.Other? ==> WorkflowNeutral(e)
  {
    assert Replay([]).Some?;
    ReplaySnoc([], e);
    forall ledger | Replay(ledger).Some? ensures Replay(ledger + [e]) == ApplyEvent(Replay(ledger).value, e) {
      ReplaySnoc(ledger, e);
    }
  }

  /** Who gets what, on a ledger that loads: a node can be claimed exactly if it was created and no claim stands, and refreshed or
      released exactly by the owner whose claim stands. */
  lemma ServiceExactly(ledger: seq<Event>, id: NodeID, owner: string, timeout: int)
    requires Replay(ledger).Some?
    ensures Operate(ledger, ClaimNode(id, owner, timeout)).Submits? <==>
      && !Blank(owner) && timeout > 0 && (exists i :: 0 <= i < |ledger| && ledger[i] == NodeCreated(id))
      && forall i, o :: !ClaimStands(ledger, i, id, o)
    ensures Operate(ledger, RefreshClaim(id, owner, timeout)).Submits? <==>
      !Blank(owner) && timeout > 0 && exists i :: ClaimStands(ledger, i, id, owner)
    ensures Operate(ledger, ReleaseNode(id, owner)).Submits? <==> exists i :: ClaimStands(ledger, i, id, owner)
  {
    var t := Replay(ledger).value;
    ClaimedExactly(ledger, id, owner);
    StandingExactly(ledger, id);
    hide Blank;
    hide Replay;
    hide ClaimStands;
  }

  /** Why the others are refused. With a blank owner or without a timeout a call is refused before it loads anything. */
  lemma RefusalsExactly(ledger: seq<Event>, id: NodeID, owner: string, timeout: int)
    requires Replay(ledger).Some? && !Blank(owner) && timeout > 0
    ensures
      var claim, refresh, release := Operate(ledger, ClaimNode(id, owner, timeout)),
                                     Operate(ledger, RefreshClaim(id, owner, timeout)), Operate(ledger, ReleaseNode(id, owner));
      var created := exists i :: 0 <= i < |ledger| && ledger[i] == NodeCreated(id);
      && (claim.NodeNotFound? <==> !created) && (claim.InvalidState? <==> exists i, o :: ClaimStands(ledger, i, id, o))
      && (release.NodeNotFound? <==> !created)
      && (release.NotClaimed? <==> created && forall i, o :: !ClaimStands(ledger, i, id, o))
      && (release.OwnerMismatch? <==> exists i, o :: o != owner && ClaimStands(ledger, i, id, o))
      && (!release.Submits? ==> refresh == release)
  {
    var t := Replay(ledger).value;
    ClaimedExactly(ledger, id, owner);
    StandingExactly(ledger, id);
    hide Blank;
    hide Replay;
    hide ClaimStands;
  }

  /** At most one claim of a node stands, and it is the one that replay shows. */
  lemma StandingExactly(ledger: seq<Event>, id: NodeID)
    requires Replay(ledger).Some?
    ensures
      var t := Replay(ledger).value;
      && ((exists i, o :: ClaimStands(ledger, i, id, o)) <==> id in t && t[id].Claimed?)
      && forall i, o :: ClaimStands(ledger, i, id, o) ==> id in t && t[id] == Claimed(o)
  {
    var t := Replay(ledger).value;
    hide Replay;
    hide ClaimStands;
    forall i, o | ClaimStands(ledger, i, id, o) ensures id in t && t[id] == Claimed(o) { ClaimedExactly(ledger, id, o); }
    if id in t && t[id].Claimed? { ClaimedExactly(ledger, id, t[id].owner); }
  }

  lemma FreedBetweenClaims(events: seq<Event>, i: nat, j: nat, id: NodeID)
    requires Replay(events).Some? && i < j < |events| && Claims(events[i], id) && Claims(events[j], id)
    ensures exists m :: i < m < j && Frees(events[m], id)
  {
    hide Replay;
    assert !Frees(events[j], id);
    if forall m :: i < m < j ==> !Frees(events[m], id) {
      assert forall m :: i < m < j + 1 ==> !Frees(events[m], id);
      ClaimLasts(events, i, j + 1, id);
      assert false;
    }
  }

  /** In every interleaving of the guarded operations no node is claimed twice without an event
      in between that frees it. */
  lemma NoDoubleClaim(s: State<Event>, n: nat, run: seq<Label<Event>>, ledger: seq<Event>, i: nat, j: nat, id: NodeID)
    requires Initial(s, n) && Contiguous(s.dir.Keys) && Replay(Ledger(s.dir)).Some?
    requires IsRun(SERVICE, s, run) && NoRollback(run)
    requires Contiguous(End(SERVICE, s, run).dir.Keys) && ledger == Ledger(End(SERVICE, s, run).dir)
    requires i < j < |ledger| && Claims(ledger[i], id) && Claims(ledger[j], id)
    ensures exists m :: i < m < j && Frees(ledger[m], id)
  {
    LedgerStaysReadable(s, n, run);
    FreedBetweenClaims(ledger, i, j, id);
  }

  // ---- The unguarded release ------------------------------------------------------------------------

  /** A ledger that cannot be loaded stays so, whatever is appended; no guard accepts it again. */
  lemma UnreadableForever(ledger: seq<Event>, more: seq<Event>, e: Event)
    requires Replay(ledger).None?
    ensures Replay(ledger + more).None? && !ServiceGuard(ledger + more, e)
  {
    assert (ledger + more)[..|ledger|] == ledger;
    if Replay(ledger + more).Some? { ReplayPrefix(ledger + more, |ledger|); }
  }

  const CLAIMED_ONCE: seq<Event> := [NodeCreated("1"), NodesClaimed(["1"], "alice")]

  lemma ReplayOneNode(id: NodeID, owner: string)
    ensures Replay([NodeCreated(id), NodesClaimed([id], owner)]) == Some(map[id := Claimed(owner)])
  {
    var c, k := NodeCreated(id), NodesClaimed([id], owner);
    var none: Table, made: Table := map[], map[id := Available];
    assert Replay([]) == Some(none);
    hide Replay;
    ReplaySnoc([], c);
    assert [] + [c] == [c] && none[id := Available] == made;
    ReplaySnoc([c], k);
    assert [c] + [k] == [c, k];
    ApplySingle(made, k);
    assert made[id := Claimed(owner)] == map[id := Claimed(owner)];
  }

  /** A second release of the same node cannot be applied. */
  lemma ReplayReleasedTwice(ledger: seq<Event>, id: NodeID, owner: string)
    requires Replay(ledger) == Some(map[id := Claimed(owner)])
    ensures Replay(ledger + [NodesReleased([id]), NodesReleased([id])]).None?
  {
    hide Replay;
    var r := NodesReleased([id]);
    var held: Table, free: Table := map[id := Claimed(owner)], map[id := Available];
    ReplaySnoc(ledger, r);
    ApplySingle(held, r);
    assert held[id := Available] == free;
    ReplaySnoc(ledger + [r], r);
    assert ApplyReleases(free, [id]).None?;
    assert ledger + [r] + [r] == ledger + [r, r];
  }

  lemma ReplayClaimedOnce()
    ensures Replay(CLAIMED_ONCE) == Some(map["1" := Claimed("alice")])
    ensures Replay(CLAIMED_ONCE + [NodesReleased(["1"]), NodesReleased(["1"])]).None?
  {
    hide Replay;
    ReplayOneNode("1", "alice");
    assert CLAIMED_ONCE == [NodeCreated("1"), NodesClaimed(["1"], "alice")];
    ReplayReleasedTwice(CLAIMED_ONCE, "1", "alice");
  }

  /** A reaper reads the ledger of two events and decides to release node 1. */
  lemma ReaperLooks(s: State<Event>, run: seq<Label<Event>>, at: State<Event>, pid: Pid)
    returns (run': seq<Label<Event>>, at': State<Event>)
    requires Reaches(WITH_REAP, s, run, at) && NoRollback(run) && pid !in at.procs
    requires at.dir.Keys == {1, 2} && Contents([at.dir[1], at.dir[2]]) == CLAIMED_ONCE
    ensures Reaches(WITH_REAP, s, run', at') && NoRollback(run')
    ensures at' == at.(procs := at.procs[pid := Calling(Append(NodesReleased(["1"]), Some([at.dir[1], at.dir[2]])))])
  {
    hide Replay;
    var read := [at.dir[1], at.dir[2]];
    run', at' := Step(WITH_REAP, s, run, at, pid, StartRead({1, 2}));
    run', at' := Step(WITH_REAP, s, run', at', pid, ReadNext);
    assert at'.procs[pid].read == [at.dir[1]];
    run', at' := Step(WITH_REAP, s, run', at', pid, ReadNext);
    assert at'.procs[pid].read == read;
    ReplayClaimedOnce();
    assert ReapCheck(CLAIMED_ONCE, NodesReleased(["1"]));
    run', at' := Step(WITH_REAP, s, run', at', pid, SubmitAfterRead(NodesReleased(["1"])));
    assert at'.procs == at.procs[pid := Calling(Append(NodesReleased(["1"]), Some(read)))];
  }

  /** A reaper that has looked appends. */
  lemma ReaperAppends(s: State<Event>, run: seq<Label<Event>>, at: State<Event>, pid: Pid, call: Call<Event>, next: nat)
    returns (run': seq<Label<Event>>, at': State<Event>)
    requires Reaches(WITH_REAP, s, run, at) && NoRollback(run) && at.lock.None?
    requires pid in at.procs && at.procs[pid] == Calling(call) && call.Append? && IsNextSequence(at.dir.Keys, next)
    ensures Reaches(WITH_REAP, s, run', at') && NoRollback(run')
    ensures at' == State(at.dir[next := File(call.event, pid)], None, at.procs[pid := Finished(call, Ok(next))])
  {
    run', at' := AcquireLock(WITH_REAP, s, run, at, pid, call);
    run', at' := CommitAndRelease(WITH_REAP, s, run', at', pid, call, next);
    OverwriteTwice(at.procs, pid, Holding(call), Finished(call, Ok(next)));
  }

  /** Two reapers that both read the ledger before either appends: each releases a node that was
      claimed when it looked, and the ledger can no longer be loaded. */
  lemma UnguardedReleaseBreaksLedger() returns (s: State<Event>, run: seq<Label<Event>>)
    ensures Initial(s, 2) && Contiguous(s.dir.Keys) && Ledger(s.dir) == CLAIMED_ONCE && Replay(Ledger(s.dir)).Some?
    ensures IsRun(WITH_REAP, s, run) && NoRollback(run)
    ensures
      var e := End(WITH_REAP, s, run);
      && e.procs.Keys == {0, 1} && !e.procs[0].Reading? && !e.procs[1].Reading?
      && e.procs[0].call == e.procs[1].call == Append(NodesReleased(["1"]), Some([s.dir[1], s.dir[2]]))
      && Contiguous(e.dir.Keys) && Replay(Ledger(e.dir)).None?
  {
    hide Replay;
    s := State(map[1 := File(CLAIMED_ONCE[0], 0), 2 := File(CLAIMED_ONCE[1], 0)], None, map[]);
    LedgerIs(s.dir, 2);
    assert Ledger(s.dir) == CLAIMED_ONCE;
    var call := Append(NodesReleased(["1"]), Some([s.dir[1], s.dir[2]]));
    var at;
    run, at := [], s;
    run, at := ReaperLooks(s, run, at, 0);
    run, at := ReaperLooks(s, run, at, 1);
    run, at := ReaperAppends(s, run, at, 0, call, 3);
    run, at := ReaperAppends(s, run, at, 1, call, 4);
    LedgerIs(at.dir, 4);
    assert Ledger(at.dir) == CLAIMED_ONCE + [call.event, call.event];
    ReplayClaimedOnce();
  }
}
