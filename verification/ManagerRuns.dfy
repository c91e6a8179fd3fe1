/**
  internal/lock/persistent.go as a transition system: any number of managers, each with locks in memory, over one ledger.
  A call of a manager is a sequence of steps. What is between two of them is open to the other managers, to whoever else
  appends to the ledger, and to holders that refresh their locks, which they do without the manager's mutex.
 */
module ManagerRuns {
  import opened PersistentLocks

  /** Where a manager is in its call: before it, past the check that the node is free or its lock expired, or past the append
      of the acquisition as event number `at`. */
  datatype Mode = Idle | Found(node: NodeId) | Wrote(node: NodeId, owner: string, expires: int, at: int)

  datatype Process = Process(locks: Locks, mode: Mode)

  datatype State = State(now: int, entries: seq<Entry>, managers: map<nat, Process>)

  /** Quit: the append failed. Restart: a process comes up, for the first time or again, and replays the ledger. Others: somebody
      else appends an event. */
  datatype Action =
    | Check(p: nat, node: NodeId, now: int)
    | Record(p: nat, owner: string, timeout: int, created: int, now: int)
    | Verify(p: nat, readOk: bool, now: int)
    | Reap(p: nat, now: int)
    | Quit(p: nat, now: int)
    | Release(p: nat, node: NodeId, owner: string, now: int)
    | Refresh(p: nat, node: NodeId, timeout: int, now: int)
    | Restart(p: nat, readOk: bool, now: int)
    | Others(event: Entry, now: int)

  predicate Enabled(s: State, a: Action) {
    && s.now <= a.now
    && (!a.Restart? && !a.Others? ==> a.p in s.managers)
    && match a
       case Check(p, n, now) => s.managers[p].mode.Idle? && Free(s.managers[p].locks, n, now)
       case Record(p, owner, timeout, _, _) => s.managers[p].mode.Found? && ValidRequest(s.managers[p].mode.node, owner, timeout)
       case Verify(p, _, _) => s.managers[p].mode.Wrote?
       case Reap(p, _) => s.managers[p].mode.Found? && s.managers[p].mode.node in s.managers[p].locks
       case Quit(p, _) => s.managers[p].mode.Found?
       case Release(p, n, owner, _) =>
         s.managers[p].mode.Idle? && owner != "" && n in s.managers[p].locks && s.managers[p].locks[n].owner == owner
       case Refresh(p, n, timeout, _) => n in s.managers[p].locks && timeout > 0
       case Restart(_, _, _) => true
       case Others(_, _) => true
  }

  /** Whether the verification of an acquisition that was recorded succeeds. */
  predicate Verified(s: State, w: Mode, readOk: bool)
    requires w.Wrote?
  {
    readOk && HeldAt(s.entries, w.node, w.owner, w.at)
  }

  predicate Replayable(s: State, readOk: bool) { readOk && NoCorruption(s.entries) }

  function Step(s: State, a: Action): State
    requires Enabled(s, a)
  {
    match a
    case Check(p, n, now) => Put(s, now, [], p, s.managers[p].(mode := Found(n)))
    case Record(p, owner, timeout, created, now) =>
      var n, expires := s.managers[p].mode.node, created + timeout;
      Put(s, now, [Acquired(n, owner, expires)], p, s.managers[p].(mode := Wrote(n, owner, expires, |s.entries| + 1)))
    case Verify(p, readOk, now) =>
      var w, locks := s.managers[p].mode, s.managers[p].locks;
      Put(s, now, [], p, Process(if Verified(s, w, readOk) then locks[w.node := Lock(w.owner, w.expires)] else locks, Idle))
    case Reap(p, now) =>
      var n := s.managers[p].mode.node;
      Put(s, now, [Reaped(n)], p, Process(s.managers[p].locks - {n}, Idle))
    case Quit(p, now) => Put(s, now, [], p, s.managers[p].(mode := Idle))
    case Release(p, n, _, now) => Put(s, now, [Released(n)], p, Process(s.managers[p].locks - {n}, Idle))
    case Refresh(p, n, timeout, now) =>
      var locks := s.managers[p].locks;
      Put(s, now, [], p, s.managers[p].(locks := locks[n := Lock(locks[n].owner, now + timeout)]))
    case Restart(p, readOk, now) =>
      if Replayable(s, readOk) then Put(s, now, [], p, Process(Fold(s.entries), Idle))
      else s.(now := now, managers := s.managers - {p})
    case Others(e, now) => s.(now := now, entries := s.entries + [e])
  }

  function Put(s: State, now: int, more: seq<Entry>, p: nat, m: Process): State {
    State(now, s.entries + more, s.managers[p := m])
  }

  predicate IsRun(s: State, run: seq<Action>)
    decreases |run|
  {
    run == [] || (Enabled(s, run[0]) && IsRun(Step(s, run[0]), run[1..]))
  }

  function End(s: State, run: seq<Action>): State
    requires IsRun(s, run)
    decreases |run|
  {
    if run == [] then s else End(Step(s, run[0]), run[1..])
  }

  lemma {:induction false} RunConcat(s: State, a: seq<Action>, b: seq<Action>)
    requires IsRun(s, a) && IsRun(End(s, a), b)
    ensures IsRun(s, a + b) && End(s, a + b) == End(End(s, a), b)
    decreases |a|
  {
    if a == [] {
      assert a + b == b;
    } else {
      assert (a + b)[1..] == a[1..] + b;
      RunConcat(Step(s, a[0]), a[1..], b);
    }
  }

  lemma ExtendRun(s: State, run: seq<Action>, a: Action)
    requires IsRun(s, run) && Enabled(End(s, run), a)
    ensures IsRun(s, run + [a]) && End(s, run + [a]) == Step(End(s, run), a)
  {
    assert [a][1..] == [];
    RunConcat(s, run, [a]);
  }

  // ---- One owner per node --------------------------------------------------------------------------------

  predicate Unexpired(locks: Locks, n: NodeId, now: int) { n in locks && !IsExpired(locks[n], now) }

  /** The manager reports the node as locked. */
  ghost predicate Reports(s: State, p: nat, n: NodeId) { p in s.managers && Unexpired(s.managers[p].locks, n, s.now) }

  /** No two managers report different owners for a node. */
  ghost predicate OneOwner(s: State) {
    forall p, q, n :: Reports(s, p, n) && Reports(s, q, n) ==> s.managers[p].locks[n].owner == s.managers[q].locks[n].owner
  }

  /** Whatever a manager reports, the ledger says too. */
  ghost predicate Backed(s: State) {
    forall p, n :: Reports(s, p, n) ==> n in Fold(s.entries) && Fold(s.entries)[n].owner == s.managers[p].locks[n].owner
  }

  lemma BackedIsOneOwner(s: State)
    requires Backed(s)
    ensures OneOwner(s)
  {
  }

  /** Every manager for which the node is locked has it locked for this owner. */
  ghost predicate LockedFor(s: State, n: NodeId, owner: string, now: int) {
    forall q :: q in s.managers && Unexpired(s.managers[q].locks, n, now) ==> s.managers[q].locks[n].owner == owner
  }

  ghost predicate LockedNowhereElse(s: State, p: nat, n: NodeId, now: int) {
    forall q :: q in s.managers && q != p ==> !Unexpired(s.managers[q].locks, n, now)
  }

  /** An acquisition is recorded while no manager has the node locked for another owner; a release or reaping while no other
      manager has it locked; and the lock refreshed is one that the ledger still shows. */
  ghost predicate Careful(s: State, a: Action)
    requires Enabled(s, a)
  {
    match a
    case Record(p, owner, _, _, now) => LockedFor(s, s.managers[p].mode.node, owner, now)
    case Reap(p, now) => LockedNowhereElse(s, p, s.managers[p].mode.node, now)
    case Release(p, n, _, now) => LockedNowhereElse(s, p, n, now)
    case Refresh(p, n, _, _) => n in Fold(s.entries) && Fold(s.entries)[n].owner == s.managers[p].locks[n].owner
    case Others(e, now) =>
      (match e
       case Acquired(n, owner, _) => LockedFor(s, n, owner, now)
       case Released(n) => forall q :: q in s.managers ==> !Unexpired(s.managers[q].locks, n, now)
       case Reaped(n) => forall q :: q in s.managers ==> !Unexpired(s.managers[q].locks, n, now)
       case _ => true)
    case _ => true
  }

  /** Another manager has the node locked for somebody else. */
  ghost predicate Contested(s: State, p: nat, n: NodeId, owner: string, now: int) {
    exists q :: q in s.managers && q != p && Unexpired(s.managers[q].locks, n, now) && s.managers[q].locks[n].owner != owner
  }

  /** What a manager comes to report by verifying, refreshing or restarting is not contested. */
  ghost predicate Alone(s: State, a: Action)
    requires Enabled(s, a)
  {
    match a
    case Verify(p, readOk, now) =>
      var w := s.managers[p].mode;
      Verified(s, w, readOk) && !IsExpired(Lock(w.owner, w.expires), now) ==> !Contested(s, p, w.node, w.owner, now)
    case Refresh(p, n, _, now) => !Contested(s, p, n, s.managers[p].locks[n].owner, now)
    case Restart(p, readOk, now) =>
      Replayable(s, readOk) ==>
        forall n :: Unexpired(Fold(s.entries), n, now) ==> !Contested(s, p, n, Fold(s.entries)[n].owner, now)
    case _ => true
  }

  lemma BackedStepExactly(s: State, a: Action)
    requires Backed(s) && Enabled(s, a)
    ensures Backed(Step(s, a)) <==> Careful(s, a)
  {
    hide Fold;
    hide HeldAt;
    hide ValidRequest;
    hide NoCorruption;
    var s' := Step(s, a);
    assert s.entries + [] == s.entries;
    match a
    case Record(p, owner, timeout, created, now) =>
      FoldStep(s.entries, Acquired(s.managers[p].mode.node, owner, created + timeout));
      AcquiredExactly(s, s', s.managers[p].mode.node, owner);
    case Verify(p, readOk, now) =>
      var w := s.managers[p].mode;
      FoldExactly(s.entries, w.node, w.owner);
    case Reap(p, now) =>
      FoldStep(s.entries, Reaped(s.managers[p].mode.node));
      RemovedExactly(s, s', p, s.managers[p].mode.node);
    case Release(p, n, _, now) =>
      FoldStep(s.entries, Released(n));
      RemovedExactly(s, s', p, n);
    case Refresh(p, n, timeout, now) => assert Reports(s', p, n);
    case Others(e, now) =>
      FoldStep(s.entries, e);
      match e {
        case Acquired(n, owner, _) => AcquiredExactly(s, s', n, owner);
        case Released(n) => GoneExactly(s, s', n);
        case Reaped(n) => GoneExactly(s, s', n);
        case _ =>
      }
    case _ =>
  }

  lemma AcquiredExactly(s: State, s': State, n: NodeId, owner: string)
    requires Backed(s) && s.now <= s'.now && s'.managers.Keys == s.managers.Keys
    requires forall q :: q in s.managers ==> s'.managers[q].locks == s.managers[q].locks
    requires Fold(s'.entries).Keys == Fold(s.entries).Keys + {n} && Fold(s'.entries)[n].owner == owner
    requires forall m :: m in Fold(s.entries) && m != n ==> Fold(s'.entries)[m] == Fold(s.entries)[m]
    ensures Backed(s') <==> LockedFor(s, n, owner, s'.now)
  {
    hide Fold;
    forall q, m | Reports(s', q, m) ensures Reports(s, q, m) {}
    if Backed(s') {
      forall q | q in s.managers && Unexpired(s.managers[q].locks, n, s'.now) ensures s.managers[q].locks[n].owner == owner {
        assert Reports(s', q, n);
      }
    }
  }

  lemma RemovedExactly(s: State, s': State, p: nat, n: NodeId)
    requires Backed(s) && s.now <= s'.now && s'.managers.Keys == s.managers.Keys && p in s.managers
    requires s'.managers[p].locks == s.managers[p].locks - {n}
    requires forall q :: q in s.managers && q != p ==> s'.managers[q].locks == s.managers[q].locks
    requires Fold(s'.entries) == Fold(s.entries) - {n}
    ensures Backed(s') <==> LockedNowhereElse(s, p, n, s'.now)
  {
    hide Fold;
    forall q, m | Reports(s', q, m) ensures Reports(s, q, m) {}
    if Backed(s') {
      forall q | q in s.managers && q != p ensures !Unexpired(s.managers[q].locks, n, s'.now) {
        assert !Reports(s', q, n);
      }
    }
  }

  lemma GoneExactly(s: State, s': State, n: NodeId)
    requires Backed(s) && s.now <= s'.now && s'.managers == s.managers && Fold(s'.entries) == Fold(s.entries) - {n}
    ensures Backed(s') <==> forall q :: q in s.managers ==> !Unexpired(s.managers[q].locks, n, s'.now)
  {
    hide Fold;
    forall q, m | Reports(s', q, m) ensures Reports(s, q, m) {}
    if Backed(s') {
      forall q | q in s.managers ensures !Unexpired(s.managers[q].locks, n, s'.now) {
        assert !Reports(s', q, n);
      }
    }
  }

  lemma OneOwnerStepExactly(s: State, a: Action)
    requires OneOwner(s) && Enabled(s, a)
    ensures OneOwner(Step(s, a)) <==> Alone(s, a)
  {
    hide Fold;
    hide HeldAt;
    hide ValidRequest;
    hide NoCorruption;
    hide Contested;
    var s' := Step(s, a);
    match a
    case Verify(p, readOk, now) => VerifyExactly(s, p, readOk, now);
    case Refresh(p, n, timeout, now) => ChangedExactly(s, s', p, {n});
    case Restart(p, readOk, now) =>
      if Replayable(s, readOk) { ChangedExactly(s, s', p, Fold(s.entries).Keys); }
    case Others(_, _) =>
    case _ => ChangedExactly(s, s', a.p, {});
  }

  lemma VerifyExactly(s: State, p: nat, readOk: bool, now: int)
    requires OneOwner(s) && Enabled(s, Verify(p, readOk, now))
    ensures OneOwner(Step(s, Verify(p, readOk, now))) <==> Alone(s, Verify(p, readOk, now))
  {
    hide HeldAt;
    hide Contested;
    var s', w := Step(s, Verify(p, readOk, now)), s.managers[p].mode;
    if Verified(s, w, readOk) { ChangedExactly(s, s', p, {w.node}); } else { ChangedExactly(s, s', p, {}); }
  }

  /** Where only one manager's locks changed, and only at some nodes, others being left out at most. */
  lemma ChangedExactly(s: State, s': State, p: nat, nodes: set<NodeId>)
    requires OneOwner(s) && s.now <= s'.now && p in s'.managers && s'.managers.Keys == s.managers.Keys + {p}
    requires forall q :: q in s.managers && q != p ==> s'.managers[q].locks == s.managers[q].locks
    requires forall n :: n in s'.managers[p].locks && n !in nodes ==>
                           p in s.managers && n in s.managers[p].locks && s'.managers[p].locks[n] == s.managers[p].locks[n]
    requires nodes <= s'.managers[p].locks.Keys
    ensures OneOwner(s') <==>
      forall n :: n in nodes && Reports(s', p, n) ==> !Contested(s, p, n, s'.managers[p].locks[n].owner, s'.now)
  {
    forall q, n | q != p && Reports(s', q, n) ensures Reports(s, q, n) {}
    forall n | n !in nodes && Reports(s', p, n) ensures Reports(s, p, n) {}
    if OneOwner(s') {
      forall n | n in nodes && Reports(s', p, n) ensures !Contested(s, p, n, s'.managers[p].locks[n].owner, s'.now) {
        forall q | q in s.managers && q != p && Unexpired(s.managers[q].locks, n, s'.now)
          ensures s.managers[q].locks[n].owner == s'.managers[p].locks[n].owner
        {
          assert Reports(s', q, n);
        }
      }
    }
  }

  // ---- Every run -----------------------------------------------------------------------------------------------

  ghost predicate BackedThroughout(s: State, run: seq<Action>)
    requires IsRun(s, run)
    decreases |run|
  {
    Backed(s) && (run != [] ==> BackedThroughout(Step(s, run[0]), run[1..]))
  }

  ghost predicate OneOwnerThroughout(s: State, run: seq<Action>)
    requires IsRun(s, run)
    decreases |run|
  {
    OneOwner(s) && (run != [] ==> OneOwnerThroughout(Step(s, run[0]), run[1..]))
  }

  ghost predicate AllCareful(s: State, run: seq<Action>)
    requires IsRun(s, run)
    decreases |run|
  {
    run == [] || (Careful(s, run[0]) && AllCareful(Step(s, run[0]), run[1..]))
  }

  ghost predicate AllAlone(s: State, run: seq<Action>)
    requires IsRun(s, run)
    decreases |run|
  {
    run == [] || (Alone(s, run[0]) && AllAlone(Step(s, run[0]), run[1..]))
  }

  /** In every run of any number of managers: the ledger backs all reports throughout, and so no two managers ever report different
      owners, exactly if nothing that the ledger is made to say takes a node from a manager that has it locked, and no lock is
      refreshed that the ledger no longer shows. The verification needs no condition of its own. */
  lemma {:induction false} BackedExactly(s: State, run: seq<Action>)
    requires Backed(s) && IsRun(s, run)
    ensures BackedThroughout(s, run) <==> AllCareful(s, run)
    ensures BackedThroughout(s, run) ==> OneOwnerThroughout(s, run)
    decreases |run|
  {
    hide Backed;
    hide OneOwner;
    hide Careful;
    hide Enabled;
    hide Step;
    BackedIsOneOwner(s);
    if run != [] {
      BackedStepExactly(s, run[0]);
      if Careful(s, run[0]) { BackedExactly(Step(s, run[0]), run[1..]); }
    }
  }

  /** In every run no two managers ever report different owners exactly if no lock is contested when it is verified, refreshed or
      replayed. */
  lemma {:induction false} OneOwnerExactly(s: State, run: seq<Action>)
    requires OneOwner(s) && IsRun(s, run)
    ensures OneOwnerThroughout(s, run) <==> AllAlone(s, run)
    decreases |run|
  {
    hide OneOwner;
    hide Alone;
    hide Enabled;
    hide Step;
    if run != [] {
      OneOwnerStepExactly(s, run[0]);
      if Alone(s, run[0]) { OneOwnerExactly(Step(s, run[0]), run[1..]); }
    }
  }

  /** A claim that nothing interferes with goes through exactly if this manager's own memory shows the node free, whatever the
      ledger shows; and it leaves one owner per node exactly if no other manager has the node locked for somebody else. */
  lemma UndisturbedClaim(s: State, p: nat, n: NodeId, owner: string, timeout: int, now: int) returns (run: seq<Action>)
    requires p in s.managers && s.managers[p].mode.Idle? && ValidRequest(n, owner, timeout) && s.now <= now
    ensures run == [Check(p, n, now), Record(p, owner, timeout, now, now), Verify(p, true, now)]
    ensures IsRun(s, run) <==> Free(s.managers[p].locks, n, now)
    ensures IsRun(s, run) ==>
      End(s, run) == State(now, s.entries + [Acquired(n, owner, now + timeout)],
                           s.managers[p := Process(s.managers[p].locks[n := Lock(owner, now + timeout)], Idle)])
    ensures IsRun(s, run) && OneOwner(s) ==> (OneOwner(End(s, run)) <==> !Contested(s, p, n, owner, now))
  {
    var a, b, c := Check(p, n, now), Record(p, owner, timeout, now, now), Verify(p, true, now);
    run := [a, b, c];
    if Free(s.managers[p].locks, n, now) {
      var evt := Acquired(n, owner, now + timeout);
      var s1 := State(now, s.entries, s.managers[p := Process(s.managers[p].locks, Found(n))]);
      var s2 := State(now, s.entries + [evt],
                      s.managers[p := Process(s.managers[p].locks, Wrote(n, owner, now + timeout, |s.entries| + 1))]);
      var s3 := State(now, s.entries + [evt], s.managers[p := Process(s.managers[p].locks[n := Lock(owner, now + timeout)], Idle)]);
      OnlyOwnPosition(s.entries, evt, |s.entries| + 1);
      assert s.entries + [] == s.entries && s2.entries + [] == s2.entries;
      assert Step(s, a) == s1 && Step(s1, b) == s2 && Step(s2, c) == s3;
      RunOfThree(s, s1, s2, s3, a, b, c);
      if OneOwner(s) {
        ChangedExactly(s, s3, p, {n});
        assert Reports(s3, p, n);
      }
    }
  }

  lemma RunOfThree(s: State, s1: State, s2: State, s3: State, a: Action, b: Action, c: Action)
    requires Enabled(s, a) && Step(s, a) == s1 && Enabled(s1, b) && Step(s1, b) == s2 && Enabled(s2, c) && Step(s2, c) == s3
    ensures IsRun(s, [a, b, c]) && End(s, [a, b, c]) == s3
  {
    hide Enabled;
    hide Step;
    assert [a, b, c][1..] == [b, c] && [b, c][1..] == [c] && [c][1..] == [];
    assert IsRun(s2, [c]) && End(s2, [c]) == s3;
    assert IsRun(s1, [b, c]) && End(s1, [b, c]) == s3;
  }

  // ---- A sole writer ---------------------------------------------------------------------------------------------

  /** All lock events are written by manager p; others append events that are not about locks. */
  ghost predicate Sole(a: Action, p: nat) {
    if a.Others? then !IsLockEvent(a.event) && !(a.event.Corrupt? && a.event.lockLike) else a.p == p
  }

  /** Memory and ledger name the same owners, but for an acquisition that is recorded and about to be verified. */
  ghost predicate InStep(s: State, p: nat) {
    && p in s.managers && NoCorruption(s.entries)
    && var m := s.managers[p];
       if m.mode.Wrote? then
         && HeldAt(s.entries, m.mode.node, m.mode.owner, m.mode.at)
         && Owners(Fold(s.entries)) == Owners(m.locks)[m.mode.node := m.mode.owner]
       else Owners(Fold(s.entries)) == Owners(m.locks)
  }

  /** The ledger can be read for the verification, unless memory named the same owner already, and for a restart. */
  ghost predicate Readable(s: State, a: Action)
    requires Enabled(s, a)
  {
    match a
    case Verify(p, readOk, _) =>
      var w, locks := s.managers[p].mode, s.managers[p].locks;
      readOk || (w.node in locks && locks[w.node].owner == w.owner)
    case Restart(_, readOk, _) => readOk
    case _ => true
  }

  lemma InStepExactly(s: State, p: nat, a: Action)
    requires InStep(s, p) && Enabled(s, a) && Sole(a, p)
    ensures InStep(Step(s, a), p) <==> Readable(s, a)
    ensures a.Verify? && a.readOk ==> Verified(s, s.managers[p].mode, true)
    ensures a.Restart? && a.readOk && !s.managers[p].mode.Wrote? ==>
      Owners(Step(s, a).managers[p].locks) == Owners(s.managers[p].locks)
  {
    hide Fold;
    hide HeldAt;
    hide ValidRequest;
    hide NoCorruption;
    hide Owners;
    assert s.entries + [] == s.entries;
    match a
    case Record(_, owner, timeout, created, _) =>
      Recorded(s.entries, s.managers[p].locks, Acquired(s.managers[p].mode.node, owner, created + timeout));
    case Verify(_, readOk, _) =>
      var w := s.managers[p].mode;
      AgreementAfterAcquired(s.managers[p].locks, [], [], Acquired(w.node, w.owner, w.expires), []);
    case Reap(_, _) => Dropped(s.entries, s.managers[p].locks, s.managers[p].mode.node, Reaped(s.managers[p].mode.node));
    case Release(_, n, _, _) => Dropped(s.entries, s.managers[p].locks, n, Released(n));
    case Refresh(_, n, timeout, now) => OwnersSame(s.managers[p].locks, n, now + timeout);
    case Others(e, _) => Bystander(s.entries, s.managers[p].mode, e);
    case _ =>
  }

  lemma Recorded(entries: seq<Entry>, locks: Locks, e: Entry)
    requires e.Acquired? && NoCorruption(entries) && Owners(Fold(entries)) == Owners(locks)
    ensures NoCorruption(entries + [e]) && HeldAt(entries + [e], e.node, e.owner, |entries| + 1)
    ensures Owners(Fold(entries + [e])) == Owners(locks)[e.node := e.owner]
  {
    NoCorruptionConcat(entries, [e]);
    FoldStep(entries, e);
    OnlyOwnPosition(entries, e, |entries| + 1);
    hide Fold;
    hide HeldAt;
    assert Owners(Fold(entries)[e.node := Lock(e.owner, e.expires)]) == Owners(Fold(entries))[e.node := e.owner];
  }

  lemma Dropped(entries: seq<Entry>, locks: Locks, n: NodeId, e: Entry)
    requires e == Reaped(n) || e == Released(n)
    requires NoCorruption(entries) && Owners(Fold(entries)) == Owners(locks)
    ensures NoCorruption(entries + [e]) && Owners(Fold(entries + [e])) == Owners(locks - {n})
  {
    NoCorruptionConcat(entries, [e]);
    FoldStep(entries, e);
    OwnersRemove(locks, Fold(entries), n);
  }

  lemma Bystander(entries: seq<Entry>, w: Mode, e: Entry)
    requires !IsLockEvent(e) && !(e.Corrupt? && e.lockLike)
    ensures NoCorruption(entries) ==> NoCorruption(entries + [e])
    ensures Fold(entries + [e]) == Fold(entries)
    ensures w.Wrote? && HeldAt(entries, w.node, w.owner, w.at) ==> HeldAt(entries + [e], w.node, w.owner, w.at)
  {
    NoCorruptionConcat(entries, [e]);
    FoldStep(entries, e);
    if w.Wrote? { HeldNext(entries, e, w.node); }
  }

  ghost predicate InStepThroughout(s: State, p: nat, run: seq<Action>)
    requires IsRun(s, run)
    decreases |run|
  {
    InStep(s, p) && (run != [] ==> InStepThroughout(Step(s, run[0]), p, run[1..]))
  }

  ghost predicate AllReadable(s: State, run: seq<Action>)
    requires IsRun(s, run)
    decreases |run|
  {
    run == [] || (Readable(s, run[0]) && AllReadable(Step(s, run[0]), run[1..]))
  }

  /** Every verification that can read the ledger succeeds, and every restart outside a claim finds the owners memory had. */
  ghost predicate NothingRefuted(s: State, p: nat, run: seq<Action>)
    requires IsRun(s, run)
    decreases |run|
  {
    run == [] ||
    var s' := Step(s, run[0]);
    && p in s.managers
    && (run[0].Verify? && run[0].p == p && run[0].readOk ==> Verified(s, s.managers[p].mode, true))
    && (run[0].Restart? && run[0].p == p && run[0].readOk && !s.managers[p].mode.Wrote? ==>
          p in s'.managers && Owners(s'.managers[p].locks) == Owners(s.managers[p].locks))
    && NothingRefuted(s', p, run[1..])
  }

  /** In every run with a sole writer memory and ledger agree throughout exactly if the ledger can be read whenever it matters; and
      then nothing is ever refuted. */
  lemma {:induction false} InStepRunExactly(s: State, p: nat, run: seq<Action>)
    requires InStep(s, p) && IsRun(s, run) && forall i :: 0 <= i < |run| ==> Sole(run[i], p)
    ensures InStepThroughout(s, p, run) <==> AllReadable(s, run)
    ensures InStepThroughout(s, p, run) ==> NothingRefuted(s, p, run)
    decreases |run|
  {
    if run != [] {
      InStepExactly(s, p, run[0]);
      assert p in s.managers;
      hide InStep;
      hide Readable;
      hide Enabled;
      hide Step;
      hide Verified;
      hide Owners;
      if Readable(s, run[0]) { InStepRunExactly(Step(s, run[0]), p, run[1..]); }
    }
  }

  // ---- The calls are runs ----------------------------------------------------------------------------------------

  function OthersRun(events: seq<Entry>, now: int): seq<Action> {
    seq(|events|, i requires 0 <= i < |events| => Others(events[i], now))
  }

  lemma {:induction false} OthersEnd(s: State, events: seq<Entry>, now: int)
    requires s.now <= now
    ensures IsRun(s, OthersRun(events, now))
    ensures End(s, OthersRun(events, now)) == State(if events == [] then s.now else now, s.entries + events, s.managers)
    decreases |events|
  {
    if events == [] {
      assert s.entries + events == s.entries;
    } else {
      var s' := Step(s, Others(events[0], now));
      OthersEnd(s', events[1..], now);
      assert OthersRun(events, now)[1..] == OthersRun(events[1..], now);
      assert s'.entries + events[1..] == s.entries + events;
    }
  }

  /** The steps of PersistentManager.Acquire. */
  function ClaimRun(p: nat, n: NodeId, owner: string, timeout: int, created: int, now: int, appendOk: bool, readOk: bool,
                    before: seq<Entry>, between: seq<Entry>): seq<Action> {
    [Check(p, n, now)] + OthersRun(before, now)
    + if appendOk then [Record(p, owner, timeout, created, now)] + OthersRun(between, now) + [Verify(p, readOk, now)]
      else [Quit(p, now)]
  }

  lemma ClaimOpens(s: State, p: nat, n: NodeId, now: int, before: seq<Entry>)
    requires p in s.managers && s.managers[p].mode.Idle? && s.now <= now && Free(s.managers[p].locks, n, now)
    ensures IsRun(s, [Check(p, n, now)] + OthersRun(before, now))
    ensures End(s, [Check(p, n, now)] + OthersRun(before, now)) ==
      State(now, s.entries + before, s.managers[p := s.managers[p].(mode := Found(n))])
  {
    var a := Check(p, n, now);
    var s1 := State(now, s.entries, s.managers[p := s.managers[p].(mode := Found(n))]);
    assert s.entries + [] == s.entries;
    assert Enabled(s, a) && Step(s, a) == s1;
    hide Enabled;
    hide Step;
    OthersEnd(s1, before, now);
    assert ([a] + OthersRun(before, now))[1..] == OthersRun(before, now);
  }

  lemma ClaimCloses(s: State, p: nat, n: NodeId, owner: string, timeout: int, created: int, now: int, readOk: bool,
                    between: seq<Entry>)
    requires p in s.managers && s.managers[p].mode == Found(n) && ValidRequest(n, owner, timeout) && s.now <= now
    ensures
      var run := [Record(p, owner, timeout, created, now)] + OthersRun(between, now) + [Verify(p, readOk, now)];
      var locks := s.managers[p].locks;
      && IsRun(s, run)
      && End(s, run) ==
         State(now, s.entries + [Acquired(n, owner, created + timeout)] + between,
               s.managers[p := Process(if readOk && Silent(between, n) then locks[n := Lock(owner, created + timeout)]
                                       else locks, Idle)])
  {
    var locks, w := s.managers[p].locks, Wrote(n, owner, created + timeout, |s.entries| + 1);
    var a, c, evt := Record(p, owner, timeout, created, now), Verify(p, readOk, now), Acquired(n, owner, created + timeout);
    var s1 := State(now, s.entries + [evt], s.managers[p := Process(locks, w)]);
    var s2 := State(now, s.entries + [evt] + between, s.managers[p := Process(locks, w)]);
    assert Enabled(s, a) && Step(s, a) == s1;
    VerifyStep(s2, p, readOk, now);
    OwnEventHeld(s.entries, evt, between);
    hide Enabled;
    hide Step;
    hide HeldAt;
    hide Silent;
    hide ValidRequest;
    OthersEnd(s1, between, now);
    ExtendRun(s1, OthersRun(between, now), c);
    assert ([a] + OthersRun(between, now) + [c])[1..] == OthersRun(between, now) + [c];
    assert s2.managers[p := Process(locks, Idle)] == s.managers[p := Process(locks, Idle)];
  }

  lemma VerifyStep(s: State, p: nat, readOk: bool, now: int)
    requires p in s.managers && s.managers[p].mode.Wrote? && s.now <= now
    ensures
      var w, locks := s.managers[p].mode, s.managers[p].locks;
      && Enabled(s, Verify(p, readOk, now))
      && Step(s, Verify(p, readOk, now)) ==
         State(now, s.entries, s.managers[p := Process(if Verified(s, w, readOk) then locks[w.node := Lock(w.owner, w.expires)]
                                                       else locks, Idle)])
  {
    assert s.entries + [] == s.entries;
  }

  /** PersistentManager.Acquire changes memory and ledger as a run does: none if it is refused, else its steps. */
  lemma ClaimIsRun(s: State, p: nat, n: NodeId, owner: string, timeout: int, created: int, now: int, appendOk: bool, readOk: bool,
                   before: seq<Entry>, between: seq<Entry>)
    requires p in s.managers && s.managers[p].mode.Idle? && s.now <= now
    ensures
      var m := s.managers[p];
      var r := AcquireOutcome(m.locks, n, owner, timeout, now, appendOk, readOk, between);
      var run := if r.InvalidRequest? || r.AlreadyLocked? then []
                 else ClaimRun(p, n, owner, timeout, created, now, appendOk, readOk, before, between);
      && IsRun(s, run)
      && End(s, run).entries == LedgerAfter(s.entries, r, before, Acquired(n, owner, created + timeout), between)
      && End(s, run).managers ==
         s.managers[p := m.(locks := if r.Granted? then m.locks[n := Lock(owner, created + timeout)] else m.locks)]
  {
    hide ValidRequest;
    hide Silent;
    hide HeldAt;
    hide OthersRun;
    var m := s.managers[p];
    if ValidRequest(n, owner, timeout) && Free(m.locks, n, now) {
      ClaimOpens(s, p, n, now, before);
      var open := [Check(p, n, now)] + OthersRun(before, now);
      var s1 := End(s, open);
      if appendOk {
        hide Enabled;
        hide Step;
        hide IsRun;
        hide End;
        ClaimCloses(s1, p, n, owner, timeout, created, now, readOk, between);
        RunConcat(s, open, [Record(p, owner, timeout, created, now)] + OthersRun(between, now) + [Verify(p, readOk, now)]);
        ManagersPut(s.managers, p, m.(mode := Found(n)), m.locks, Lock(owner, created + timeout), n);
      } else {
        assert s1.entries + [] == s1.entries;
        hide IsRun;
        hide End;
        ExtendRun(s, open, Quit(p, now));
        ManagersPut(s.managers, p, m.(mode := Found(n)), m.locks, Lock(owner, created + timeout), n);
      }
    }
  }

  lemma ManagersPut(managers: map<nat, Process>, p: nat, mid: Process, locks: Locks, lock: Lock, n: NodeId)
    ensures managers[p := mid][p := Process(locks, Idle)] == managers[p := Process(locks, Idle)]
    ensures managers[p := mid][p := Process(locks[n := lock], Idle)] == managers[p := Process(locks[n := lock], Idle)]
  {
  }

  function ReapRun(p: nat, nodes: seq<NodeId>, seen: NodeId -> int): seq<Action> {
    if nodes == [] then [] else [Check(p, nodes[0], seen(nodes[0])), Reap(p, seen(nodes[0]))] + ReapRun(p, nodes[1..], seen)
  }

  lemma ReapSteps(s: State, s1: State, s2: State, p: nat, n: NodeId, now: int)
    requires p in s.managers && s.managers[p].mode.Idle? && s.now <= now
    requires n in s.managers[p].locks && IsExpired(s.managers[p].locks[n], now)
    requires s1 == State(now, s.entries, s.managers[p := Process(s.managers[p].locks, Found(n))])
    requires s2 == State(now, s.entries + [Reaped(n)], s.managers[p := Process(s.managers[p].locks - {n}, Idle)])
    ensures Enabled(s, Check(p, n, now)) && Step(s, Check(p, n, now)) == s1
    ensures Enabled(s1, Reap(p, now)) && Step(s1, Reap(p, now)) == s2
  {
    assert s.entries + [] == s.entries;
  }

  /** So does PersistentManager.ReapExpired, in whatever order it comes to the nodes. */
  lemma {:induction false} ReapIsRun(s: State, p: nat, nodes: seq<NodeId>, seen: NodeId -> int)
    requires p in s.managers && s.managers[p].mode.Idle? && NoRepeats(nodes)
    requires forall i :: 0 <= i < |nodes| ==>
      s.now <= seen(nodes[i]) && nodes[i] in s.managers[p].locks && IsExpired(s.managers[p].locks[nodes[i]], seen(nodes[i]))
    requires forall i, j :: 0 <= i < j < |nodes| ==> seen(nodes[i]) <= seen(nodes[j])
    ensures IsRun(s, ReapRun(p, nodes, seen))
    ensures End(s, ReapRun(p, nodes, seen)).entries == s.entries + ReapedEvents(nodes)
    ensures End(s, ReapRun(p, nodes, seen)).managers ==
      s.managers[p := Process(s.managers[p].locks - (set n | n in nodes), Idle)]
    decreases |nodes|
  {
    if nodes == [] {
      assert s.managers[p].locks - (set n | n in nodes) == s.managers[p].locks;
      assert s.entries + ReapedEvents(nodes) == s.entries;
    } else {
      var n, locks := nodes[0], s.managers[p].locks;
      var a, b := Check(p, n, seen(n)), Reap(p, seen(n));
      var s1 := State(seen(n), s.entries, s.managers[p := Process(locks, Found(n))]);
      var s2 := State(seen(n), s.entries + [Reaped(n)], s.managers[p := Process(locks - {n}, Idle)]);
      ReapSteps(s, s1, s2, p, n, seen(n));
      hide Enabled;
      hide Step;
      ReapIsRun(s2, p, nodes[1..], seen);
      var rest := ReapRun(p, nodes[1..], seen);
      assert ([a, b] + rest)[1..] == [b] + rest && ([b] + rest)[1..] == rest;
      assert IsRun(s1, [b] + rest) && End(s1, [b] + rest) == End(s2, rest);
      assert ReapedEvents(nodes) == [Reaped(n)] + ReapedEvents(nodes[1..]);
      assert s2.entries + ReapedEvents(nodes[1..]) == s.entries + ReapedEvents(nodes);
      assert locks - {n} - (set m | m in nodes[1..]) == locks - (set m | m in nodes);
    }
  }

  /** Release and Refresh are single steps, enabled exactly if they succeed, and so is the replay of a new manager. */
  lemma OthersAreSteps(s: State, p: nat, n: NodeId, owner: string, timeout: int, readOk: bool, now: int)
    requires p in s.managers && s.managers[p].mode.Idle? && s.now <= now
    ensures
      var m := s.managers[p];
      && (Enabled(s, Release(p, n, owner, now)) <==> owner != "" && n in m.locks && m.locks[n].owner == owner)
      && (Enabled(s, Release(p, n, owner, now)) ==>
            Step(s, Release(p, n, owner, now)) ==
            State(now, s.entries + [Released(n)], s.managers[p := m.(locks := m.locks - {n})]))
      && (Enabled(s, Refresh(p, n, timeout, now)) <==> n in m.locks && timeout > 0)
      && (Enabled(s, Refresh(p, n, timeout, now)) ==>
            Step(s, Refresh(p, n, timeout, now)) ==
            State(now, s.entries, s.managers[p := m.(locks := m.locks[n := Lock(m.locks[n].owner, now + timeout)])]))
      && Step(s, Restart(p, readOk, now)) ==
         State(now, s.entries, if readOk && NoCorruption(s.entries) then s.managers[p := Process(Fold(s.entries), Idle)]
                               else s.managers - {p})
  {
    assert s.entries + [] == s.entries;
  }
}
