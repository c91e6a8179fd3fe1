/**
  internal/lock/manager.go and internal/lock/lock.go as a transition system. The manager's mutex keeps its own calls apart, but
  a holder refreshes its lock object under the mutex of that object only. So between the moment a call of the manager finds
  a lock expired and the moment it writes its map, any holder may refresh any lock it was ever given.
 */
module LockRuns {
  import opened PersistentLocks

  /** A lock object; its identity is the key it is kept under. */
  datatype Held = Held(node: NodeId, owner: string, expiresAt: int, released: bool)

  /** What the call inside the manager's mutex has found. */
  datatype Finding = Idle | FoundExpired(node: NodeId)

  /** `objects` are all locks ever returned, `table` is the manager's map, `now` the time of the last step. */
  datatype State<L> = State(now: int, objects: map<L, Held>, table: map<NodeId, L>, finding: Finding)

  datatype Action<L> =
    | Judge(node: NodeId, now: int)
    | Install(node: NodeId, lock: L, owner: string, expiresAt: int, now: int)
    | Delete(node: NodeId, now: int)
    | Release(node: NodeId, now: int)
    | Refresh(lock: L, timeout: int, now: int)
    | Wait(now: int)

  predicate ExpiredAt(h: Held, now: int) { h.released || now > h.expiresAt + CLOCK_SKEW_TOLERANCE }

  /** Both managers have one notion of expiry: released, or five seconds, in nanoseconds, past the time set. */
  lemma ExpiryExactly(h: Held, now: int)
    ensures ExpiredAt(h, now) <==> h.released || now > h.expiresAt + 5_000_000_000
    ensures !h.released ==> (ExpiredAt(h, now) <==> IsExpired(Lock(h.owner, h.expiresAt), now))
  {
  }

  predicate Known<L(==)>(s: State<L>, n: NodeId) { n in s.table && s.table[n] in s.objects }

  /** Acquire judges the lock in the map and then installs its own; ReapExpired judges and then deletes. A refresh that does
      something has a positive timeout and a lock that is not released. */
  predicate Enabled<L(==)>(s: State<L>, a: Action<L>) {
    && s.now <= a.now
    && match a
       case Judge(n, _) => s.finding.Idle? && Known(s, n)
       case Install(n, lk, _, _, _) => lk !in s.objects && (if n in s.table then s.finding == FoundExpired(n) else s.finding.Idle?)
       case Delete(n, _) => s.finding == FoundExpired(n) && Known(s, n)
       case Release(n, _) => s.finding.Idle? && Known(s, n)
       case Refresh(lk, timeout, _) => lk in s.objects && timeout > 0 && !s.objects[lk].released
       case Wait(_) => true
  }

  function Step<L(==)>(s: State<L>, a: Action<L>): State<L>
    requires Enabled(s, a)
  {
    match a
    case Judge(n, now) => s.(now := now, finding := if ExpiredAt(s.objects[s.table[n]], now) then FoundExpired(n) else Idle)
    case Install(n, lk, owner, expiresAt, now) =>
      State(now, s.objects[lk := Held(n, owner, expiresAt, false)], s.table[n := lk], Idle)
    case Delete(n, now) => s.(now := now, table := s.table - {n}, finding := Idle)
    case Release(n, now) =>
      s.(now := now, objects := s.objects[s.table[n] := s.objects[s.table[n]].(released := true)], table := s.table - {n})
    case Refresh(lk, timeout, now) => s.(now := now, objects := s.objects[lk := s.objects[lk].(expiresAt := now + timeout)])
    case Wait(now) => s.(now := now)
  }

  predicate IsRun<L(==)>(s: State<L>, run: seq<Action<L>>)
    decreases |run|
  {
    run == [] || (Enabled(s, run[0]) && IsRun(Step(s, run[0]), run[1..]))
  }

  function End<L(==)>(s: State<L>, run: seq<Action<L>>): State<L>
    requires IsRun(s, run)
    decreases |run|
  {
    if run == [] then s else End(Step(s, run[0]), run[1..])
  }

  function Start<L>(now: int): State<L> { State(now, map[], map[], Idle) }

  lemma {:induction false} RunConcat<L>(s: State<L>, a: seq<Action<L>>, b: seq<Action<L>>)
    requires IsRun(s, a) && IsRun(End(s, a), b)
    ensures IsRun(s, a + b) && End(s, a + b) == End(End(s, a), b)
    decreases |a|
  {
    if a == [] {
      assert a + b == b;
    } else {
      assert (a + b)[1..] == a[1..] + b;
      RunConcat(Step(s, a[0]), a[1..], b);
    }
  }

  // ---- At most one unexpired lock per node ---------------------------------------------------------------

  ghost predicate Live<L>(s: State<L>, lk: L) { lk in s.objects && !ExpiredAt(s.objects[lk], s.now) }

  /** Of all locks ever returned for a node, at most one is unexpired. */
  ghost predicate Exclusive<L>(s: State<L>) {
    forall a, b :: a in s.objects && b in s.objects && Live(s, a) && Live(s, b) && s.objects[a].node == s.objects[b].node ==> a == b
  }

  ghost predicate InTable<L>(s: State<L>, lk: L) {
    lk in s.objects && s.objects[lk].node in s.table && s.table[s.objects[lk].node] == lk
  }

  ghost predicate TableRight<L>(s: State<L>) {
    forall n :: n in s.table ==> s.table[n] in s.objects && s.objects[s.table[n]].node == n
  }

  /** Only the locks in the map can be unexpired. */
  ghost predicate Valid<L>(s: State<L>) { TableRight(s) && forall lk :: lk in s.objects && Live(s, lk) ==> InTable(s, lk) }

  lemma ValidIsExclusive<L>(s: State<L>)
    requires Valid(s)
    ensures Exclusive(s)
  {
  }

  /** A refresh is of a lock in the map; a lock that is written over or deleted is expired when that happens. */
  ghost predicate Careful<L>(s: State<L>, a: Action<L>) {
    match a
    case Refresh(lk, _, _) => InTable(s, lk)
    case Install(n, _, _, _, now) => Known(s, n) ==> ExpiredAt(s.objects[s.table[n]], now)
    case Delete(n, now) => Known(s, n) ==> ExpiredAt(s.objects[s.table[n]], now)
    case _ => true
  }

  /** No other lock of the node is unexpired when a lock is refreshed or installed, unless the one installed is expired itself. */
  ghost predicate Alone<L>(s: State<L>, a: Action<L>) {
    match a
    case Refresh(lk, _, now) =>
      lk in s.objects ==>
        forall b :: b in s.objects && b != lk && s.objects[b].node == s.objects[lk].node ==> ExpiredAt(s.objects[b], now)
    case Install(n, _, owner, expiresAt, now) =>
      || ExpiredAt(Held(n, owner, expiresAt, false), now)
      || forall b :: b in s.objects && s.objects[b].node == n ==> ExpiredAt(s.objects[b], now)
    case _ => true
  }

  lemma TableStep<L>(s: State<L>, a: Action<L>)
    requires TableRight(s) && Enabled(s, a)
    ensures TableRight(Step(s, a))
  {
  }

  lemma ValidStepExactly<L>(s: State<L>, a: Action<L>)
    requires Valid(s) && Enabled(s, a)
    ensures Valid(Step(s, a)) <==> Careful(s, a)
  {
    var s' := Step(s, a);
    TableStep(s, a);
    match a
    case Refresh(lk, _, _) => assert Live(s', lk);
    case Install(n, lk, _, _, _) =>
      if n in s.table { assert Live(s', s.table[n]) <==> !ExpiredAt(s.objects[s.table[n]], a.now); }
    case Delete(n, _) => assert Live(s', s.table[n]) <==> !ExpiredAt(s.objects[s.table[n]], a.now);
    case _ =>
  }

  lemma ExclusiveStepExactly<L>(s: State<L>, a: Action<L>)
    requires Exclusive(s) && Enabled(s, a)
    ensures Exclusive(Step(s, a)) <==> Alone(s, a)
  {
    var s' := Step(s, a);
    match a
    case Refresh(lk, _, _) =>
      assert Live(s', lk);
      forall b | b in s.objects && b != lk ensures Live(s', b) <==> !ExpiredAt(s.objects[b], a.now) {}
    case Install(n, lk, owner, expiresAt, _) =>
      assert Live(s', lk) <==> !ExpiredAt(Held(n, owner, expiresAt, false), a.now);
      forall b | b in s.objects ensures Live(s', b) <==> !ExpiredAt(s.objects[b], a.now) {}
    case _ =>
      forall b | b in s'.objects && Live(s', b) ensures Live(s, b) && s.objects[b].node == s'.objects[b].node {}
  }

  // ---- Every run -------------------------------------------------------------------------------------------

  ghost predicate ValidThroughout<L>(s: State<L>, run: seq<Action<L>>)
    requires IsRun(s, run)
    decreases |run|
  {
    Valid(s) && (run != [] ==> ValidThroughout(Step(s, run[0]), run[1..]))
  }

  ghost predicate ExclusiveThroughout<L>(s: State<L>, run: seq<Action<L>>)
    requires IsRun(s, run)
    decreases |run|
  {
    Exclusive(s) && (run != [] ==> ExclusiveThroughout(Step(s, run[0]), run[1..]))
  }

  ghost predicate AllCareful<L>(s: State<L>, run: seq<Action<L>>)
    requires IsRun(s, run)
    decreases |run|
  {
    run == [] || (Careful(s, run[0]) && AllCareful(Step(s, run[0]), run[1..]))
  }

  ghost predicate AllAlone<L>(s: State<L>, run: seq<Action<L>>)
    requires IsRun(s, run)
    decreases |run|
  {
    run == [] || (Alone(s, run[0]) && AllAlone(Step(s, run[0]), run[1..]))
  }

  /** In every run, with refreshes of any lock at any moment: only locks in the map are ever unexpired exactly if every refresh is
      of a lock in the map and every lock written over or deleted is expired at that moment, not only when it was judged. */
  lemma {:induction false} ValidExactly<L>(s: State<L>, run: seq<Action<L>>)
    requires Valid(s) && IsRun(s, run)
    ensures ValidThroughout(s, run) <==> AllCareful(s, run)
    ensures ValidThroughout(s, run) ==> ExclusiveThroughout(s, run)
    decreases |run|
  {
    hide Valid;
    hide Careful;
    hide Enabled;
    hide Step;
    hide Exclusive;
    ValidIsExclusive(s);
    if run != [] {
      ValidStepExactly(s, run[0]);
      if Careful(s, run[0]) { ValidExactly(Step(s, run[0]), run[1..]); }
    }
  }

  /** In every run at most one lock per node is ever unexpired exactly if whenever a lock is refreshed or installed every other lock
      of its node is expired. */
  lemma {:induction false} ExclusiveExactly<L>(s: State<L>, run: seq<Action<L>>)
    requires Exclusive(s) && IsRun(s, run)
    ensures ExclusiveThroughout(s, run) <==> AllAlone(s, run)
    decreases |run|
  {
    hide Exclusive;
    hide Alone;
    hide Enabled;
    hide Step;
    if run != [] {
      ExclusiveStepExactly(s, run[0]);
      if Alone(s, run[0]) { ExclusiveExactly(Step(s, run[0]), run[1..]); }
    }
  }

  // ---- Refreshing between check and write --------------------------------------------------------------------

  /** Every refresh of the run is of a lock that is in the map at that moment. */
  ghost predicate RefreshesInTable<L>(s: State<L>, run: seq<Action<L>>)
    requires IsRun(s, run)
    decreases |run|
  {
    run == [] || ((run[0].Refresh? ==> InTable(s, run[0].lock)) && RefreshesInTable(Step(s, run[0]), run[1..]))
  }

  /** Acquire finds the lock of the node expired, its holder refreshes it, Acquire writes over it: two unexpired locks, although
      the lock refreshed was in the map. */
  lemma RefreshBeforeInstall(n: NodeId, a: string, b: string) returns (run: seq<Action<nat>>)
    ensures IsRun(Start(0), run) && RefreshesInTable(Start(0), run)
    ensures
      var e := End(Start(0), run);
      && e.objects.Keys == {1, 2} && e.objects[1].node == e.objects[2].node == n
      && e.objects[1].owner == a && e.objects[2].owner == b
      && Live(e, 1) && Live(e, 2) && !Exclusive(e)
  {
    var t := CLOCK_SKEW_TOLERANCE + 1;
    var s0 := Start<nat>(0);
    var i1, j, r, i2 := Install(n, 1, a, 0, 0), Judge(n, t), Refresh(1, 1, t), Install(n, 2, b, t + 1, t);
    var s1 := State(0, map[1 := Held(n, a, 0, false)], map[n := 1], Idle);
    var s2 := s1.(now := t, finding := FoundExpired(n));
    var s3 := s2.(objects := map[1 := Held(n, a, t + 1, false)]);
    var s4 := State(t, map[1 := Held(n, a, t + 1, false), 2 := Held(n, b, t + 1, false)], map[n := 2], Idle);
    run := [i1, j, r, i2];
    assert Enabled(s0, i1) && Step(s0, i1) == s1;
    assert Enabled(s1, j) && Step(s1, j) == s2;
    assert Enabled(s2, r) && Step(s2, r) == s3;
    assert Enabled(s3, i2) && Step(s3, i2) == s4;
    RunOfFour(s0, s1, s2, s3, s4, i1, j, r, i2);
    assert Live(s4, 1) && Live(s4, 2);
  }

  /** The same for ReapExpired: the lock refreshed is deleted, and the node is free for another. */
  lemma RefreshBeforeDelete(n: NodeId, a: string, b: string) returns (run: seq<Action<nat>>, more: Action<nat>)
    ensures IsRun(Start(0), run) && RefreshesInTable(Start(0), run) && more.Install? && Enabled(End(Start(0), run), more)
    ensures
      var e := End(Start(0), run);
      e.table == map[] && Live(e, 1) && !Exclusive(Step(e, more))
  {
    var t := CLOCK_SKEW_TOLERANCE + 1;
    var s0 := Start<nat>(0);
    var i1, j, r, d := Install(n, 1, a, 0, 0), Judge(n, t), Refresh(1, 1, t), Delete(n, t);
    var s1 := State(0, map[1 := Held(n, a, 0, false)], map[n := 1], Idle);
    var s2 := s1.(now := t, finding := FoundExpired(n));
    var s3 := s2.(objects := map[1 := Held(n, a, t + 1, false)]);
    var s4 := State(t, s3.objects, map[], Idle);
    run, more := [i1, j, r, d], Install(n, 2, b, t + 1, t);
    assert Enabled(s0, i1) && Step(s0, i1) == s1;
    assert Enabled(s1, j) && Step(s1, j) == s2;
    assert Enabled(s2, r) && Step(s2, r) == s3;
    assert Enabled(s3, d) && Step(s3, d) == s4;
    RunOfFour(s0, s1, s2, s3, s4, i1, j, r, d);
    assert Live(Step(s4, more), 1) && Live(Step(s4, more), 2);
  }

  lemma RunOfFour(s0: State<nat>, s1: State<nat>, s2: State<nat>, s3: State<nat>, s4: State<nat>,
                  a: Action<nat>, b: Action<nat>, c: Action<nat>, d: Action<nat>)
    requires Enabled(s0, a) && Step(s0, a) == s1 && Enabled(s1, b) && Step(s1, b) == s2
    requires Enabled(s2, c) && Step(s2, c) == s3 && Enabled(s3, d) && Step(s3, d) == s4
    requires !a.Refresh? && !b.Refresh? && (c.Refresh? ==> InTable(s2, c.lock)) && !d.Refresh?
    ensures IsRun(s0, [a, b, c, d]) && End(s0, [a, b, c, d]) == s4 && RefreshesInTable(s0, [a, b, c, d])
  {
    hide Enabled;
    hide Step;
    hide InTable;
    assert [a, b, c, d][1..] == [b, c, d] && [b, c, d][1..] == [c, d] && [c, d][1..] == [d] && [d][1..] == [];
    assert IsRun(s3, [d]) && End(s3, [d]) == s4 && RefreshesInTable(s3, [d]);
    assert IsRun(s2, [c, d]) && End(s2, [c, d]) == s4 && RefreshesInTable(s2, [c, d]);
    assert IsRun(s1, [b, c, d]) && End(s1, [b, c, d]) == s4 && RefreshesInTable(s1, [b, c, d]);
  }
}
