/**
  internal/lock/lock.go and internal/lock/manager.go as objects. Agents may keep lock objects after the manager has replaced,
  released or reaped them. Each method is proved to take a run of the transition system of LockRuns; what holders do to their
  locks while a call of the manager is between its check and its write is a parameter of that call.
 */
module ClaimLocks {
  import opened PersistentLocks
  import opened LockRuns

  /** The clock; by how much it will have moved on at each reading is laid down in `jumps`. */
  class Clock {
    var time: int
    var jumps: seq<nat>

    constructor (time: int, jumps: seq<nat>)
      ensures this.time == time && this.jumps == jumps
    {
      this.time, this.jumps := time, jumps;
    }

    /** time.Now */
    method Now() returns (now: int)
      modifies this
      ensures old(time) <= time == now
      ensures old(jumps) == [] ==> time == old(time) && jumps == []
    {
      if jumps != [] {
        time, jumps := time + jumps[0], jumps[1..];
      }
      now := time;
    }
  }

  class ClaimLock {
    const nodeID: NodeId
    const owner: string
    var expiresAt: int
    var released: bool

    constructor (n: NodeId, owner: string, expiresAt: int)
      ensures nodeID == n && this.owner == owner && this.expiresAt == expiresAt && !released
    {
      nodeID, this.owner, this.expiresAt, released := n, owner, expiresAt, false;
    }

    function Value(): Held reads this { Held(nodeID, owner, expiresAt, released) }

    method IsExpired(clock: Clock) returns (r: bool)
      modifies clock
      ensures old(clock.time) <= clock.time && r == ExpiredAt(Value(), clock.time)
      ensures r <==> released || clock.time > expiresAt + 5_000_000_000
      ensures old(clock.jumps) == [] ==> clock.time == old(clock.time) && clock.jumps == []
    {
      if released {
        return true;
      }
      var now := clock.Now();
      return now > expiresAt + CLOCK_SKEW_TOLERANCE;
    }

    method MarkReleased()
      modifies this`released
      ensures released
    {
      released := true;
    }

    /** Refresh: from now on for `timeout`, unless the lock has been released. */
    method Refresh(timeout: int, clock: Clock) returns (ok: bool)
      modifies this`expiresAt, clock
      ensures old(clock.time) <= clock.time && (ok <==> timeout > 0 && !released)
      ensures expiresAt == if ok then clock.time + timeout else old(expiresAt)
      ensures old(clock.jumps) == [] ==> clock.time == old(clock.time) && clock.jumps == []
    {
      if timeout <= 0 { return false; }
      if released { return false; }
      var now := clock.Now();
      expiresAt := now + timeout;
      return true;
    }
  }

  /** A holder asks to refresh its lock. */
  datatype Request = Request(lock: ClaimLock, timeout: int)

  type Trace = seq<LockRuns.Action<ClaimLock>>

  /** The steps that requests take: one is refused if its timeout is not positive or its lock is released. */
  ghost predicate Answers(trace: Trace, requests: seq<Request>)
    reads (set r | r in requests :: r.lock)`released
  {
    && |trace| == |requests|
    && forall i :: 0 <= i < |trace| ==> trace[i] == Answer(requests[i], trace[i].now)
  }

  ghost function Answer(r: Request, now: int): LockRuns.Action<ClaimLock> reads r.lock`released {
    if r.timeout > 0 && !r.lock.released then Refresh(r.lock, r.timeout, now) else Wait(now)
  }

  /** What Acquire does: it reads the clock for the expiry of the lock it makes; it judges the lock in the map, if there is one;
      if that is not in the way it installs its own, after whatever holders do meanwhile. */
  ghost predicate AcquireTrace(table: map<NodeId, ClaimLock>, n: NodeId, owner: string, timeout: int, meanwhile: seq<Request>,
                               lk: ClaimLock?, trace: Trace)
    reads (set r | r in meanwhile :: r.lock)`released
  {
    if !ValidRequest(n, owner, timeout) then lk == null && trace == []
    else
      var k := if n in table then 2 else 1;
      && |trace| >= k && trace[0].Wait? && (n in table ==> trace[1].Judge? && trace[1].node == n)
      && if lk == null then n in table && |trace| == 2
         else
           var own: ClaimLock := lk;
           && |trace| > k && Answers(trace[k..|trace| - 1], meanwhile)
           && trace[|trace| - 1] == Install(n, own, owner, trace[0].now + timeout, trace[|trace| - 1].now)
  }

  class Manager {
    var locks: map<NodeId, ClaimLock>
    /** Every lock that a call ever returned. */
    ghost var issued: set<ClaimLock>

    /** The state of the transition system, between calls and after a lock was found expired. */
    ghost function View(now: int, finding: Finding): State<ClaimLock>
      reads this, issued
    {
      State(now, map lk | lk in issued :: lk.Value(), locks, finding)
    }

    /** The map names locks of this manager under their own nodes. */
    ghost predicate Consistent() reads this, issued {
      forall n :: n in locks ==> locks[n] in issued && locks[n].nodeID == n
    }

    constructor ()
      ensures locks == map[] && issued == {} && Consistent() && View(0, Idle) == Start(0)
    {
      locks, issued := map[], {};
    }

    /** One refresh by a holder. */
    method RefreshIssued(r: Request, clock: Clock, ghost finding: Finding) returns (ok: bool, ghost trace: Trace)
      requires Consistent() && r.lock in issued
      modifies r.lock`expiresAt, clock
      ensures Consistent() && IsRun(old(View(clock.time, finding)), trace)
      ensures View(clock.time, finding) == End(old(View(clock.time, finding)), trace)
      ensures trace == [Answer(r, clock.time)]
      ensures old(clock.time) <= clock.time && (ok <==> r.timeout > 0 && !r.lock.released)
      ensures ok <==> Enabled(old(View(clock.time, finding)), Refresh(r.lock, r.timeout, clock.time))
      ensures r.lock.expiresAt == if ok then clock.time + r.timeout else old(r.lock.expiresAt)
      ensures old(clock.jumps) == [] ==> clock.time == old(clock.time) && clock.jumps == []
    {
      ghost var before := View(clock.time, finding);
      ok := r.lock.Refresh(r.timeout, clock);
      ghost var a := Answer(r, clock.time);
      trace := [a];
      assert trace[1..] == [];
      assert View(clock.time, finding).objects == Step(before, a).objects;
    }

    /** What holders do meanwhile. */
    method Meanwhile(requests: seq<Request>, clock: Clock, ghost finding: Finding) returns (ghost trace: Trace)
      requires Consistent() && forall i :: 0 <= i < |requests| ==> requests[i].lock in issued
      modifies (set r | r in requests :: r.lock)`expiresAt, clock
      ensures Consistent() && IsRun(old(View(clock.time, finding)), trace) && Answers(trace, requests)
      ensures View(clock.time, finding) == End(old(View(clock.time, finding)), trace)
      ensures old(clock.time) <= clock.time
      ensures old(clock.jumps) == [] ==> clock.time == old(clock.time) && clock.jumps == []
    {
      hide Step;
      hide Enabled;
      trace := [];
      ghost var start := View(clock.time, finding);
      NoStep(start);
      hide IsRun;
      hide End;
      for i := 0 to |requests|
        invariant Consistent() && IsRun(start, trace) && View(clock.time, finding) == End(start, trace)
        invariant |trace| == i && forall j :: 0 <= j < i ==> trace[j] == Answer(requests[j], trace[j].now)
        invariant old(clock.time) <= clock.time
        invariant old(clock.jumps) == [] ==> clock.time == old(clock.time) && clock.jumps == []
      {
        assert requests[i] in requests;
        var ok;
        ghost var more;
        ok, more := RefreshIssued(requests[i], clock, finding);
        RunConcat(start, trace, more);
        trace := trace + more;
      }
    }

    /** The check of Acquire and ReapExpired. */
    method JudgeLock(n: NodeId, clock: Clock) returns (expired: bool, ghost a: LockRuns.Action<ClaimLock>)
      requires Consistent() && n in locks
      modifies clock
      ensures a == Judge(n, clock.time) && Enabled(old(View(clock.time, Idle)), a)
      ensures View(clock.time, if expired then FoundExpired(n) else Idle) == Step(old(View(clock.time, Idle)), a)
      ensures expired == ExpiredAt(locks[n].Value(), clock.time)
      ensures old(clock.jumps) == [] ==> clock.time == old(clock.time) && clock.jumps == []
    {
      expired := locks[n].IsExpired(clock);
      a := Judge(n, clock.time);
    }

    /** The write of Acquire. */
    method Write(made: ClaimLock, clock: Clock, ghost finding: Finding) returns (ghost a: LockRuns.Action<ClaimLock>)
      requires Consistent() && made !in issued && !made.released
      requires if made.nodeID in locks then finding == FoundExpired(made.nodeID) else finding.Idle?
      modifies this
      ensures Consistent() && issued == old(issued) + {made} && locks == old(locks)[made.nodeID := made]
      ensures a == Install(made.nodeID, made, made.owner, made.expiresAt, clock.time) && Enabled(old(View(clock.time, finding)), a)
      ensures View(clock.time, Idle) == Step(old(View(clock.time, finding)), a)
    {
      a := Install(made.nodeID, made, made.owner, made.expiresAt, clock.time);
      locks := locks[made.nodeID := made];
      issued := issued + {made};
    }

    /** From the check of Acquire to its write. */
    method Settle(made: ClaimLock, clock: Clock, meanwhile: seq<Request>, ghost finding: Finding) returns (ghost trace: Trace)
      requires Consistent() && made !in issued && !made.released
      requires if made.nodeID in locks then finding == FoundExpired(made.nodeID) else finding.Idle?
      requires forall i :: 0 <= i < |meanwhile| ==> meanwhile[i].lock in issued
      modifies this, (set r | r in meanwhile :: r.lock)`expiresAt, clock
      ensures Consistent() && IsRun(old(View(clock.time, finding)), trace)
      ensures View(clock.time, Idle) == End(old(View(clock.time, finding)), trace)
      ensures issued == old(issued) + {made} && locks == old(locks)[made.nodeID := made]
      ensures |trace| >= 1 && Answers(trace[..|trace| - 1], meanwhile)
      ensures trace[|trace| - 1] == Install(made.nodeID, made, made.owner, made.expiresAt, clock.time)
      ensures old(clock.time) <= clock.time
      ensures old(clock.jumps) == [] ==> clock.time == old(clock.time) && clock.jumps == []
    {
      hide IsRun;
      hide End;
      hide Step;
      hide Enabled;
      hide Answers;
      ghost var start := View(clock.time, finding);
      ghost var more := Meanwhile(meanwhile, clock, finding);
      ghost var a := Write(made, clock, finding);
      ExtendRun(start, more, a);
      trace := more + [a];
      assert trace[..|trace| - 1] == more;
    }

    /** Acquire. */
    method Acquire(n: NodeId, owner: string, timeout: int, clock: Clock, meanwhile: seq<Request>)
        returns (lk: ClaimLock?, ghost trace: Trace)
      requires Consistent() && forall i :: 0 <= i < |meanwhile| ==> meanwhile[i].lock in issued
      modifies this, (set r | r in meanwhile :: r.lock)`expiresAt, clock
      ensures Consistent() && IsRun(old(View(clock.time, Idle)), trace)
      ensures View(clock.time, Idle) == End(old(View(clock.time, Idle)), trace)
      ensures AcquireTrace(old(locks), n, owner, timeout, meanwhile, lk, trace)
      ensures lk != null ==> fresh(lk) && issued == old(issued) + {lk} && locks == old(locks)[n := lk]
      ensures lk != null ==>
        lk.nodeID == n && lk.owner == owner && !lk.released && old(clock.time) + timeout <= lk.expiresAt <= clock.time + timeout
      ensures lk == null ==> issued == old(issued) && locks == old(locks)
      ensures lk == null && ValidRequest(n, owner, timeout) ==> n in locks && !ExpiredAt(locks[n].Value(), clock.time)
      ensures old(clock.jumps) == [] ==> clock.time == old(clock.time) && clock.jumps == []
    {
      hide IsRun;
      hide End;
      hide Step;
      hide Enabled;
      hide Answers;
      hide AcquireTrace;
      hide ValidRequest;
      ghost var start := View(clock.time, Idle);
      if !ValidRequest(n, owner, timeout) {
        NoStep(start);
        Refused(locks, n, owner, timeout, meanwhile);
        return null, [];
      }
      var created := clock.Now();
      trace := [Wait(created)];
      Waited(start, created, View(clock.time, Idle));
      var made := new ClaimLock(n, owner, created + timeout);
      ghost var finding := Idle;
      if n in locks {
        var expired;
        ghost var a;
        expired, a := JudgeLock(n, clock);
        ExtendRun(start, trace, a);
        trace := trace + [a];
        if !expired {
          InTheWay(old(locks), n, owner, timeout, meanwhile, trace);
          return null, trace;
        }
        finding := FoundExpired(n);
      }
      ghost var more := Settle(made, clock, meanwhile, finding);
      RunConcat(start, trace, more);
      Installed(old(locks), n, owner, timeout, meanwhile, made, trace, more);
      trace := trace + more;
      lk := made;
    }

    /** Release by the owner, expired or not; whoever still has the object sees it released. */
    method Release(n: NodeId, owner: string, clock: Clock) returns (ok: bool, ghost trace: Trace)
      requires Consistent()
      modifies this`locks, (if n in locks then {locks[n]} else {})
      ensures Consistent() && IsRun(old(View(clock.time, Idle)), trace)
      ensures View(clock.time, Idle) == End(old(View(clock.time, Idle)), trace)
      ensures ok <==> owner != "" && n in old(locks) && old(locks)[n].owner == owner
      ensures trace == if ok then [LockRuns.Action.Release(n, clock.time)] else []
    {
      if owner == "" { return false, []; }
      if n !in locks { return false, []; }
      var lk := locks[n];
      if lk.owner != owner { return false, []; }
      ghost var start := View(clock.time, Idle);
      ghost var a: LockRuns.Action<ClaimLock> := LockRuns.Action.Release(n, clock.time);
      lk.MarkReleased();
      locks := locks - {n};
      assert View(clock.time, Idle).objects == Step(start, a).objects;
      ExtendRun(start, [], a);
      assert [] + [a] == [a];
      return true, [a];
    }

    /** Info: where only locks in the map can be unexpired, the unexpired lock of the node, of all ever returned, or nothing. */
    method Info(n: NodeId, clock: Clock) returns (lk: ClaimLock?)
      requires Consistent()
      modifies clock
      ensures old(clock.time) <= clock.time
      ensures lk != null ==> lk in issued && lk.nodeID == n && !ExpiredAt(lk.Value(), clock.time)
      ensures LockRuns.Valid(View(clock.time, Idle)) ==>
        forall other :: other in issued && other.nodeID == n && !ExpiredAt(other.Value(), clock.time) ==> other == lk
    {
      ghost var view := View(clock.time, Idle);
      if n !in locks {
        assert forall other :: other in issued && !ExpiredAt(other.Value(), clock.time) ==> Live(view, other);
        return null;
      }
      var expired := locks[n].IsExpired(clock);
      view := View(clock.time, Idle);
      assert forall other :: other in issued && !ExpiredAt(other.Value(), clock.time) ==> Live(view, other);
      return if expired then null else locks[n];
    }

    /** One turn of ReapExpired: judge, and if expired delete, after whatever holders do meanwhile. */
    method ReapOne(n: NodeId, clock: Clock, meanwhile: seq<Request>) returns (expired: bool, ghost trace: Trace)
      requires Consistent() && n in locks && forall i :: 0 <= i < |meanwhile| ==> meanwhile[i].lock in issued
      modifies this`locks, (set r | r in meanwhile :: r.lock)`expiresAt, clock
      ensures Consistent() && IsRun(old(View(clock.time, Idle)), trace)
      ensures View(clock.time, Idle) == End(old(View(clock.time, Idle)), trace)
      ensures locks == if expired then old(locks) - {n} else old(locks)
      ensures Judged(trace) == [n] && Deleted(trace) == if expired then [n] else []
      ensures trace != [] && trace[0].Judge?
      ensures if expired then |trace| > 1 && trace[|trace| - 1].Delete? && Answers(trace[1..|trace| - 1], meanwhile)
              else |trace| == 1
    {
      hide IsRun;
      hide End;
      hide Answers;
      hide Judged;
      hide Deleted;
      ghost var start := View(clock.time, Idle);
      ghost var a;
      expired, a := JudgeLock(n, clock);
      NoStep(start);
      ExtendRun(start, [], a);
      trace := [a];
      assert [] + [a] == trace;
      if expired {
        ghost var more := Meanwhile(meanwhile, clock, FoundExpired(n));
        RunConcat(start, trace, more);
        ghost var d := Delete(n, clock.time);
        locks := locks - {n};
        ExtendRun(start, trace + more, d);
        DeletedOne(a, more, meanwhile, d);
        trace := trace + more + [d];
      } else {
        JudgedOne(a);
      }
    }

    /** ReapExpired: each lock in the map at the start is judged once, in some order; those found expired are
        deleted and returned. */
    method ReapExpired(clock: Clock, meanwhile: NodeId -> seq<Request>) returns (reaped: seq<ClaimLock>, ghost trace: Trace)
      requires Consistent() && forall n, i :: 0 <= i < |meanwhile(n)| ==> meanwhile(n)[i].lock in issued
      modifies this`locks, issued`expiresAt, clock
      ensures Consistent() && IsRun(old(View(clock.time, Idle)), trace)
      ensures View(clock.time, Idle) == End(old(View(clock.time, Idle)), trace)
      ensures multiset(Judged(trace)) == multiset(old(locks).Keys)
      ensures |reaped| == |Deleted(trace)| && locks == old(locks) - (set n | n in Deleted(trace))
      ensures forall i :: 0 <= i < |reaped| ==> Deleted(trace)[i] in old(locks) && reaped[i] == old(locks)[Deleted(trace)[i]]
    {
      hide IsRun;
      hide End;
      hide ReapBooks;
      hide Judged;
      hide Deleted;
      reaped, trace := [], [];
      ghost var start, was := View(clock.time, Idle), locks;
      NoStep(start);
      ReapStarts(was);
      var rest := locks.Keys;
      while rest != {}
        invariant Consistent() && rest <= locks.Keys && IsRun(start, trace) && View(clock.time, Idle) == End(start, trace)
        invariant ReapBooks(was, locks, rest, reaped, trace)
        decreases |rest|
      {
        var n :| n in rest;
        var lk := locks[n];
        var expired;
        ghost var more;
        ghost var before := locks;
        expired, more := ReapOne(n, clock, meanwhile(n));
        RunConcat(start, trace, more);
        ReapBooksStep(was, before, rest, reaped, trace, n, expired, more);
        rest := rest - {n};
        if expired { reaped := reaped + [lk]; }
        trace := trace + more;
      }
      ReapEnds(was, locks, reaped, trace);
    }
  }

  /** Between two turns of ReapExpired. */
  ghost predicate ReapBooks(was: map<NodeId, ClaimLock>, locks: map<NodeId, ClaimLock>, rest: set<NodeId>,
                            reaped: seq<ClaimLock>, trace: Trace) {
    && multiset(Judged(trace)) + multiset(rest) == multiset(was.Keys)
    && |reaped| == |Deleted(trace)| && locks == was - (set n | n in Deleted(trace))
    && forall i :: 0 <= i < |reaped| ==> Deleted(trace)[i] in was && reaped[i] == was[Deleted(trace)[i]]
  }

  lemma ReapStarts(was: map<NodeId, ClaimLock>)
    ensures ReapBooks(was, was, was.Keys, [], [])
  {
  }

  lemma ReapBooksStep(was: map<NodeId, ClaimLock>, locks: map<NodeId, ClaimLock>, rest: set<NodeId>, reaped: seq<ClaimLock>,
                      trace: Trace, n: NodeId, expired: bool, more: Trace)
    requires ReapBooks(was, locks, rest, reaped, trace) && n in rest && n in locks
    requires Judged(more) == [n] && Deleted(more) == if expired then [n] else []
    ensures ReapBooks(was, if expired then locks - {n} else locks, rest - {n},
                      if expired then reaped + [locks[n]] else reaped, trace + more)
  {
    NodesConcat(trace, more);
    hide Judged;
    hide Deleted;
    assert multiset(rest) == multiset(rest - {n}) + multiset{n};
    SetOneMore(Deleted(trace), n);
  }

  lemma ReapEnds(was: map<NodeId, ClaimLock>, locks: map<NodeId, ClaimLock>, reaped: seq<ClaimLock>, trace: Trace)
    requires ReapBooks(was, locks, {}, reaped, trace)
    ensures multiset(Judged(trace)) == multiset(was.Keys)
    ensures |reaped| == |Deleted(trace)| && locks == was - (set n | n in Deleted(trace))
    ensures forall i :: 0 <= i < |reaped| ==> Deleted(trace)[i] in was && reaped[i] == was[Deleted(trace)[i]]
  {
    assert multiset(Judged(trace)) + multiset({}) == multiset(Judged(trace));
  }

  /** The nodes judged and the nodes deleted, in order. */
  ghost function Judged(trace: Trace): seq<NodeId> {
    if trace == [] then [] else (if trace[0].Judge? then [trace[0].node] else []) + Judged(trace[1..])
  }

  ghost function Deleted(trace: Trace): seq<NodeId> {
    if trace == [] then [] else (if trace[0].Delete? then [trace[0].node] else []) + Deleted(trace[1..])
  }

  lemma {:induction false} NodesConcat(a: Trace, b: Trace)
    ensures Judged(a + b) == Judged(a) + Judged(b) && Deleted(a + b) == Deleted(a) + Deleted(b)
  {
    if a == [] {
      assert a + b == b;
    } else {
      assert (a + b)[1..] == a[1..] + b;
      NodesConcat(a[1..], b);
    }
  }

  lemma {:induction false} Quiet(trace: Trace)
    requires forall i :: 0 <= i < |trace| ==> trace[i].Refresh? || trace[i].Wait?
    ensures Judged(trace) == [] && Deleted(trace) == []
  {
    if trace != [] { Quiet(trace[1..]); }
  }

  lemma JudgedOne(a: LockRuns.Action<ClaimLock>)
    requires a.Judge?
    ensures Judged([a]) == [a.node] && Deleted([a]) == []
  {
    assert [a][1..] == [];
  }

  lemma DeletedOne(a: LockRuns.Action<ClaimLock>, more: Trace, requests: seq<Request>, d: LockRuns.Action<ClaimLock>)
    requires a.Judge? && Answers(more, requests) && d.Delete?
    ensures Judged([a] + more + [d]) == [a.node] && Deleted([a] + more + [d]) == [d.node]
    ensures ([a] + more + [d])[1..|[a] + more|] == more
  {
    JudgedOne(a);
    Quiet(more);
    NodesConcat([a], more);
    NodesConcat([a] + more, [d]);
    assert [d][1..] == [];
  }

  lemma NoStep(s: State<ClaimLock>)
    ensures IsRun(s, []) && End(s, []) == s
  {
  }

  lemma Refused(table: map<NodeId, ClaimLock>, n: NodeId, owner: string, timeout: int, meanwhile: seq<Request>)
    requires !ValidRequest(n, owner, timeout)
    ensures AcquireTrace(table, n, owner, timeout, meanwhile, null, [])
  {
  }

  lemma InTheWay(table: map<NodeId, ClaimLock>, n: NodeId, owner: string, timeout: int, meanwhile: seq<Request>, trace: Trace)
    requires ValidRequest(n, owner, timeout) && n in table
    requires |trace| == 2 && trace[0].Wait? && trace[1].Judge? && trace[1].node == n
    ensures AcquireTrace(table, n, owner, timeout, meanwhile, null, trace)
  {
  }

  lemma Installed(table: map<NodeId, ClaimLock>, n: NodeId, owner: string, timeout: int, meanwhile: seq<Request>, lk: ClaimLock,
                  first: Trace, more: Trace)
    requires ValidRequest(n, owner, timeout) && |first| == (if n in table then 2 else 1)
    requires first[0].Wait? && (n in table ==> first[1].Judge? && first[1].node == n)
    requires |more| >= 1 && Answers(more[..|more| - 1], meanwhile)
    requires more[|more| - 1] == Install(n, lk, owner, first[0].now + timeout, more[|more| - 1].now)
    ensures AcquireTrace(table, n, owner, timeout, meanwhile, lk, first + more)
  {
    assert (first + more)[|first|..|first + more| - 1] == more[..|more| - 1];
  }

  lemma Waited(s: State<ClaimLock>, now: int, later: State<ClaimLock>)
    requires s.now <= now && later == s.(now := now)
    ensures IsRun(s, [Wait(now)]) && End(s, [Wait(now)]) == later
  {
    var a: LockRuns.Action<ClaimLock> := Wait(now);
    assert [a][1..] == [];
  }

  lemma ExtendRun(s: State<ClaimLock>, trace: Trace, a: LockRuns.Action<ClaimLock>)
    requires IsRun(s, trace) && Enabled(End(s, trace), a)
    ensures IsRun(s, trace + [a]) && End(s, trace + [a]) == Step(End(s, trace), a)
  {
    assert [a][1..] == [];
    RunConcat(s, trace, [a]);
  }

  // ---- What holders can break --------------------------------------------------------------------------------

  /** An agent acquires the node and lets its lock expire. */
  method LetExpire(n: NodeId, owner: string, timeout: int) returns (m: Manager, clock: Clock, lk: ClaimLock)
    requires ValidRequest(n, owner, timeout)
    ensures fresh(m) && fresh(clock) && fresh(lk) && m.issued == {lk} && m.locks == map[n := lk] && m.Consistent()
    ensures lk.nodeID == n && lk.owner == owner && !lk.released && ExpiredAt(lk.Value(), clock.time) && clock.jumps == []
  {
    hide ValidRequest;
    hide IsRun;
    hide End;
    hide AcquireTrace;
    clock := new Clock(0, []);
    m := new Manager();
    var made;
    ghost var trace;
    made, trace := m.Acquire(n, owner, timeout, clock, []);
    clock.time := timeout + CLOCK_SKEW_TOLERANCE + 1;
    lk := made;
  }

  lemma TwoUnexpired(s: State<ClaimLock>, a: ClaimLock, b: ClaimLock)
    requires a != b && a in s.objects && b in s.objects && s.objects[a].node == s.objects[b].node
    requires !ExpiredAt(s.objects[a], s.now) && !ExpiredAt(s.objects[b], s.now)
    ensures Live(s, a) && Live(s, b) && !Exclusive(s)
  {
    assert Live(s, a) && Live(s, b);
  }

  /** A lock refreshed after it was replaced: the first agent lets its lock expire, the second takes the node over, the first
      refreshes its old lock, and both hold an unexpired lock. */
  method RefreshAfterReplacement(n: NodeId, a: string, b: string, timeout: int)
      returns (m: Manager, clock: Clock, first: ClaimLock, second: ClaimLock)
    requires ValidRequest(n, a, timeout) && ValidRequest(n, b, timeout)
    ensures first != second && first.nodeID == second.nodeID == n && first.owner == a && second.owner == b
    ensures m.issued == {first, second} && m.locks == map[n := second]
    ensures Live(m.View(clock.time, Idle), first) && Live(m.View(clock.time, Idle), second) && !Exclusive(m.View(clock.time, Idle))
  {
    assert timeout > 0;
    hide ValidRequest;
    hide IsRun;
    hide End;
    hide Step;
    hide Enabled;
    hide AcquireTrace;
    hide Live;
    hide Exclusive;
    m, clock, first := LetExpire(n, a, timeout);
    var other;
    ghost var trace;
    other, trace := m.Acquire(n, b, timeout, clock, []);
    second := other;
    var ok;
    ok, trace := m.RefreshIssued(Request(first, timeout), clock, Idle);
    TwoUnexpired(m.View(clock.time, Idle), first, second);
  }

  /** A lock refreshed while it is in the map, between the check and the write of another agent's Acquire: both hold an unexpired
      lock. */
  method RefreshDuringAcquire(n: NodeId, a: string, b: string, timeout: int)
      returns (m: Manager, clock: Clock, first: ClaimLock, second: ClaimLock)
    requires ValidRequest(n, a, timeout) && ValidRequest(n, b, timeout)
    ensures first != second && first.nodeID == second.nodeID == n && first.owner == a && second.owner == b
    ensures m.issued == {first, second} && m.locks == map[n := second]
    ensures Live(m.View(clock.time, Idle), first) && Live(m.View(clock.time, Idle), second) && !Exclusive(m.View(clock.time, Idle))
  {
    hide IsRun;
    hide End;
    hide Step;
    hide Enabled;
    hide AcquireTrace;
    hide Live;
    hide Exclusive;
    m, clock, first := LetExpire(n, a, timeout);
    ghost var start := m.View(clock.time, Idle);
    var other;
    ghost var trace;
    other, trace := m.Acquire(n, b, timeout, clock, [Request(first, timeout)]);
    TakenOver(start, n, b, timeout, first, other, trace);
    second := other;
  }

  lemma TakenOver(s: State<ClaimLock>, n: NodeId, owner: string, timeout: int, first: ClaimLock, second: ClaimLock?, trace: Trace)
    requires IsRun(s, trace) && End(s, trace).now == s.now && s.table == map[n := first] && first in s.objects
    requires s.objects[first].node == n && ExpiredAt(s.objects[first], s.now) && !first.released
    requires ValidRequest(n, owner, timeout) && AcquireTrace(s.table, n, owner, timeout, [Request(first, timeout)], second, trace)
    requires second == null ==> first in End(s, trace).objects && !ExpiredAt(End(s, trace).objects[first], s.now)
    ensures second != null && Live(End(s, trace), first) && Live(End(s, trace), second) && !Exclusive(End(s, trace))
  {
    assert timeout > 0;
    hide IsRun;
    hide End;
    hide Live;
    hide Exclusive;
    hide ValidRequest;
    var s1 := AfterFirst(s, trace);
    var s2 := AfterFirst(s1, trace[1..]);
    NoStep(s2);
    assert trace[1..][1..] == trace[2..];
    assert second != null;
    var own: ClaimLock := second;
    assert trace[2..|trace| - 1][0] == trace[2];
    var s3 := AfterFirst(s2, trace[1..][1..]);
    var s4 := AfterFirst(s3, trace[1..][1..][1..]);
    NoStep(s4);
    assert trace[1..][1..][1..][1..] == [];
    TwoUnexpired(s4, first, own);
  }

  lemma AfterFirst(s: State<ClaimLock>, run: Trace) returns (s': State<ClaimLock>)
    requires run != [] && IsRun(s, run)
    ensures Enabled(s, run[0]) && s' == Step(s, run[0]) && IsRun(s', run[1..]) && End(s, run) == End(s', run[1..])
  {
    s' := Step(s, run[0]);
  }
}
