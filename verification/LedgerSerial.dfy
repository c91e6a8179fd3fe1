/**
  What the runs of the ledger protocol mean for its callers: every event is written once, at the number returned for it, and
  two calls never own one number.
 */
module LedgerSerial {
  import opened LedgerProtocol

  // ---- Every event once, at the number returned -------------------------------------------

  function EventsOf<E>(call: Call<E>): seq<E> {
    if call.AppendBatch? then call.events else [call.event]
  }

  /** Whether a call has an event of its own in the ledger at number `k`. */
  predicate Wrote<E>(p: Proc<E>, k: nat) {
    match p
    case Renaming(AppendBatch(es), next, done) => next <= k < next + done && k < next + |es|
    case RollingBack(AppendBatch(es), next, done, removed) => next + removed <= k < next + done && k < next + |es|
    case Releasing(call, Ok(n)) => n <= k < n + |EventsOf(call)|
    case Verified(call, Ok(n)) => n <= k < n + |EventsOf(call)|
    case Finished(call, Ok(n)) => n <= k < n + |EventsOf(call)|
    case _ => false
  }

  /** That event. */
  function EventAt<E>(p: Proc<E>, k: nat): E
    requires Wrote(p, k)
  {
    if p.Renaming? || p.RollingBack? then p.call.events[k - p.next] else EventsOf(p.call)[k - p.outcome.number]
  }

  /** The files beyond the first `n` are those their authors wrote. */
  ghost predicate EveryFileWritten<E>(s: State<E>, n: nat) {
    forall k :: k in s.dir && k > n ==>
      && s.dir[k].author in s.procs
      && Wrote(s.procs[s.dir[k].author], k)
      && s.dir[k].event == EventAt(s.procs[s.dir[k].author], k)
  }

  /** What a call wrote is in the directory, under its name. */
  ghost predicate WritesPresent<E>(s: State<E>, n: nat, pid: Pid, p: Proc<E>) {
    forall k: nat :: Wrote(p, k) ==> k > n && k in s.dir && s.dir[k] == File(EventAt(p, k), pid)
  }

  ghost predicate OwnInv<E>(s: State<E>, n: nat, before: map<nat, File<E>>) {
    && EveryFileWritten(s, n)
    && (forall pid :: pid in s.procs ==> WritesPresent(s, n, pid, s.procs[pid]) && BatchBounds(s.procs[pid]))
    && (forall k :: 1 <= k <= n ==> k in s.dir && k in before && s.dir[k] == before[k])
  }

  predicate BatchBounds<E>(p: Proc<E>) {
    match p
    case Renaming(AppendBatch(es), _, done) => done <= |es|
    case RollingBack(AppendBatch(es), _, done, removed) => removed <= done <= |es|
    case _ => true
  }

  /** What `p'` wrote is what `p` wrote, together with event `e` at number `k`. */
  ghost predicate WroteAlso<E>(p: Proc<E>, p': Proc<E>, k: nat, e: E) {
    && !Wrote(p, k) && Wrote(p', k) && EventAt(p', k) == e
    && forall j: nat :: j != k ==> SameAt(p, p', j)
  }

  ghost predicate SameAt<E>(p: Proc<E>, p': Proc<E>, j: nat) {
    Wrote(p', j) == Wrote(p, j) && (Wrote(p, j) ==> EventAt(p', j) == EventAt(p, j))
  }

  lemma WrittenAfterRename<E>(p: Proc<E>)
    requires (p.Sequenced? || p.Renaming?) && Pending(p).Some? && BatchBounds(p) && WellFormedCall(p)
    ensures
      var p' := AfterRename(p.call, p.next, Done(p));
      WroteAlso(p, p', p.next + Done(p), Pending(p).value) && BatchBounds(p')
  {
  }

  lemma WrittenAfterRemoval<E>(p: Proc<E>)
    requires p.RollingBack? && p.removed < p.done && BatchBounds(p) && WellFormedCall(p)
    ensures
      var p' := AfterRemoval(p.call, p.next, p.done, p.removed + 1);
      && BatchBounds(p') && Wrote(p, p.next + p.removed)
      && WroteAlso(p', p, p.next + p.removed, EventAt(p, p.next + p.removed))
  {
  }

  /** A file that did not exist, put in place by a call that now counts it as written. */
  lemma OwnAdd<E>(s: State<E>, s': State<E>, n: nat, before: map<nat, File<E>>, pid: Pid, p': Proc<E>, k: nat, e: E)
    requires OwnInv(s, n, before) && pid in s.procs && BatchBounds(p')
    requires k !in s.dir && k > n
    requires s'.dir == s.dir[k := File(e, pid)] && s'.procs == s.procs[pid := p']
    requires WroteAlso(s.procs[pid], p', k, e)
    ensures OwnInv(s', n, before)
  {
    forall q | q in s'.procs ensures WritesPresent(s', n, q, s'.procs[q]) && BatchBounds(s'.procs[q]) {
      assert q in s.procs && WritesPresent(s, n, q, s.procs[q]);
      forall j: nat | Wrote(s'.procs[q], j)
        ensures j > n && j in s'.dir && s'.dir[j] == File(EventAt(s'.procs[q], j), q)
      {
        if j != k { assert SameAt(s.procs[pid], p', j); }
      }
    }
    forall j | j in s'.dir && j > n
      ensures s'.dir[j].author in s'.procs && Wrote(s'.procs[s'.dir[j].author], j)
      ensures s'.dir[j].event == EventAt(s'.procs[s'.dir[j].author], j)
    {
      if j != k { assert SameAt(s.procs[pid], p', j); }
    }
  }

  /** A file removed by the call that wrote it. */
  lemma OwnDrop<E>(s: State<E>, s': State<E>, n: nat, before: map<nat, File<E>>, pid: Pid, p': Proc<E>, k: nat)
    requires OwnInv(s, n, before) && pid in s.procs && BatchBounds(p')
    requires s'.dir == s.dir - {k} && s'.procs == s.procs[pid := p']
    requires Wrote(s.procs[pid], k) && WroteAlso(p', s.procs[pid], k, EventAt(s.procs[pid], k))
    ensures OwnInv(s', n, before)
  {
    assert WritesPresent(s, n, pid, s.procs[pid]);
    assert s.dir[k].author == pid;
    forall q | q in s'.procs ensures WritesPresent(s', n, q, s'.procs[q]) && BatchBounds(s'.procs[q]) {
      assert q in s.procs && WritesPresent(s, n, q, s.procs[q]);
      forall j: nat | Wrote(s'.procs[q], j)
        ensures j > n && j in s'.dir && s'.dir[j] == File(EventAt(s'.procs[q], j), q)
      {
        if j != k { assert SameAt(p', s.procs[pid], j); }
      }
    }
    forall j | j in s'.dir && j > n
      ensures s'.dir[j].author in s'.procs && Wrote(s'.procs[s'.dir[j].author], j)
      ensures s'.dir[j].event == EventAt(s'.procs[s'.dir[j].author], j)
    {
      assert SameAt(p', s.procs[pid], j);
    }
  }

  /** A step that leaves alone the directory and what its call has written. */
  lemma OwnKeep<E>(s: State<E>, s': State<E>, n: nat, before: map<nat, File<E>>, pid: Pid, p': Proc<E>)
    requires OwnInv(s, n, before) && BatchBounds(p')
    requires s'.dir == s.dir && s'.procs == s.procs[pid := p']
    requires forall j: nat :: if pid in s.procs then SameAt(s.procs[pid], p', j) else !Wrote(p', j)
    ensures OwnInv(s', n, before)
  {
    forall q | q in s'.procs ensures WritesPresent(s', n, q, s'.procs[q]) && BatchBounds(s'.procs[q]) {
      if q in s.procs { assert WritesPresent(s, n, q, s.procs[q]); }
      forall j: nat | Wrote(s'.procs[q], j)
        ensures j > n && j in s'.dir && s'.dir[j] == File(EventAt(s'.procs[q], j), q)
      {
        if q == pid { assert pid in s.procs && SameAt(s.procs[pid], p', j); }
      }
    }
    forall j | j in s'.dir && j > n
      ensures s'.dir[j].author in s'.procs && Wrote(s'.procs[s'.dir[j].author], j)
      ensures s'.dir[j].event == EventAt(s'.procs[s'.dir[j].author], j)
    {
      if s.dir[j].author == pid { assert SameAt(s.procs[pid], p', j); }
    }
  }

  lemma WrittenOtherwise<E>(c: Clients<E>, s: State<E>, pid: Pid, a: Action<E>)
    requires pid in s.procs && EnabledIn(c, s, s.procs[pid], a)
    requires WellFormedCall(s.procs[pid]) && BatchBounds(s.procs[pid])
    requires !a.Rename? && !a.RemoveEvent? && !a.RemoveEventFails?
    ensures
      var p, s' := s.procs[pid], Move(c, s, pid, s.procs[pid], a);
      && s'.dir == s.dir && pid in s'.procs && s'.procs == s.procs[pid := s'.procs[pid]]
      && BatchBounds(s'.procs[pid]) && forall j: nat :: SameAt(p, s'.procs[pid], j)
  {
  }

  lemma OwnStep<E>(c: Clients<E>, s: State<E>, n: nat, before: map<nat, File<E>>, l: Label<E>)
    requires ShapeInv(s) && OwnInv(s, n, before) && Enabled(c, s, l) && !l.action.RemoveEventFails?
    ensures OwnInv(Apply(c, s, l), n, before)
  {
    hide *;
    match l.action
    case Rename => OwnRename(c, s, n, before, l);
    case RemoveEvent => OwnRemoveEvent(c, s, n, before, l);
    case _ => OwnOther(c, s, n, before, l);
  }

  lemma OwnOther<E>(c: Clients<E>, s: State<E>, n: nat, before: map<nat, File<E>>, l: Label<E>)
    requires ShapeInv(s) && OwnInv(s, n, before) && Enabled(c, s, l)
    requires !l.action.Rename? && !l.action.RemoveEvent? && !l.action.RemoveEventFails?
    ensures OwnInv(Apply(c, s, l), n, before)
  {
    if l.pid in s.procs {
      assert WellFormedCall(s.procs[l.pid]) && BatchBounds(s.procs[l.pid]);
      WrittenOtherwise(c, s, l.pid, l.action);
    }
    OwnKeep(s, Apply(c, s, l), n, before, l.pid, Apply(c, s, l).procs[l.pid]);
  }

  lemma RemoveEventEffect<E>(c: Clients<E>, s: State<E>, l: Label<E>)
    requires Enabled(c, s, l) && l.action.RemoveEvent?
    ensures l.pid in s.procs && s.procs[l.pid].RollingBack?
    ensures
      var p, s' := s.procs[l.pid], Apply(c, s, l);
      && s'.dir == s.dir - {p.next + p.removed}
      && s'.procs == s.procs[l.pid := AfterRemoval(p.call, p.next, p.done, p.removed + 1)]
  {
  }

  lemma RenameEffect<E>(c: Clients<E>, s: State<E>, l: Label<E>)
    requires Enabled(c, s, l) && l.action.Rename?
    ensures l.pid in s.procs && (s.procs[l.pid].Sequenced? || s.procs[l.pid].Renaming?) && Pending(s.procs[l.pid]).Some?
    ensures
      var p, s' := s.procs[l.pid], Apply(c, s, l);
      && s'.dir == s.dir[p.next + Done(p) := File(Pending(p).value, l.pid)]
      && s'.procs == s.procs[l.pid := AfterRename(p.call, p.next, Done(p))]
  {
  }

  lemma CallFacts<E>(s: State<E>, n: nat, before: map<nat, File<E>>, pid: Pid)
    requires ShapeInv(s) && OwnInv(s, n, before) && pid in s.procs
    ensures
      var p := s.procs[pid];
      && WellFormedCall(p) && BatchBounds(p) && (p.RollingBack? ==> p.removed < p.done)
      && (p.Sequenced? || p.Renaming? ==> p.next + Done(p) !in s.dir && p.next + Done(p) > n)
  {
    var p := s.procs[pid];
    assert ShapeFor(s.dir, p);
    if p.Sequenced? || p.Renaming? {
      assert p.next + Done(p) !in s.dir.Keys;
      assert n >= 1 ==> n in s.dir.Keys;
    }
  }

  lemma OwnRemoveEvent<E>(c: Clients<E>, s: State<E>, n: nat, before: map<nat, File<E>>, l: Label<E>)
    requires ShapeInv(s) && OwnInv(s, n, before) && Enabled(c, s, l) && l.action.RemoveEvent?
    ensures OwnInv(Apply(c, s, l), n, before)
  {
    hide *;
    RemoveEventEffect(c, s, l);
    var p := s.procs[l.pid];
    CallFacts(s, n, before, l.pid);
    WrittenAfterRemoval(p);
    OwnDrop(s, Apply(c, s, l), n, before, l.pid, AfterRemoval(p.call, p.next, p.done, p.removed + 1), p.next + p.removed);
  }

  lemma OwnRename<E>(c: Clients<E>, s: State<E>, n: nat, before: map<nat, File<E>>, l: Label<E>)
    requires ShapeInv(s) && OwnInv(s, n, before) && Enabled(c, s, l) && l.action.Rename?
    ensures OwnInv(Apply(c, s, l), n, before)
  {
    hide *;
    RenameEffect(c, s, l);
    var p := s.procs[l.pid];
    CallFacts(s, n, before, l.pid);
    WrittenAfterRename(p);
    OwnAdd(s, Apply(c, s, l), n, before, l.pid, AfterRename(p.call, p.next, Done(p)), p.next + Done(p), Pending(p).value);
  }

  lemma {:induction false} OwnRun<E>(c: Clients<E>, s: State<E>, n: nat, before: map<nat, File<E>>, run: seq<Label<E>>)
    requires MutexInv(s) && ShapeInv(s) && OwnInv(s, n, before)
    requires IsRun(c, s, run) && RollbacksSucceed(run)
    ensures OwnInv(End(c, s, run), n, before)
    decreases |run|
  {
    hide Apply;
    hide Enabled;
    hide MutexInv;
    hide ShapeInv;
    hide OwnInv;
    if run != [] {
      assert !run[0].action.RemoveEventFails?;
      MutexStep(c, s, run[0]);
      ShapeStep(c, s, run[0]);
      OwnStep(c, s, n, before, run[0]);
      OwnRun(c, Apply(c, s, run[0]), n, before, run[1..]);
    }
  }

  /** In every run whose rollbacks succeed: the events present at the start are still there,
      unchanged; a call that returned a number finds its events there, in order; two calls
      never share a number; and every later event belongs to exactly such a call, or to a
      batch still at work. */
  lemma EveryEventOnce<E>(c: Clients<E>, s: State<E>, n: nat, run: seq<Label<E>>)
    requires Initial(s, n) && IsRun(c, s, run) && RollbacksSucceed(run)
    ensures
      var e := End(c, s, run);
      && (forall k :: 1 <= k <= n ==> k in e.dir && e.dir[k] == s.dir[k])
      && (forall pid :: pid in e.procs ==> WritesPresent(e, n, pid, e.procs[pid]))
      && EveryFileWritten(e, n)
  {
    OwnRun(c, s, n, s.dir, run);
  }

  /** Two calls never share a number. */
  lemma NumbersAreDistinct<E>(c: Clients<E>, s: State<E>, n: nat, run: seq<Label<E>>, p: Pid, q: Pid, k: nat)
    requires Initial(s, n) && IsRun(c, s, run) && RollbacksSucceed(run)
    requires p in End(c, s, run).procs && q in End(c, s, run).procs
    ensures Wrote(End(c, s, run).procs[p], k) && Wrote(End(c, s, run).procs[q], k) ==> p == q
  {
    EveryEventOnce(c, s, n, run);
    var e := End(c, s, run);
    assert WritesPresent(e, n, p, e.procs[p]) && WritesPresent(e, n, q, e.procs[q]);
  }
}
