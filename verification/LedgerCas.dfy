/**
  Compare-and-swap appends over the ledger protocol (internal/ledger/append.go with the callers of
  internal/service/proof.go): on which ledger a call commits, and that single calls take effect in one atomic step.
 */
module LedgerCas {
  import opened LedgerProtocol
  import opened LedgerSerial
  import opened LedgerReads

  // ---- The ledger as a sequence -------------------------------------------------------------

  ghost function Prefix<E>(dir: map<nat, File<E>>, n: nat): (r: seq<File<E>>)
    requires forall k: nat :: 1 <= k <= n ==> k in dir
    ensures |r| == n && forall i :: 0 <= i < n ==> r[i] == dir[i + 1]
  {
    seq(n, i requires 0 <= i < n => dir[i + 1])
  }

  /** The files of a ledger 1..n, in order. */
  ghost function Record<E>(dir: map<nat, File<E>>): (r: seq<File<E>>)
    requires Contiguous(dir.Keys)
    ensures Upto(dir.Keys, |r|) && forall i :: 0 <= i < |r| ==> r[i] == dir[i + 1]
  {
    var n: nat :| Upto(dir.Keys, n);
    assert forall k: nat :: 1 <= k <= n ==> k in dir.Keys;
    Prefix(dir, n)
  }

  /** Their events. */
  ghost function Ledger<E>(dir: map<nat, File<E>>): (r: seq<E>)
    requires Contiguous(dir.Keys)
    ensures |r| == |Record(dir)| && forall i :: 0 <= i < |r| ==> r[i] == Record(dir)[i].event
  {
    Contents(Record(dir))
  }

  lemma LedgerIs<E>(dir: map<nat, File<E>>, n: nat)
    requires Upto(dir.Keys, n)
    ensures Contiguous(dir.Keys) && |Record(dir)| == n && |Ledger(dir)| == n
  {
    var m := |Record(dir)|;
    assert Upto(dir.Keys, m);
    assert n >= 1 ==> n in dir.Keys;
    assert m >= 1 ==> m in dir.Keys;
    assert m + 1 !in dir.Keys && n + 1 !in dir.Keys;
  }

  /** A ledger as long as what was read is what was read exactly if all of it is still in place. */
  lemma RecordIsRead<E>(dir: map<nat, File<E>>, read: seq<File<E>>)
    requires Upto(dir.Keys, |read|)
    ensures Contiguous(dir.Keys) && (Record(dir) == read <==> StillThere(dir, read))
  {
    LedgerIs(dir, |read|);
    if Record(dir) == read {
      forall i | 0 <= i < |read| ensures InPlace(dir, i + 1, read[i]) { assert i + 1 in dir.Keys; }
    }
    if StillThere(dir, read) {
      forall i | 0 <= i < |read| ensures Record(dir)[i] == read[i] { assert InPlace(dir, i + 1, read[i]); }
    }
  }

  // ---- What a call carries ------------------------------------------------------------------

  /** Where the event came from: free, or accepted by its check or guard on what its caller read. */
  ghost predicate Vouched<E>(c: Clients<E>, call: Call<E>) {
    match call
    case Append(e, None) => c.free(e)
    case Append(e, Some(read)) => c.check(Contents(read), e)
    case AppendIf(e, expected, read) => expected == |read| && c.guard(Contents(read), e)
    case AppendBatch(es) => forall k :: 0 <= k < |es| ==> c.free(es[k])
  }

  /** A compare-and-swap call past its comparison has the number it expects. */
  predicate AsExpected<E>(p: Proc<E>) {
    match p
    case Sequenced(AppendIf(_, expected, _), next) => next - 1 == expected
    case Releasing(AppendIf(_, expected, _), Ok(number)) => number - 1 == expected
    case Verified(AppendIf(_, expected, _), Ok(number)) => number - 1 == expected
    case Finished(AppendIf(_, expected, _), Ok(number)) => number - 1 == expected
    case _ => true
  }

  ghost predicate CallInv<E>(c: Clients<E>, p: Proc<E>) { AsExpected(p) && (p.Reading? || Vouched(c, p.call)) }

  lemma OwnCallStep<E>(c: Clients<E>, s: State<E>, l: Label<E>)
    requires Enabled(c, s, l) && (l.pid in s.procs ==> CallInv(c, s.procs[l.pid]) && WellFormedCall(s.procs[l.pid]))
    ensures l.pid in Apply(c, s, l).procs && CallInv(c, Apply(c, s, l).procs[l.pid])
  {
    hide Contents;
    hide IsNextSequence;
  }

  ghost predicate CallsInv<E>(c: Clients<E>, s: State<E>) { forall q :: q in s.procs ==> CallInv(c, s.procs[q]) }

  lemma CallStep<E>(c: Clients<E>, s: State<E>, l: Label<E>)
    requires Enabled(c, s, l) && CallsInv(c, s) && ShapeInv(s)
    ensures CallsInv(c, Apply(c, s, l))
  {
    hide Apply;
    hide Enabled;
    hide CallInv;
    OwnCallStep(c, s, l);
    forall q | q in Apply(c, s, l).procs ensures CallInv(c, Apply(c, s, l).procs[q]) { OthersUntouched(c, s, l, q); }
  }

  lemma {:induction false} CallRun<E>(c: Clients<E>, s: State<E>, run: seq<Label<E>>)
    requires MutexInv(s) && ShapeInv(s) && CallsInv(c, s) && IsRun(c, s, run) && RollbacksSucceed(run)
    ensures MutexInv(End(c, s, run)) && ShapeInv(End(c, s, run)) && CallsInv(c, End(c, s, run))
    decreases |run|
  {
    hide Apply;
    hide Enabled;
    hide MutexInv;
    hide ShapeInv;
    hide CallsInv;
    if run != [] {
      assert !run[0].action.RemoveEventFails?;
      MutexStep(c, s, run[0]);
      ShapeStep(c, s, run[0]);
      CallStep(c, s, run[0]);
      CallRun(c, Apply(c, s, run[0]), run[1..]);
    }
  }

  // ---- Compare-and-swap ------------------------------------------------------------------------

  /** The state of a compare-and-swap call about to rename. */
  lemma AboutToCommit<E>(c: Clients<E>, s: State<E>, pid: Pid)
    requires MutexInv(s) && ShapeInv(s) && CallsInv(c, s)
    requires Enabled(c, s, Label(pid, Rename)) && s.procs[pid].call.AppendIf?
    ensures
      var p, s' := s.procs[pid], Apply(c, s, Label(pid, Rename));
      && p.call.expected == |p.call.read| && c.guard(Contents(p.call.read), p.call.event)
      && Upto(s.dir.Keys, |p.call.read|) && ReadBy(p) == p.call.read
      && s'.dir == s.dir[|p.call.read| + 1 := File(p.call.event, pid)]
      && s'.procs[pid] == Releasing(p.call, Ok(|p.call.read| + 1))
  {
    var p := s.procs[pid];
    RenameEffect(c, s, Label(pid, Rename));
    hide Apply;
    hide Enabled;
    assert WellFormedCall(p) && ShapeFor(s.dir, p) && CallInv(c, p);
  }

  /** In every run whose rollbacks succeed, a compare-and-swap call that is about to rename its event has the guard's consent to
      what its caller read, gets the number after those it read, and finds the ledger to be exactly the files its caller read if
      and only if none of their numbers was removed after it had been read. */
  lemma CompareAndSwapExactly<E>(c: Clients<E>, s: State<E>, n: nat, run: seq<Label<E>>, pid: Pid)
    requires Initial(s, n) && IsRun(c, s, run) && RollbacksSucceed(run)
    requires Enabled(c, End(c, s, run), Label(pid, Rename)) && End(c, s, run).procs[pid].call.AppendIf?
    ensures
      var e := End(c, s, run);
      var call, e' := e.procs[pid].call, Apply(c, e, Label(pid, Rename));
      && call.expected == |call.read| && c.guard(Contents(call.read), call.event)
      && Contiguous(e.dir.Keys) && |Record(e.dir)| == |call.read|
      && Contiguous(e'.dir.Keys) && Record(e'.dir) == Record(e.dir) + [File(call.event, pid)]
      && e'.procs[pid] == Releasing(call, Ok(|call.read| + 1))
      && (Record(e.dir) == call.read <==> pid !in Stale(c, s, run))
  {
    CallRun(c, s, run);
    ReadsHoldExactly(c, s, n, run, pid);
    var e := End(c, s, run);
    AboutToCommit(c, e, pid);
    var call := e.procs[pid].call;
    RecordIsRead(e.dir, call.read);
    LedgerAdd(e.dir, |call.read| + 1, File(call.event, pid));
  }

  /** So of every event committed by compare-and-swap: its number follows those its caller read, its guard accepted them, and
      the files before it are the ones read exactly if none of them was removed after it had been read. */
  lemma CommittedExactly<E>(c: Clients<E>, s: State<E>, n: nat, run: seq<Label<E>>, k: nat)
    requires Initial(s, n) && IsRun(c, s, run) && RollbacksSucceed(run)
    requires k in End(c, s, run).dir && k > n
    ensures
      var e := End(c, s, run);
      var author := e.dir[k].author;
      && author in e.procs && !e.procs[author].Reading?
      && var call := e.procs[author].call;
         && Vouched(c, call) && e.dir[k].event in EventsOf(call)
         && (call.AppendIf? ==> k == |call.read| + 1 && e.dir[k].event == call.event)
         && (call.AppendIf? ==> (StillThere(e.dir, call.read) <==> author !in Stale(c, s, run)))
  {
    CallRun(c, s, run);
    EveryEventOnce(c, s, n, run);
    var e := End(c, s, run);
    ReadsHoldExactly(c, s, n, run, e.dir[k].author);
    hide End;
    hide IsRun;
    hide Stale;
    var p := e.procs[e.dir[k].author];
    assert CallInv(c, p) && WellFormedCall(p);
  }

  // ---- Without rollbacks the ledger only grows, at its end -----------------------------------

  ghost predicate NothingRemoved<E>(s: State<E>) {
    forall pid :: pid in s.procs && s.procs[pid].RollingBack? ==> s.procs[pid].removed == 0
  }

  predicate Removes<E>(a: Action<E>) { a.RemoveEvent? || a.RemoveEventFails? }

  lemma NothingRemovedStep<E>(c: Clients<E>, s: State<E>, l: Label<E>)
    requires NothingRemoved(s) && Enabled(c, s, l) && !Removes(l.action)
    ensures NothingRemoved(Apply(c, s, l))
  {
    var s' := Apply(c, s, l);
    forall pid | pid in s'.procs && s'.procs[pid].RollingBack? ensures s'.procs[pid].removed == 0 {
      if pid != l.pid { OthersUntouched(c, s, l, pid); }
    }
  }

  lemma LedgerAdd<E>(dir: map<nat, File<E>>, k: nat, f: File<E>)
    requires k >= 1 && Upto(dir.Keys, k - 1)
    ensures Contiguous(dir.Keys) && Contiguous(dir[k := f].Keys)
    ensures |Record(dir)| == k - 1 && Record(dir[k := f]) == Record(dir) + [f]
    ensures Ledger(dir[k := f]) == Ledger(dir) + [f.event]
  {
    var longer := dir[k := f];
    UptoAdd(dir.Keys, k - 1);
    assert longer.Keys == dir.Keys + {k};
    LedgerIs(dir, k - 1);
    LedgerIs(longer, k);
    assert Record(longer) == Record(dir) + [f];
    assert Ledger(longer) == Ledger(dir) + [f.event];
  }

  lemma OnlyRenameAdds<E>(c: Clients<E>, s: State<E>, l: Label<E>)
    requires Enabled(c, s, l) && !Removes(l.action) && !l.action.Rename?
    ensures Apply(c, s, l).dir == s.dir
  {
  }

  lemma RenamesNext<E>(s: State<E>, pid: Pid)
    requires ShapeInv(s) && pid in s.procs && (s.procs[pid].Sequenced? || s.procs[pid].Renaming?)
    ensures
      var p := s.procs[pid];
      p.next + Done(p) >= 1 && Upto(s.dir.Keys, p.next + Done(p) - 1)
  {
    assert ShapeFor(s.dir, s.procs[pid]);
  }

  /** A step leaves the ledger as it is, unless it is a rename: that adds its event at the end. */
  lemma LedgerStep<E>(c: Clients<E>, s: State<E>, l: Label<E>)
    requires ShapeInv(s) && NothingRemoved(s) && Enabled(c, s, l) && !Removes(l.action)
    requires Contiguous(s.dir.Keys)
    ensures Contiguous(Apply(c, s, l).dir.Keys)
    ensures l.action.Rename? ==>
      var p := s.procs[l.pid];
      && p.next + Done(p) == |Ledger(s.dir)| + 1
      && Record(Apply(c, s, l).dir) == Record(s.dir) + [File(Pending(p).value, l.pid)]
      && Ledger(Apply(c, s, l).dir) == Ledger(s.dir) + [Pending(p).value]
    ensures !l.action.Rename? ==> Apply(c, s, l).dir == s.dir
  {
    hide *;
    if l.action.Rename? {
      RenameEffect(c, s, l);
      var p := s.procs[l.pid];
      RenamesNext(s, l.pid);
      LedgerAdd(s.dir, p.next + Done(p), File(Pending(p).value, l.pid));
    } else {
      OnlyRenameAdds(c, s, l);
    }
  }

  ghost predicate CasInv<E>(c: Clients<E>, s: State<E>) {
    MutexInv(s) && ShapeInv(s) && NothingRemoved(s) && Contiguous(s.dir.Keys) && CallsInv(c, s)
  }

  lemma CasStep<E>(c: Clients<E>, s: State<E>, l: Label<E>)
    requires CasInv(c, s) && Enabled(c, s, l) && !Removes(l.action)
    ensures CasInv(c, Apply(c, s, l))
  {
    hide Apply;
    hide Enabled;
    hide MutexInv;
    hide ShapeInv;
    hide NothingRemoved;
    hide CallsInv;
    hide Contiguous;
    MutexStep(c, s, l);
    ShapeStep(c, s, l);
    NothingRemovedStep(c, s, l);
    LedgerStep(c, s, l);
    CallStep(c, s, l);
  }

  lemma {:induction false} CasRun<E>(c: Clients<E>, s: State<E>, run: seq<Label<E>>)
    requires CasInv(c, s) && IsRun(c, s, run) && NoRollback(run)
    ensures CasInv(c, End(c, s, run)) && Record(s.dir) <= Record(End(c, s, run).dir)
    decreases |run|
  {
    hide Apply;
    hide Enabled;
    hide MutexInv;
    hide ShapeInv;
    hide CallsInv;
    if run != [] {
      assert !Removes(run[0].action);
      CasStep(c, s, run[0]);
      LedgerStep(c, s, run[0]);
      CasRun(c, Apply(c, s, run[0]), run[1..]);
    }
  }

  lemma CasReachable<E>(c: Clients<E>, s: State<E>, n: nat, run: seq<Label<E>>)
    requires Initial(s, n) && IsRun(c, s, run) && NoRollback(run)
    ensures CasInv(c, End(c, s, run))
    ensures Contiguous(s.dir.Keys) && |Record(s.dir)| == n && Record(s.dir) <= Record(End(c, s, run).dir)
  {
    LedgerIs(s.dir, n);
    CasRun(c, s, run);
  }

  /** The call that put number k in place, for a number beyond the first n. */
  ghost function CallOf<E>(s: State<E>, k: nat): Call<E>
    requires k in s.dir && s.dir[k].author in s.procs && !s.procs[s.dir[k].author].Reading?
  {
    s.procs[s.dir[k].author].call
  }

  /** Every event beyond the first n comes from a call that was entitled to it; if by compare-and-swap, the guard accepted the
      exact ledger before it. */
  ghost predicate Entitled<E>(c: Clients<E>, s: State<E>, n: nat)
    requires Contiguous(s.dir.Keys)
  {
    forall k: nat :: n < k <= |Ledger(s.dir)| ==>
      && k in s.dir && s.dir[k].author in s.procs && !s.procs[s.dir[k].author].Reading?
      && Vouched(c, CallOf(s, k)) && Ledger(s.dir)[k - 1] in EventsOf(CallOf(s, k))
      && (CallOf(s, k).AppendIf? ==> c.guard(Ledger(s.dir)[..k - 1], Ledger(s.dir)[k - 1]))
  }

  /** In every run without a batch rollback, the guard of every event committed by compare-and-swap holds of the exact ledger
      before it; every other event is free, or was accepted by its check on what its caller had read. */
  lemma GuardsHoldInLedger<E>(c: Clients<E>, s: State<E>, n: nat, run: seq<Label<E>>)
    requires Initial(s, n) && IsRun(c, s, run) && NoRollback(run)
    ensures Contiguous(s.dir.Keys) && Contiguous(End(c, s, run).dir.Keys)
    ensures |Ledger(s.dir)| == n && Ledger(s.dir) <= Ledger(End(c, s, run).dir)
    ensures Entitled(c, End(c, s, run), n)
  {
    CasReachable(c, s, n, run);
    NoRollbackNoneStale(c, s, run);
    var e := End(c, s, run);
    forall k: nat | n < k <= |Ledger(e.dir)|
      ensures
        && k in e.dir && e.dir[k].author in e.procs && !e.procs[e.dir[k].author].Reading?
        && Vouched(c, CallOf(e, k)) && Ledger(e.dir)[k - 1] in EventsOf(CallOf(e, k))
        && (CallOf(e, k).AppendIf? ==> c.guard(Ledger(e.dir)[..k - 1], Ledger(e.dir)[k - 1]))
    {
      assert k in e.dir.Keys;
      CommittedExactly(c, s, n, run, k);
      hide Vouched;
      if CallOf(e, k).AppendIf? { PrefixRead(c, e, k); }
    }
  }

  lemma PrefixRead<E>(c: Clients<E>, s: State<E>, k: nat)
    requires Contiguous(s.dir.Keys) && 1 <= k <= |Ledger(s.dir)| && k in s.dir
    requires s.dir[k].author in s.procs && !s.procs[s.dir[k].author].Reading? && Vouched(c, CallOf(s, k))
    requires CallOf(s, k).AppendIf? && k == |CallOf(s, k).read| + 1 && s.dir[k].event == CallOf(s, k).event
    requires StillThere(s.dir, CallOf(s, k).read)
    ensures c.guard(Ledger(s.dir)[..k - 1], Ledger(s.dir)[k - 1])
  {
    var read := CallOf(s, k).read;
    forall i | 0 <= i < k - 1 ensures Ledger(s.dir)[i] == Contents(read)[i] { assert InPlace(s.dir, i + 1, read[i]); }
    assert Ledger(s.dir)[..k - 1] == Contents(read);
  }

  // ---- Each call takes effect in one step ------------------------------------------------------

  /** The calls as atomic operations on a sequence of events. */
  ghost predicate AtomicCall<E>(before: seq<E>, call: Call<E>, outcome: Outcome, after: seq<E>) {
    match call
    case Append(e, _) => after == before + [e] && outcome == Ok(|before| + 1)
    case AppendIf(e, expected, _) =>
      if |before| == expected then after == before + [e] && outcome == Ok(|before| + 1)
      else after == before && outcome == Mismatch
    case AppendBatch(es) => false
  }

  /** The call's answer, a number or a mismatch, is settled. */
  predicate Decided<E>(p: Proc<E>) {
    (p.Releasing? || p.Verified? || p.Finished?) && !p.outcome.Failed?
  }

  /** What a step of call `l.pid` does to the ledger and to the call's answer. */
  ghost predicate TakesEffect<E>(c: Clients<E>, s: State<E>, l: Label<E>)
    requires Enabled(c, s, l) && Contiguous(s.dir.Keys) && Contiguous(Apply(c, s, l).dir.Keys)
  {
    var s' := Apply(c, s, l);
    var p' := s'.procs[l.pid];
    var settled := l.pid in s.procs && Decided(s.procs[l.pid]);
    && (!settled && Decided(p') && !p'.call.AppendBatch? ==> AtomicCall(Ledger(s.dir), p'.call, p'.outcome, Ledger(s'.dir)))
    && (settled ==> Decided(p') && p'.call == s.procs[l.pid].call && p'.outcome == s.procs[l.pid].outcome)
    && (l.action.Rename? && p'.call.AppendBatch? ==>
          Pending(s.procs[l.pid]).value in p'.call.events && Ledger(s'.dir) == Ledger(s.dir) + [Pending(s.procs[l.pid]).value])
    && (!l.action.Rename? ==> Ledger(s'.dir) == Ledger(s.dir))
  }

  lemma AtomicRename<E>(c: Clients<E>, s: State<E>, l: Label<E>)
    requires CasInv(c, s) && Enabled(c, s, l) && l.action.Rename?
    ensures Contiguous(Apply(c, s, l).dir.Keys) && TakesEffect(c, s, l)
  {
    LedgerStep(c, s, l);
    RenameEffect(c, s, l);
    hide Apply;
    hide Enabled;
    var p := s.procs[l.pid];
    assert WellFormedCall(p) && CallInv(c, p);
  }

  lemma AtomicStep<E>(c: Clients<E>, s: State<E>, l: Label<E>)
    requires CasInv(c, s) && Enabled(c, s, l) && !Removes(l.action)
    ensures Contiguous(Apply(c, s, l).dir.Keys) && TakesEffect(c, s, l)
  {
    if l.action.Rename? {
      AtomicRename(c, s, l);
    } else {
      hide MutexInv;
      hide ShapeInv;
      hide NothingRemoved;
      hide CallsInv;
      hide Pending;
      OnlyRenameAdds(c, s, l);
      if l.action.ListDirectory? { NextAfterContiguous(s.dir.Keys, |Record(s.dir)|, l.action.next); }
      hide IsNextSequence;
      hide Upto;
    }
  }

  /** In every run without a batch rollback, a single append or compare-and-swap changes the
      ledger in the very step that settles its answer, as the atomic operation would; the
      answer then stays; a batch adds its events one by one; no other step changes the ledger. */
  lemma CallsTakeEffectAtomically<E>(c: Clients<E>, s: State<E>, n: nat, run: seq<Label<E>>, l: Label<E>)
    requires Initial(s, n) && IsRun(c, s, run) && NoRollback(run)
    requires Enabled(c, End(c, s, run), l) && !Removes(l.action)
    ensures Contiguous(End(c, s, run).dir.Keys) && Contiguous(Apply(c, End(c, s, run), l).dir.Keys)
    ensures TakesEffect(c, End(c, s, run), l)
  {
    CasReachable(c, s, n, run);
    AtomicStep(c, End(c, s, run), l);
  }
}
