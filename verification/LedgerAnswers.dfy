/**
  What a call is answered: a compare-and-swap that comes too late is told so, and a call fails only for a failure of its own.
 */
module LedgerAnswers {
  import opened LedgerProtocol
  import opened LedgerSerial
  import opened LedgerCas

  // ---- The comparison -----------------------------------------------------------------------------------

  /** In every run whose rollbacks succeed, when a call that holds the lock lists the directory: a compare-and-swap is answered with
      a mismatch exactly if the ledger is not as long as expected; in every other case the call can go on to rename its first
      event under the number that comes next. */
  lemma ListingExactly<E>(c: Clients<E>, s: State<E>, n: nat, run: seq<Label<E>>, pid: Pid, next: nat)
    requires Initial(s, n) && IsRun(c, s, run) && RollbacksSucceed(run)
    requires Enabled(c, End(c, s, run), Label(pid, ListDirectory(next)))
    ensures
      var e := End(c, s, run);
      var e', call := Apply(c, e, Label(pid, ListDirectory(next))), e.procs[pid].call;
      && Contiguous(e.dir.Keys) && next == |Ledger(e.dir)| + 1 && e'.dir == e.dir
      && if call.AppendIf? && call.expected != |Ledger(e.dir)| then e'.procs[pid] == Releasing(call, Mismatch)
         else e'.procs[pid] == Sequenced(call, |Ledger(e.dir)| + 1) && Enabled(c, e', Label(pid, Rename))
  {
    CallRun(c, s, run);
    var e := End(c, s, run);
    hide End;
    hide IsRun;
    assert WellFormedCall(e.procs[pid]);
    ListedShape(e, pid, next);
    hide MutexInv;
    hide ShapeInv;
    hide CallsInv;
    LedgerIs(e.dir, next - 1);
  }

  // ---- Failures --------------------------------------------------------------------------------------------

  /** The steps in which a call gives up. */
  predicate Breaks<E>(a: Action<E>) { a.TimeOut? || a.FailBeforeRename? || a.RenameFails? }

  function Broken<E>(run: seq<Label<E>>): set<Pid> {
    if run == [] then {} else (if Breaks(run[0].action) then {run[0].pid} else {}) + Broken(run[1..])
  }

  lemma {:induction false} BrokenExactly<E>(run: seq<Label<E>>, pid: Pid)
    ensures pid in Broken(run) <==> exists i :: 0 <= i < |run| && run[i].pid == pid && Breaks(run[i].action)
  {
    if run != [] {
      BrokenExactly(run[1..], pid);
      if i :| 0 <= i < |run| && run[i].pid == pid && Breaks(run[i].action) {
        if i > 0 { assert run[1..][i - 1] == run[i]; }
      }
      if i :| 0 <= i < |run[1..]| && run[1..][i].pid == pid && Breaks(run[1..][i].action) { assert run[i + 1] == run[1..][i]; }
    }
  }

  /** A call that gave up is rolling back or has the answer that it failed, and no other call is; only a compare-and-swap can be
      told of a mismatch. */
  predicate Answered<E>(p: Proc<E>, broken: bool) {
    match p
    case RollingBack(_, _, _, _) => broken
    case Releasing(call, outcome) => (outcome.Failed? <==> broken) && (outcome.Mismatch? ==> call.AppendIf?)
    case Verified(call, outcome) => (outcome.Failed? <==> broken) && (outcome.Mismatch? ==> call.AppendIf?)
    case Finished(call, outcome) => (outcome.Failed? <==> broken) && (outcome.Mismatch? ==> call.AppendIf?)
    case _ => !broken
  }

  ghost predicate AnswersInv<E>(s: State<E>, broken: set<Pid>) {
    && broken <= s.procs.Keys
    && forall pid :: pid in s.procs ==> Answered(s.procs[pid], pid in broken)
  }

  lemma OwnAnswer<E>(c: Clients<E>, s: State<E>, l: Label<E>, broken: bool)
    requires Enabled(c, s, l) && (if l.pid in s.procs then Answered(s.procs[l.pid], broken) else !broken)
    ensures l.pid in Apply(c, s, l).procs && Answered(Apply(c, s, l).procs[l.pid], broken || Breaks(l.action))
  {
    hide Contents;
    hide IsNextSequence;
    hide Pending;
  }

  lemma AnswerStep<E>(c: Clients<E>, s: State<E>, l: Label<E>, broken: set<Pid>)
    requires Enabled(c, s, l) && AnswersInv(s, broken)
    ensures AnswersInv(Apply(c, s, l), if Breaks(l.action) then broken + {l.pid} else broken)
  {
    hide Apply;
    hide Enabled;
    hide Answered;
    OwnAnswer(c, s, l, l.pid in broken);
    var s', broken' := Apply(c, s, l), if Breaks(l.action) then broken + {l.pid} else broken;
    forall pid | pid in s'.procs ensures Answered(s'.procs[pid], pid in broken') { OthersUntouched(c, s, l, pid); }
    forall pid | pid in broken ensures pid in s'.procs { OthersUntouched(c, s, l, pid); }
  }

  lemma {:induction false} AnswerRun<E>(c: Clients<E>, s: State<E>, run: seq<Label<E>>, broken: set<Pid>)
    requires IsRun(c, s, run) && AnswersInv(s, broken)
    ensures AnswersInv(End(c, s, run), broken + Broken(run))
    decreases |run|
  {
    hide Apply;
    hide Enabled;
    hide AnswersInv;
    if run == [] {
      assert broken + Broken(run) == broken;
    } else {
      var broken' := if Breaks(run[0].action) then broken + {run[0].pid} else broken;
      AnswerStep(c, s, run[0], broken);
      AnswerRun(c, Apply(c, s, run[0]), run[1..], broken');
      assert broken' + Broken(run[1..]) == broken + Broken(run);
    }
  }

  /** In every run, of a call that has its answer: it failed exactly if it timed out waiting for the lock, or failed before or at
      a rename itself; and only a compare-and-swap is ever answered with a mismatch. */
  lemma FailedExactly<E>(c: Clients<E>, s: State<E>, n: nat, run: seq<Label<E>>, pid: Pid)
    requires Initial(s, n) && IsRun(c, s, run)
    requires pid in End(c, s, run).procs
    requires End(c, s, run).procs[pid].Releasing? || End(c, s, run).procs[pid].Verified? || End(c, s, run).procs[pid].Finished?
    ensures
      var p := End(c, s, run).procs[pid];
      && (p.outcome.Failed? <==>
            exists i :: 0 <= i < |run| && run[i].pid == pid &&
              (run[i].action.TimeOut? || run[i].action.FailBeforeRename? || run[i].action.RenameFails?))
      && (p.outcome.Mismatch? ==> p.call.AppendIf?)
  {
    AnswerRun(c, s, run, {});
    assert {} + Broken(run) == Broken(run);
    BrokenExactly(run, pid);
    hide IsRun;
    hide End;
    assert Answered(End(c, s, run).procs[pid], pid in Broken(run));
  }

  // ---- The lock is given back -----------------------------------------------------------------------------------

  /** No step in which a call leaves its lock file behind. */
  ghost predicate LocksRemoved<E>(run: seq<Label<E>>) {
    forall k :: 0 <= k < |run| ==> run[k].action != MetadataFails(false) && !run[k].action.ReleaseFails?
  }

  ghost predicate LockInUse<E>(s: State<E>) {
    s.lock.Some? ==> s.lock.value.creator in s.procs && InCriticalSection(s.procs[s.lock.value.creator])
  }

  lemma InUseStep<E>(c: Clients<E>, s: State<E>, l: Label<E>)
    requires MutexInv(s) && LockInUse(s) && Enabled(c, s, l) && l.action != MetadataFails(false) && !l.action.ReleaseFails?
    ensures LockInUse(Apply(c, s, l))
  {
    hide Contents;
    hide IsNextSequence;
    hide Pending;
    if l.pid in s.procs && InCriticalSection(s.procs[l.pid]) { assert OwnsLock(s, l.pid, s.procs[l.pid]); }
    hide MutexInv;
  }

  lemma {:induction false} InUseRun<E>(c: Clients<E>, s: State<E>, run: seq<Label<E>>)
    requires MutexInv(s) && LockInUse(s) && IsRun(c, s, run) && LocksRemoved(run)
    ensures MutexInv(End(c, s, run)) && LockInUse(End(c, s, run))
    decreases |run|
  {
    hide Apply;
    hide Enabled;
    hide MutexInv;
    hide LockInUse;
    if run != [] {
      assert run[0].action != MetadataFails(false) && !run[0].action.ReleaseFails?;
      MutexStep(c, s, run[0]);
      InUseStep(c, s, run[0]);
      InUseRun(c, Apply(c, s, run[0]), run[1..]);
    }
  }

  /** In every run in which no call leaves its lock file behind, there is a lock file exactly while some call is in its critical
      section; so a waiting call can create its own exactly if no call is. */
  lemma LockFreeExactly<E>(c: Clients<E>, s: State<E>, n: nat, run: seq<Label<E>>, pid: Pid)
    requires Initial(s, n) && IsRun(c, s, run) && LocksRemoved(run)
    requires pid in End(c, s, run).procs && End(c, s, run).procs[pid].Calling?
    ensures
      var e := End(c, s, run);
      && (e.lock.Some? <==> exists q :: q in e.procs && InCriticalSection(e.procs[q]))
      && (Enabled(c, e, Label(pid, CreateLock)) <==> forall q :: q in e.procs ==> !InCriticalSection(e.procs[q]))
  {
    InUseRun(c, s, run);
    var e := End(c, s, run);
    hide IsRun;
    hide End;
    forall q | q in e.procs && InCriticalSection(e.procs[q]) ensures e.lock.Some? { assert OwnsLock(e, q, e.procs[q]); }
  }

  // ---- No call is stuck, and every step can fail ----------------------------------------------------------------

  /** The step with which a call in its critical section goes on. */
  ghost function Onward<E>(p: Proc<E>, next: nat): Action<E>
    requires InCriticalSection(p)
  {
    match p
    case Created(_) => WriteMetadata
    case Holding(_) => ListDirectory(next)
    case Sequenced(_, _) => Rename
    case Renaming(_, _, _) => Rename
    case RollingBack(_, _, _, _) => RemoveEvent
    case Releasing(_, _) => CheckOwner
    case Verified(_, _) => RemoveLock
  }

  /** In every run whose rollbacks succeed, a call in its critical section can always go on towards giving the lock back. */
  lemma NeverStuck<E>(c: Clients<E>, s: State<E>, n: nat, run: seq<Label<E>>, pid: Pid) returns (next: nat)
    requires Initial(s, n) && IsRun(c, s, run) && RollbacksSucceed(run)
    requires pid in End(c, s, run).procs && InCriticalSection(End(c, s, run).procs[pid])
    ensures Enabled(c, End(c, s, run), Label(pid, Onward(End(c, s, run).procs[pid], next)))
  {
    CallRun(c, s, run);
    var e := End(c, s, run);
    hide IsRun;
    hide End;
    var p := e.procs[pid];
    assert ShapeFor(e.dir, p) && OwnsLock(e, pid, p);
    next := 1;
    if p.Holding? {
      forall q | q in e.procs ensures !e.procs[q].RollingBack? { AtMostOneOwner(e, q, pid); }
      var m: nat :| Upto(e.dir.Keys, m);
      next := m + 1;
      assert m >= 1 ==> m in e.dir.Keys;
    }
    assert p.Holding? ==> IsNextSequence(e.dir.Keys, next);
    hide *;
    OnwardEnabled(c, e, pid, next);
  }

  lemma OnwardEnabled<E>(c: Clients<E>, s: State<E>, pid: Pid, next: nat)
    requires pid in s.procs && InCriticalSection(s.procs[pid]) && ShapeFor(s.dir, s.procs[pid]) && OwnsLock(s, pid, s.procs[pid])
    requires s.procs[pid].Holding? ==> IsNextSequence(s.dir.Keys, next)
    ensures Enabled(c, s, Label(pid, Onward(s.procs[pid], next)))
  {
    hide IsNextSequence;
    hide Upto;
    hide UptoExcept;
    hide Contents;
    hide Pending;
  }

  /** And every call can fail at every step: waiting for the lock, writing it, before and at a rename, removing an event file and
      giving the lock back. */
  lemma AnyStepCanFail<E>(c: Clients<E>, s: State<E>, pid: Pid)
    requires pid in s.procs
    ensures
      var p := s.procs[pid];
      && (p.Calling? ==> Enabled(c, s, Label(pid, TimeOut)))
      && (p.Created? ==> Enabled(c, s, Label(pid, MetadataFails(true))) && Enabled(c, s, Label(pid, MetadataFails(false))))
      && (p.Holding? || p.Sequenced? ==> Enabled(c, s, Label(pid, FailBeforeRename)))
      && (p.Sequenced? || p.Renaming? ==> Enabled(c, s, Label(pid, RenameFails)))
      && (p.RollingBack? ==> Enabled(c, s, Label(pid, RemoveEventFails)))
      && (p.Releasing? || p.Verified? ==> Enabled(c, s, Label(pid, ReleaseFails)))
  {
  }

  // ---- Renames and removals -------------------------------------------------------------------------------------

  /** How many files a call renamed in the course of a run. */
  function Renames<E>(run: seq<Label<E>>, pid: Pid): nat {
    if run == [] then 0 else (if run[0].pid == pid && run[0].action.Rename? then 1 else 0) + Renames(run[1..], pid)
  }

  /** How many it tried to remove, with success or without. */
  function Removals<E>(run: seq<Label<E>>, pid: Pid): nat {
    if run == [] then 0 else (if run[0].pid == pid && Removes(run[0].action) then 1 else 0) + Removals(run[1..], pid)
  }

  /** What a call has renamed and tried to remove, by where it is. */
  ghost predicate Tally<E>(p: Proc<E>, renamed: nat, removed: nat) {
    match p
    case Renaming(_, _, done) => renamed == done && removed == 0
    case RollingBack(_, _, done, k) => renamed == done && removed == k < done
    case Releasing(call, outcome) => Balance(call, outcome, renamed, removed)
    case Verified(call, outcome) => Balance(call, outcome, renamed, removed)
    case Finished(call, outcome) => Balance(call, outcome, renamed, removed)
    case _ => renamed == 0 && removed == 0
  }

  ghost predicate Balance<E>(call: Call<E>, outcome: Outcome, renamed: nat, removed: nat) {
    match outcome
    case Ok(_) => renamed == |EventsOf(call)| && removed == 0
    case Mismatch => renamed == 0 && removed == 0
    case Failed => renamed == removed
  }

  ghost predicate Tallied<E>(s: State<E>, pid: Pid, renamed: nat, removed: nat) {
    if pid in s.procs then Tally(s.procs[pid], renamed, removed) else renamed == 0 && removed == 0
  }

  lemma TallyOwn<E>(c: Clients<E>, s: State<E>, l: Label<E>, renamed: nat, removed: nat)
    requires Enabled(c, s, l) && Tallied(s, l.pid, renamed, removed)
    ensures Tallied(Apply(c, s, l), l.pid, renamed + (if l.action.Rename? then 1 else 0),
                    removed + (if Removes(l.action) then 1 else 0))
  {
    hide Contents;
    hide IsNextSequence;
  }

  lemma {:induction false} TallyRun<E>(c: Clients<E>, s: State<E>, run: seq<Label<E>>, pid: Pid, renamed: nat, removed: nat)
    requires IsRun(c, s, run) && Tallied(s, pid, renamed, removed)
    ensures Tallied(End(c, s, run), pid, renamed + Renames(run, pid), removed + Removals(run, pid))
    decreases |run|
  {
    hide Apply;
    hide Enabled;
    hide Tally;
    hide Removes;
    if run != [] {
      var l := run[0];
      OthersUntouched(c, s, l, pid);
      if l.pid == pid { TallyOwn(c, s, l, renamed, removed); }
      TallyRun(c, Apply(c, s, l), run[1..], pid,
               renamed + (if l.pid == pid && l.action.Rename? then 1 else 0),
               removed + (if l.pid == pid && Removes(l.action) then 1 else 0));
    }
  }

  /** In every run, failed removals included, of a call that has its answer: with a number it renamed all its events and tried to
      remove none; with a mismatch it touched none; and if it failed it tried to remove as many as it renamed. */
  lemma RenamesBalance<E>(c: Clients<E>, s: State<E>, n: nat, run: seq<Label<E>>, pid: Pid)
    requires Initial(s, n) && IsRun(c, s, run) && pid in End(c, s, run).procs
    requires End(c, s, run).procs[pid].Releasing? || End(c, s, run).procs[pid].Verified? || End(c, s, run).procs[pid].Finished?
    ensures
      var p := End(c, s, run).procs[pid];
      match p.outcome
      case Ok(_) => Renames(run, pid) == |EventsOf(p.call)| && Removals(run, pid) == 0
      case Mismatch => Renames(run, pid) == 0 && Removals(run, pid) == 0
      case Failed => Renames(run, pid) == Removals(run, pid)
  {
    TallyRun(c, s, run, pid, 0, 0);
  }
}
