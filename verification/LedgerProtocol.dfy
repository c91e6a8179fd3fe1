/**
  internal/ledger: many processes append to one ledger directory. The model is a
  transition system whose steps are the file operations the code performs: exclusive
  creation of the lock file, writing its metadata, listing the directory, renaming an
  event file into place, removing a file. A run is any interleaving of the steps of any
  number of calls; a process that stops for ever is one that takes no further step.

  open() with O_CREAT and O_EXCL, and rename(), are atomic, as IEEE Std 1003.1 specifies.
 */
module LedgerProtocol {

  type Pid = nat

  datatype Option<+T> = None | Some(value: T)

  /** An event file. `author` is the call that renamed it into place; it is not on disk. */
  datatype File<E> = File(event: E, author: Pid)

  /** The lock file. Only `agent` is on disk; `creator` is the call that created the file. */
  datatype LockFile = LockFile(agent: string, creator: Pid)

  /** `read` is what the caller read before, if it looked at all; a plain append does not compare it with anything. */
  datatype Call<E> =
    | Append(event: E, looked: Option<seq<File<E>>>)
    | AppendIf(event: E, expected: int, read: seq<File<E>>)
    | AppendBatch(events: seq<E>)

  /** Ok carries the (first) sequence number returned. */
  datatype Outcome = Ok(number: nat) | Mismatch | Failed

  datatype Proc<E> =
    | Reading(names: set<nat>, read: seq<File<E>>)
    | Calling(call: Call<E>)
    | Created(call: Call<E>)
    | Holding(call: Call<E>)
    | Sequenced(call: Call<E>, next: nat)
    | Renaming(call: Call<E>, next: nat, done: nat)
    | RollingBack(call: Call<E>, next: nat, done: nat, removed: nat)
    | Releasing(call: Call<E>, outcome: Outcome)
    | Verified(call: Call<E>, outcome: Outcome)
    | Finished(call: Call<E>, outcome: Outcome)

  datatype State<E> = State(dir: map<nat, File<E>>, lock: Option<LockFile>, procs: map<Pid, Proc<E>>)

  /** What clients submit: a compare-and-swap call goes out only if `guard` accepts what was read and the event, a plain
      append after a read only if `check` does; other plain appends and batches carry only `free` events. */
  datatype Clients<!E> = Clients(guard: (seq<E>, E) -> bool, check: (seq<E>, E) -> bool, free: E -> bool)

  function Contents<E>(files: seq<File<E>>): (r: seq<E>)
    ensures |r| == |files| && forall i :: 0 <= i < |files| ==> r[i] == files[i].event
  {
    seq(|files|, i requires 0 <= i < |files| => files[i].event)
  }

  datatype Action<E> =
    | StartRead(names: set<nat>)
    | ReadNext
    | SubmitIf(event: E)
    | SubmitAfterRead(event: E)
    | SubmitAppend(event: E)
    | SubmitBatch(events: seq<E>)
    | TimeOut
    | CreateLock
    | WriteMetadata
    | MetadataFails(removed: bool)
    | ListDirectory(next: nat)
    | FailBeforeRename
    | Rename
    | RenameFails
    | RemoveEvent
    | RemoveEventFails
    | CheckOwner
    | ReleaseFails
    | RemoveLock

  datatype Label<E> = Label(pid: Pid, action: Action<E>)

  function AgentID<E>(call: Call<E>): string {
    match call
    case Append(_, _) => "append-operation"
    case AppendIf(_, _, _) => "append-if-sequence-operation"
    case AppendBatch(_) => "append-batch-operation"
  }

  ghost predicate IsNextSequence(names: set<nat>, next: nat) {
    && next >= 1
    && (forall k :: k in names ==> k < next)
    && (next == 1 || next - 1 in names)
  }

  ghost predicate Enabled<E>(c: Clients<E>, s: State<E>, l: Label<E>) {
    match l.action
    case StartRead(names) => l.pid !in s.procs && names <= s.dir.Keys
    case SubmitAppend(e) => l.pid !in s.procs && c.free(e)
    case SubmitBatch(es) => l.pid !in s.procs && es != [] && forall k :: 0 <= k < |es| ==> c.free(es[k])
    case _ => l.pid in s.procs && EnabledIn(c, s, s.procs[l.pid], l.action)
  }

  ghost predicate EnabledIn<E>(c: Clients<E>, s: State<E>, p: Proc<E>, a: Action<E>) {
    match a
    // Scan reads the listed files in order; replay stops at the first number that is not consecutive
    case ReadNext => p.Reading? && |p.read| + 1 in p.names && |p.read| + 1 in s.dir
    case SubmitIf(e) => p.Reading? && |p.names| == |p.read| && c.guard(Contents(p.read), e)
    case SubmitAfterRead(e) => p.Reading? && |p.names| == |p.read| && c.check(Contents(p.read), e)
    case TimeOut => p.Calling?
    case CreateLock => p.Calling? && s.lock.None?
    case WriteMetadata => p.Created?
    case MetadataFails(_) => p.Created?
    case ListDirectory(next) => p.Holding? && IsNextSequence(s.dir.Keys, next)
    case FailBeforeRename => p.Holding? || p.Sequenced?
    case Rename => (p.Sequenced? || p.Renaming?) && Pending(p).Some?
    case RenameFails => p.Sequenced? || p.Renaming?
    case RemoveEvent => p.RollingBack?
    case RemoveEventFails => p.RollingBack?
    case CheckOwner => p.Releasing? && s.lock.Some?
    case ReleaseFails => p.Releasing? || p.Verified?
    case RemoveLock => p.Verified?
    case _ => false
  }

  function Put<E>(s: State<E>, pid: Pid, p: Proc<E>): State<E> { s.(procs := s.procs[pid := p]) }

  /** The process after its listing: a compare-and-swap call compares the latest number. */
  function AfterListing<E>(call: Call<E>, next: nat): Proc<E> {
    if call.AppendIf? && next - 1 != call.expected then Releasing(call, Mismatch) else Sequenced(call, next)
  }

  /** The process after the rename that follows `done` earlier ones. */
  function AfterRename<E>(call: Call<E>, next: nat, done: nat): Proc<E> {
    if call.AppendBatch? && done + 1 < |call.events| then Renaming(call, next, done + 1) else Releasing(call, Ok(next))
  }

  function AfterRemoval<E>(call: Call<E>, next: nat, done: nat, removed: nat): Proc<E> {
    if removed < done then RollingBack(call, next, done, removed) else Releasing(call, Failed)
  }

  /** The event the next rename puts in place. */
  function Pending<E>(p: Proc<E>): Option<E> {
    match p
    case Sequenced(Append(e, _), _) => Some(e)
    case Sequenced(AppendIf(e, _, _), _) => Some(e)
    case Sequenced(AppendBatch(es), _) => if es != [] then Some(es[0]) else None
    case Renaming(AppendBatch(es), _, done) => if done < |es| then Some(es[done]) else None
    case _ => None
  }

  function Done<E>(p: Proc<E>): nat { if p.Renaming? then p.done else 0 }

  ghost function Apply<E>(c: Clients<E>, s: State<E>, l: Label<E>): State<E>
    requires Enabled(c, s, l)
  {
    var pid := l.pid;
    match l.action
    case StartRead(names) => Put(s, pid, Reading(names, []))
    case SubmitAppend(e) => Put(s, pid, Calling(Append(e, None)))
    case SubmitBatch(es) => Put(s, pid, Calling(AppendBatch(es)))
    case _ => Move(c, s, pid, s.procs[pid], l.action)
  }

  ghost function Move<E>(c: Clients<E>, s: State<E>, pid: Pid, p: Proc<E>, a: Action<E>): State<E>
    requires EnabledIn(c, s, p, a)
  {
    match a
    case ReadNext => Put(s, pid, Reading(p.names, p.read + [s.dir[|p.read| + 1]]))
    case SubmitIf(e) => Put(s, pid, Calling(AppendIf(e, |p.read|, p.read)))
    case SubmitAfterRead(e) => Put(s, pid, Calling(Append(e, Some(p.read))))
    case TimeOut => Put(s, pid, Finished(p.call, Failed))
    case CreateLock => Put(s, pid, Created(p.call)).(lock := Some(LockFile("", pid)))
    case WriteMetadata => Put(s, pid, Holding(p.call)).(lock := Some(LockFile(AgentID(p.call), pid)))
    case MetadataFails(removed) => Put(s, pid, Calling(p.call)).(lock := if removed then None else s.lock)
    case ListDirectory(next) => Put(s, pid, AfterListing(p.call, next))
    case FailBeforeRename => Put(s, pid, Releasing(p.call, Failed))
    case Rename =>
      Put(s, pid, AfterRename(p.call, p.next, Done(p))).(dir := s.dir[p.next + Done(p) := File(Pending(p).value, pid)])
    case RenameFails => Put(s, pid, AfterRemoval(p.call, p.next, Done(p), 0))
    case RemoveEvent =>
      Put(s, pid, AfterRemoval(p.call, p.next, p.done, p.removed + 1)).(dir := s.dir - {p.next + p.removed})
    case RemoveEventFails => Put(s, pid, AfterRemoval(p.call, p.next, p.done, p.removed + 1))
    case CheckOwner =>
      Put(s, pid, if s.lock.value.agent == AgentID(p.call) then Verified(p.call, p.outcome) else Finished(p.call, p.outcome))
    case ReleaseFails => Put(s, pid, Finished(p.call, p.outcome))
    case RemoveLock => Put(s, pid, Finished(p.call, p.outcome)).(lock := None)
    case _ => s
  }

  // ---- Runs --------------------------------------------------------------------------------

  ghost predicate Upto(names: set<nat>, n: nat) { forall k: nat :: k in names <==> 1 <= k <= n }

  /** A ledger holding events 1..n, no lock file and no call under way. */
  ghost predicate Initial<E>(s: State<E>, n: nat) {
    Upto(s.dir.Keys, n) && s.lock.None? && s.procs == map[]
  }

  ghost predicate IsRun<E>(c: Clients<E>, s: State<E>, run: seq<Label<E>>)
    decreases |run|
  {
    run == [] || (Enabled(c, s, run[0]) && IsRun(c, Apply(c, s, run[0]), run[1..]))
  }

  ghost function End<E>(c: Clients<E>, s: State<E>, run: seq<Label<E>>): State<E>
    requires IsRun(c, s, run)
    decreases |run|
  {
    if run == [] then s else End(c, Apply(c, s, run[0]), run[1..])
  }

  /** No rollback of a batch fails to remove a file it renamed. */
  ghost predicate RollbacksSucceed<E>(run: seq<Label<E>>) {
    forall k :: 0 <= k < |run| ==> !run[k].action.RemoveEventFails?
  }

  /** No event file is ever rolled back. */
  ghost predicate NoRollback<E>(run: seq<Label<E>>) {
    forall k :: 0 <= k < |run| ==> !run[k].action.RemoveEvent? && !run[k].action.RemoveEventFails?
  }

  // ---- Mutual exclusion ----------------------------------------------------------------------

  /** From the exclusive creation of the lock file up to its removal. */
  predicate InCriticalSection<E>(p: Proc<E>) {
    !p.Reading? && !p.Calling? && !p.Finished?
  }

  /** The lock file is the one this call created, with its agent once the metadata is written. */
  ghost predicate OwnsLock<E>(s: State<E>, pid: Pid, p: Proc<E>)
    requires InCriticalSection(p)
  {
    && s.lock.Some? && s.lock.value.creator == pid
    && (!p.Created? ==> s.lock.value.agent == AgentID(p.call))
  }

  ghost predicate MutexInv<E>(s: State<E>) {
    forall pid :: pid in s.procs && InCriticalSection(s.procs[pid]) ==> OwnsLock(s, pid, s.procs[pid])
  }

  lemma AtMostOneOwner<E>(s: State<E>, p: Pid, q: Pid)
    requires MutexInv(s) && p in s.procs && q in s.procs
    ensures InCriticalSection(s.procs[p]) && InCriticalSection(s.procs[q]) ==> p == q
  {
    assert InCriticalSection(s.procs[p]) ==> OwnsLock(s, p, s.procs[p]);
  }

  /** A step changes the state of its own call only. */
  lemma OthersUntouched<E>(c: Clients<E>, s: State<E>, l: Label<E>, pid: Pid)
    requires Enabled(c, s, l)
    ensures l.pid in Apply(c, s, l).procs
    ensures pid != l.pid ==> (pid in Apply(c, s, l).procs <==> pid in s.procs)
    ensures pid != l.pid && pid in s.procs ==> Apply(c, s, l).procs[pid] == s.procs[pid]
  {
  }

  /** While another call is in the critical section a step leaves lock file and directory alone. */
  lemma DirectoryChangesInCriticalSection<E>(c: Clients<E>, s: State<E>, l: Label<E>, pid: Pid)
    requires MutexInv(s) && Enabled(c, s, l)
    requires pid in s.procs && pid != l.pid && InCriticalSection(s.procs[pid])
    ensures Apply(c, s, l).dir == s.dir && Apply(c, s, l).lock == s.lock
  {
    assert OwnsLock(s, pid, s.procs[pid]);
    if l.pid in s.procs { AtMostOneOwner(s, pid, l.pid); }
  }

  lemma OwnMutexStep<E>(c: Clients<E>, s: State<E>, l: Label<E>)
    requires MutexInv(s) && Enabled(c, s, l)
    ensures
      var s' := Apply(c, s, l);
      l.pid in s'.procs && (InCriticalSection(s'.procs[l.pid]) ==> OwnsLock(s', l.pid, s'.procs[l.pid]))
  {
    hide Pending;
    hide IsNextSequence;
    if l.pid in s.procs {
      assert InCriticalSection(s.procs[l.pid]) ==> OwnsLock(s, l.pid, s.procs[l.pid]);
    }
    hide MutexInv;
  }

  lemma MutexStep<E>(c: Clients<E>, s: State<E>, l: Label<E>)
    requires MutexInv(s) && Enabled(c, s, l)
    ensures MutexInv(Apply(c, s, l))
  {
    hide Apply;
    hide Enabled;
    var s' := Apply(c, s, l);
    OwnMutexStep(c, s, l);
    forall pid | pid in s'.procs && InCriticalSection(s'.procs[pid]) ensures OwnsLock(s', pid, s'.procs[pid]) {
      if pid != l.pid {
        OthersUntouched(c, s, l, pid);
        DirectoryChangesInCriticalSection(c, s, l, pid);
      }
    }
  }

  lemma {:induction false} MutexRun<E>(c: Clients<E>, s: State<E>, run: seq<Label<E>>)
    requires MutexInv(s) && IsRun(c, s, run)
    ensures MutexInv(End(c, s, run))
    decreases |run|
  {
    if run != [] {
      MutexStep(c, s, run[0]);
      MutexRun(c, Apply(c, s, run[0]), run[1..]);
    }
  }

  /** In every run at most one call is between creating and removing the lock file, and the
      ownership check of its release never refuses it, although calls of one kind write the
      same agent ID. */
  lemma MutualExclusion<E>(c: Clients<E>, s: State<E>, n: nat, run: seq<Label<E>>, p: Pid, q: Pid)
    requires Initial(s, n) && IsRun(c, s, run)
    ensures
      var e := End(c, s, run);
      p in e.procs && q in e.procs && InCriticalSection(e.procs[p]) && InCriticalSection(e.procs[q]) ==> p == q
    ensures
      var e := End(c, s, run);
      p in e.procs && e.procs[p].Releasing? ==>
        Enabled(c, e, Label(p, CheckOwner)) && Apply(c, e, Label(p, CheckOwner)).procs[p].Verified?
  {
    MutexRun(c, s, run);
  }

  // ---- The sequence numbers stay 1..n ---------------------------------------------------------

  ghost predicate Contiguous(names: set<nat>) { exists n: nat :: Upto(names, n) }

  /** 1..next + done - 1, without the first `removed` numbers from `next` on. */
  ghost predicate UptoExcept(names: set<nat>, next: nat, removed: nat, done: nat) {
    forall k: nat :: k in names <==> 1 <= k < next || next + removed <= k < next + done
  }

  lemma UptoAdd(names: set<nat>, n: nat)
    requires Upto(names, n)
    ensures Upto(names + {n + 1}, n + 1)
  {
  }

  lemma NothingExcepted(names: set<nat>, next: nat, done: nat)
    requires next >= 1
    ensures Upto(names, next + done - 1) <==> UptoExcept(names, next, 0, done)
  {
  }

  lemma ExceptOneMore(names: set<nat>, next: nat, removed: nat, done: nat)
    requires UptoExcept(names, next, removed, done) && removed < done
    ensures UptoExcept(names - {next + removed}, next, removed + 1, done)
    ensures removed + 1 == done && next >= 1 ==> Upto(names - {next + removed}, next - 1)
  {
  }

  /** The directory as the call in the critical section knows it. */
  ghost predicate ShapeFor<E>(dir: map<nat, File<E>>, p: Proc<E>) {
    match p
    case Sequenced(_, next) => next >= 1 && Upto(dir.Keys, next - 1) && Pending(p).Some?
    case Renaming(_, next, done) => next >= 1 && done >= 1 && Upto(dir.Keys, next + done - 1) && Pending(p).Some?
    case RollingBack(_, next, done, removed) =>
      next >= 1 && removed < done && UptoExcept(dir.Keys, next, removed, done)
    case _ => true
  }

  predicate WellFormedCall<E>(p: Proc<E>) {
    && (!p.Reading? && p.call.AppendBatch? ==> p.call.events != [])
    && (p.Renaming? || p.RollingBack? ==> p.call.AppendBatch?)
  }

  ghost predicate ShapeInv<E>(s: State<E>) {
    && (forall pid :: pid in s.procs ==> WellFormedCall(s.procs[pid]) && ShapeFor(s.dir, s.procs[pid]))
    && ((forall pid :: pid in s.procs ==> !s.procs[pid].RollingBack?) ==> Contiguous(s.dir.Keys))
  }

  /** The next sequence number of the ledger 1..n is n + 1. */
  lemma NextAfterContiguous(names: set<nat>, n: nat, next: nat)
    requires Upto(names, n) && IsNextSequence(names, next)
    ensures next == n + 1
  {
    assert n >= 1 ==> n in names;
  }

  lemma ListedShape<E>(s: State<E>, pid: Pid, next: nat)
    requires MutexInv(s) && ShapeInv(s) && pid in s.procs && s.procs[pid].Holding? && IsNextSequence(s.dir.Keys, next)
    ensures next >= 1 && Upto(s.dir.Keys, next - 1)
  {
    forall q | q in s.procs ensures !s.procs[q].RollingBack? { AtMostOneOwner(s, q, pid); }
    var n: nat :| Upto(s.dir.Keys, n);
    NextAfterContiguous(s.dir.Keys, n, next);
  }

  lemma RenamedShape<E>(dir: map<nat, File<E>>, p: Proc<E>, f: File<E>)
    requires (p.Sequenced? || p.Renaming?) && ShapeFor(dir, p) && WellFormedCall(p)
    ensures
      var p' := AfterRename(p.call, p.next, Done(p));
      WellFormedCall(p') && ShapeFor(dir[p.next + Done(p) := f], p') && Upto(dir[p.next + Done(p) := f].Keys, p.next + Done(p))
  {
    var k := p.next + Done(p);
    UptoAdd(dir.Keys, k - 1);
    assert dir[k := f].Keys == dir.Keys + {k};
  }

  lemma RenameFailedShape<E>(dir: map<nat, File<E>>, p: Proc<E>)
    requires (p.Sequenced? || p.Renaming?) && ShapeFor(dir, p) && WellFormedCall(p)
    ensures
      var p' := AfterRemoval(p.call, p.next, Done(p), 0);
      WellFormedCall(p') && ShapeFor(dir, p')
  {
    NothingExcepted(dir.Keys, p.next, Done(p));
  }

  lemma RemovedShape<E>(dir: map<nat, File<E>>, p: Proc<E>)
    requires p.RollingBack? && ShapeFor(dir, p) && WellFormedCall(p)
    ensures
      var p', dir' := AfterRemoval(p.call, p.next, p.done, p.removed + 1), dir - {p.next + p.removed};
      WellFormedCall(p') && ShapeFor(dir', p') && (!p'.RollingBack? ==> Upto(dir'.Keys, p.next - 1))
  {
    ExceptOneMore(dir.Keys, p.next, p.removed, p.done);
    assert (dir - {p.next + p.removed}).Keys == dir.Keys - {p.next + p.removed};
  }

  lemma OwnShapeStep<E>(c: Clients<E>, s: State<E>, l: Label<E>)
    requires MutexInv(s) && ShapeInv(s) && Enabled(c, s, l) && !l.action.RemoveEventFails?
    ensures
      var s' := Apply(c, s, l);
      && l.pid in s'.procs && WellFormedCall(s'.procs[l.pid]) && ShapeFor(s'.dir, s'.procs[l.pid])
  {
    hide Upto;
    hide UptoExcept;
    hide MutexInv;
    hide IsNextSequence;
    if l.pid in s.procs {
      var p := s.procs[l.pid];
      assert ShapeFor(s.dir, p) && WellFormedCall(p);
      match l.action
      case ListDirectory(next) => ListedShape(s, l.pid, next);
      case Rename => RenamedShape(s.dir, p, File(Pending(p).value, l.pid));
      case RenameFails => RenameFailedShape(s.dir, p);
      case RemoveEvent => RemovedShape(s.dir, p);
      case _ =>
    }
  }

  lemma OutsideShape<E>(dir: map<nat, File<E>>, p: Proc<E>)
    requires !InCriticalSection(p)
    ensures ShapeFor(dir, p)
  {
  }

  lemma ShapeStep<E>(c: Clients<E>, s: State<E>, l: Label<E>)
    requires MutexInv(s) && ShapeInv(s) && Enabled(c, s, l) && !l.action.RemoveEventFails?
    ensures ShapeInv(Apply(c, s, l))
  {
    hide Apply;
    hide Enabled;
    hide MutexInv;
    hide ShapeFor;
    hide WellFormedCall;
    hide Contiguous;
    var s' := Apply(c, s, l);
    OwnShapeStep(c, s, l);
    forall pid | pid in s'.procs ensures WellFormedCall(s'.procs[pid]) && ShapeFor(s'.dir, s'.procs[pid]) {
      if pid != l.pid {
        OthersUntouched(c, s, l, pid);
        assert WellFormedCall(s.procs[pid]) && ShapeFor(s.dir, s.procs[pid]);
        if InCriticalSection(s.procs[pid]) { DirectoryChangesInCriticalSection(c, s, l, pid); }
        else { OutsideShape(s'.dir, s.procs[pid]); }
      }
    }
    if forall pid :: pid in s'.procs ==> !s'.procs[pid].RollingBack? {
      SettledStep(c, s, l);
    }
  }

  lemma SettledStep<E>(c: Clients<E>, s: State<E>, l: Label<E>)
    requires MutexInv(s) && ShapeInv(s) && Enabled(c, s, l) && !l.action.RemoveEventFails?
    requires forall pid :: pid in Apply(c, s, l).procs ==> !Apply(c, s, l).procs[pid].RollingBack?
    ensures Contiguous(Apply(c, s, l).dir.Keys)
  {
    hide Upto;
    hide UptoExcept;
    hide MutexInv;
    hide IsNextSequence;
    var s' := Apply(c, s, l);
    forall pid | pid in s.procs && pid != l.pid ensures !s.procs[pid].RollingBack? { OthersUntouched(c, s, l, pid); }
    if l.pid in s.procs { assert ShapeFor(s.dir, s.procs[l.pid]) && WellFormedCall(s.procs[l.pid]); }
    if l.action.Rename? {
      var p := s.procs[l.pid];
      RenamedShape(s.dir, p, File(Pending(p).value, l.pid));
      assert Upto(s'.dir.Keys, p.next + Done(p));
    } else if l.pid in s.procs && s.procs[l.pid].RollingBack? {
      RemovesUnlessFresh(c, s, l);
      var p := s.procs[l.pid];
      RemovedShape(s.dir, p);
      assert s'.procs[l.pid] == AfterRemoval(p.call, p.next, p.done, p.removed + 1) && s'.dir == s.dir - {p.next + p.removed};
      assert Upto(s'.dir.Keys, p.next - 1);
    } else {
      assert forall pid :: pid in s.procs ==> !s.procs[pid].RollingBack?;
      assert s'.dir == s.dir;
    }
  }

  lemma RemovesUnlessFresh<E>(c: Clients<E>, s: State<E>, l: Label<E>)
    requires Enabled(c, s, l) && l.pid in s.procs && s.procs[l.pid].RollingBack? && !l.action.RemoveEventFails?
    ensures l.action.RemoveEvent?
  {
  }

  lemma {:induction false} ShapeRun<E>(c: Clients<E>, s: State<E>, run: seq<Label<E>>)
    requires MutexInv(s) && ShapeInv(s) && IsRun(c, s, run) && RollbacksSucceed(run)
    ensures MutexInv(End(c, s, run)) && ShapeInv(End(c, s, run))
    decreases |run|
  {
    if run != [] {
      assert !run[0].action.RemoveEventFails?;
      MutexStep(c, s, run[0]);
      ShapeStep(c, s, run[0]);
      ShapeRun(c, Apply(c, s, run[0]), run[1..]);
    }
  }

  /** In every run in which rollbacks remove what they must, the ledger holds exactly the
      numbers 1..n whenever no rollback is in progress, so also whenever no call holds the lock. */
  lemma LedgerStaysContiguous<E>(c: Clients<E>, s: State<E>, n: nat, run: seq<Label<E>>)
    requires Initial(s, n) && IsRun(c, s, run) && RollbacksSucceed(run)
    ensures
      var e := End(c, s, run);
      (forall pid :: pid in e.procs ==> !e.procs[pid].RollingBack?) ==> Contiguous(e.dir.Keys)
  {
    ShapeRun(c, s, run);
  }
}
