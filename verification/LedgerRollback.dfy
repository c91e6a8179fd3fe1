/**
  Runs written out: the pieces from which concrete runs of the protocol are put together,
  and the run in which a compare-and-swap call commits on a ledger that its caller never read.
 */
module LedgerRuns {
  import opened LedgerProtocol

  lemma {:induction false} ExtendRun<E>(c: Clients<E>, s: State<E>, run: seq<Label<E>>, l: Label<E>)
    requires IsRun(c, s, run) && Enabled(c, End(c, s, run), l)
    ensures IsRun(c, s, run + [l]) && End(c, s, run + [l]) == Apply(c, End(c, s, run), l)
    decreases |run|
  {
    if run == [] {
      assert run + [l] == [l];
    } else {
      ExtendRun(c, Apply(c, s, run[0]), run[1..], l);
      assert (run + [l])[1..] == run[1..] + [l];
    }
  }

  /** A run from `s` that reaches `at`, whose rollbacks succeed. */
  ghost predicate Reaches<E>(c: Clients<E>, s: State<E>, run: seq<Label<E>>, at: State<E>) {
    IsRun(c, s, run) && End(c, s, run) == at && RollbacksSucceed(run)
  }

  /** One more step. */
  lemma Step<E>(c: Clients<E>, s: State<E>, run: seq<Label<E>>, at: State<E>, pid: Pid, a: Action<E>)
    returns (run': seq<Label<E>>, at': State<E>)
    requires Reaches(c, s, run, at) && Enabled(c, at, Label(pid, a)) && !a.RemoveEventFails?
    ensures at' == Apply(c, at, Label(pid, a)) && Reaches(c, s, run', at')
    ensures NoRollback(run) && !a.RemoveEvent? ==> NoRollback(run')
  {
    ExtendRun(c, s, run, Label(pid, a));
    run', at' := run + [Label(pid, a)], Apply(c, at, Label(pid, a));
  }

  function LockOf<E>(pid: Pid, call: Call<E>): Option<LockFile> { Some(LockFile(AgentID(call), pid)) }

  lemma OverwriteTwice<K, V>(m: map<K, V>, k: K, a: V, b: V)
    ensures m[k := a][k := b] == m[k := b]
  {
  }

  /** A waiting call acquires the free lock. */
  lemma AcquireLock<E>(c: Clients<E>, s: State<E>, run: seq<Label<E>>, at: State<E>, pid: Pid, call: Call<E>)
    returns (run': seq<Label<E>>, at': State<E>)
    requires Reaches(c, s, run, at) && at.lock.None? && pid in at.procs && at.procs[pid] == Calling(call)
    ensures Reaches(c, s, run', at')
    ensures at' == State(at.dir, LockOf(pid, call), at.procs[pid := Holding(call)])
    ensures NoRollback(run) ==> NoRollback(run')
  {
    run', at' := Step(c, s, run, at, pid, CreateLock);
    run', at' := Step(c, s, run', at', pid, WriteMetadata);
    OverwriteTwice(at.procs, pid, Created(call), Holding(call));
  }

  /** A call that is done releases the lock it holds. */
  lemma ReleaseLock<E>(c: Clients<E>, s: State<E>, run: seq<Label<E>>, at: State<E>, pid: Pid, call: Call<E>, outcome: Outcome)
    returns (run': seq<Label<E>>, at': State<E>)
    requires Reaches(c, s, run, at) && at.lock == LockOf(pid, call) && pid in at.procs && at.procs[pid] == Releasing(call, outcome)
    ensures Reaches(c, s, run', at')
    ensures at' == State(at.dir, None, at.procs[pid := Finished(call, outcome)])
    ensures NoRollback(run) ==> NoRollback(run')
  {
    run', at' := Step(c, s, run, at, pid, CheckOwner);
    run', at' := Step(c, s, run', at', pid, RemoveLock);
    OverwriteTwice(at.procs, pid, Verified(call, outcome), Finished(call, outcome));
  }

  /** A plain append from start to end, undisturbed. */
  lemma AppendAlone<E>(c: Clients<E>, s: State<E>, run: seq<Label<E>>, at: State<E>, pid: Pid, e: E, next: nat)
    returns (run': seq<Label<E>>, at': State<E>)
    requires Reaches(c, s, run, at) && at.lock.None? && pid !in at.procs && c.free(e) && IsNextSequence(at.dir.Keys, next)
    ensures Reaches(c, s, run', at')
    ensures at' == State(at.dir[next := File(e, pid)], None, at.procs[pid := Finished(Append(e, None), Ok(next))])
    ensures NoRollback(run) ==> NoRollback(run')
  {
    var call := Append(e, None);
    run', at' := Step(c, s, run, at, pid, SubmitAppend(e));
    run', at' := AcquireLock(c, s, run', at', pid, call);
    OverwriteTwice(at.procs, pid, Calling(call), Holding(call));
    assert at' == State(at.dir, LockOf(pid, call), at.procs[pid := Holding(call)]);
    run', at' := CommitAndRelease(c, s, run', at', pid, call, next);
    OverwriteTwice(at.procs, pid, Holding(call), Finished(call, Ok(next)));
  }

  /** A single call that holds the lock, and expects no other number, appends and releases. */
  lemma CommitAndRelease<E>(c: Clients<E>, s: State<E>, run: seq<Label<E>>, at: State<E>, pid: Pid, call: Call<E>, next: nat)
    returns (run': seq<Label<E>>, at': State<E>)
    requires Reaches(c, s, run, at) && at.lock == LockOf(pid, call) && pid in at.procs && at.procs[pid] == Holding(call)
    requires IsNextSequence(at.dir.Keys, next)
    requires call.Append? || (call.AppendIf? && call.expected == next - 1)
    ensures Reaches(c, s, run', at')
    ensures at' == State(at.dir[next := File(call.event, pid)], None, at.procs[pid := Finished(call, Ok(next))])
    ensures NoRollback(run) ==> NoRollback(run')
  {
    run', at' := Step(c, s, run, at, pid, ListDirectory(next));
    run', at' := Step(c, s, run', at', pid, Rename);
    OverwriteTwice(at.procs, pid, Sequenced(call, next), Releasing(call, Ok(next)));
    assert at' == State(at.dir[next := File(call.event, pid)], at.lock, at.procs[pid := Releasing(call, Ok(next))]);
    run', at' := ReleaseLock(c, s, run', at', pid, call, Ok(next));
    OverwriteTwice(at.procs, pid, Releasing(call, Ok(next)), Finished(call, Ok(next)));
  }
}

module LedgerRollback {
  import opened LedgerProtocol
  import opened LedgerReads
  import opened LedgerCas
  import opened LedgerRuns

  const ANY: Clients<int> := Clients((read, e) => true, (read, e) => true, e => true)
  const EMPTY: State<int> := State(map[], None, map[])

  const BATCH: Call<int> := AppendBatch([10, 20])
  const SWAP: Call<int> := AppendIf(99, 1, [File(10, 0)])

  /** A batch renames its first event. */
  lemma BatchStarts() returns (run: seq<Label<int>>, at: State<int>)
    ensures Reaches(ANY, EMPTY, run, at)
    ensures at.dir == map[1 := File(10, 0)] && at.lock == LockOf(0, BATCH) && at.procs.Keys == {0}
    ensures at.procs[0] == Renaming(BATCH, 1, 1)
  {
    run, at := [], EMPTY;
    assert Reaches(ANY, EMPTY, run, at);
    hide IsRun;
    hide End;
    hide RollbacksSucceed;
    run, at := Step(ANY, EMPTY, run, at, 0, SubmitBatch([10, 20]));
    run, at := AcquireLock(ANY, EMPTY, run, at, 0, BATCH);
    run, at := Step(ANY, EMPTY, run, at, 0, ListDirectory(1));
    run, at := Step(ANY, EMPTY, run, at, 0, Rename);
  }

  /** A reader reads that event and prepares a compare-and-swap. */
  lemma ReaderSeesBatch() returns (run: seq<Label<int>>, at: State<int>)
    ensures Reaches(ANY, EMPTY, run, at)
    ensures at.dir == map[1 := File(10, 0)] && at.lock == LockOf(0, BATCH) && at.procs.Keys == {0, 1}
    ensures at.procs[0] == Renaming(BATCH, 1, 1) && at.procs[1] == Calling(SWAP)
  {
    hide IsRun;
    hide End;
    hide RollbacksSucceed;
    run, at := BatchStarts();
    run, at := Step(ANY, EMPTY, run, at, 1, StartRead({1}));
    run, at := Step(ANY, EMPTY, run, at, 1, ReadNext);
    assert at.procs[1] == Reading({1}, [File(10, 0)]);
    run, at := Step(ANY, EMPTY, run, at, 1, SubmitIf(99));
  }

  /** The batch fails at its second rename, rolls back, and another call takes the number. */
  lemma BatchRollsBack() returns (run: seq<Label<int>>, at: State<int>)
    ensures Reaches(ANY, EMPTY, run, at)
    ensures at.dir == map[1 := File(30, 2)] && at.lock.None? && 1 in at.procs && at.procs[1] == Calling(SWAP)
  {
    hide IsRun;
    hide End;
    hide RollbacksSucceed;
    run, at := ReaderSeesBatch();
    run, at := Step(ANY, EMPTY, run, at, 0, RenameFails);
    run, at := Step(ANY, EMPTY, run, at, 0, RemoveEvent);
    assert at.dir == map[];
    run, at := ReleaseLock(ANY, EMPTY, run, at, 0, BATCH, Failed);
    run, at := AppendAlone(ANY, EMPTY, run, at, 2, 30, 1);
  }

  /** A number removed after it was read: here a call that read [10] is about to commit on the ledger [30], at the number it
      expects. */
  lemma RollbackDefeatsCompareAndSwap() returns (run: seq<Label<int>>)
    ensures Initial(EMPTY, 0) && IsRun(ANY, EMPTY, run) && RollbacksSucceed(run)
    ensures
      var e := End(ANY, EMPTY, run);
      && Enabled(ANY, e, Label(1, Rename)) && e.procs[1].call.AppendIf?
      && Contiguous(e.dir.Keys) && Ledger(e.dir) == [30] && Contents(e.procs[1].call.read) == [10]
      && 1 in Stale(ANY, EMPTY, run)
  {
    hide IsRun;
    hide End;
    hide RollbacksSucceed;
    hide Stale;
    var at;
    run, at := BatchRollsBack();
    run, at := AcquireLock(ANY, EMPTY, run, at, 1, SWAP);
    run, at := Step(ANY, EMPTY, run, at, 1, ListDirectory(2));
    assert at.dir == map[1 := File(30, 2)];
    LedgerIs(at.dir, 1);
    assert Ledger(at.dir)[0] == 30;
    assert Record(at.dir)[0] != at.procs[1].call.read[0];
    CompareAndSwapExactly(ANY, EMPTY, 0, run, 1);
  }
}
