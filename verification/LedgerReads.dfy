/**
  What readers and compare-and-swap calls can rely on (internal/ledger/append.go with the readers of
  internal/state/replay.go and the callers of internal/service/proof.go). Readers take no lock, so they can read events that
  a failing batch later removes. That is the only thing that can go wrong, and this module proves it so.
 */
module LedgerReads {
  import opened LedgerProtocol
  import opened LedgerSerial

  // ---- What a call has read, and what becomes of it -------------------------------------------------

  /** The files a call, or the reader it started as, has read: those numbered 1, 2, and so on. */
  function ReadBy<E>(p: Proc<E>): seq<File<E>> { if p.Reading? then p.read else ReadFor(p.call) }

  function ReadFor<E>(call: Call<E>): seq<File<E>> {
    match call
    case AppendIf(_, _, read) => read
    case Append(_, Some(read)) => read
    case _ => []
  }

  predicate HasRead<E>(p: Proc<E>, k: nat) { 1 <= k <= |ReadBy(p)| }

  ghost predicate InPlace<E>(dir: map<nat, File<E>>, k: nat, f: File<E>) { k in dir && dir[k] == f }

  /** The directory still has what was read. */
  ghost predicate StillThere<E>(dir: map<nat, File<E>>, read: seq<File<E>>) {
    forall i :: 0 <= i < |read| ==> InPlace(dir, i + 1, read[i])
  }

  /** The calls that have read a number at the moment when this step removes it. */
  ghost function Victims<E>(c: Clients<E>, s: State<E>, l: Label<E>): set<Pid>
    requires Enabled(c, s, l)
  {
    if l.action.RemoveEvent? then
      var p := s.procs[l.pid];
      set q | q in s.procs && HasRead(s.procs[q], p.next + p.removed)
    else {}
  }

  /** The calls that in the course of the run had a number removed after they had read it. */
  ghost function Stale<E>(c: Clients<E>, s: State<E>, run: seq<Label<E>>): set<Pid>
    requires IsRun(c, s, run)
    decreases |run|
  {
    if run == [] then {} else Victims(c, s, run[0]) + Stale(c, Apply(c, s, run[0]), run[1..])
  }

  lemma {:induction false} NoRollbackNoneStale<E>(c: Clients<E>, s: State<E>, run: seq<Label<E>>)
    requires IsRun(c, s, run) && NoRollback(run)
    ensures Stale(c, s, run) == {}
    decreases |run|
  {
    if run != [] {
      assert !run[0].action.RemoveEvent?;
      NoRollbackNoneStale(c, Apply(c, s, run[0]), run[1..]);
    }
  }

  /** Past its renames: a call that will not put another file in place. */
  predicate PastRenaming<E>(p: Proc<E>) { p.RollingBack? || p.Releasing? || p.Verified? || p.Finished? }

  /** File f will never again be number k: its author has removed it and renames no more. */
  ghost predicate Lost<E>(s: State<E>, n: nat, k: nat, f: File<E>) {
    k > n && f.author in s.procs && PastRenaming(s.procs[f.author]) && !Wrote(s.procs[f.author], k)
  }

  lemma LostIsGone<E>(s: State<E>, n: nat, before: map<nat, File<E>>, k: nat, f: File<E>)
    requires OwnInv(s, n, before) && Lost(s, n, k, f)
    ensures !InPlace(s.dir, k, f)
  {
  }

  ghost predicate SomeLost<E>(s: State<E>, n: nat, read: seq<File<E>>) {
    exists i :: 0 <= i < |read| && Lost(s, n, i + 1, read[i])
  }

  /** Every call that is not stale finds all it read; every stale one has lost a file for good. */
  ghost predicate ReadInv<E>(s: State<E>, n: nat, stale: set<Pid>) {
    && stale <= s.procs.Keys
    && forall q :: q in s.procs ==>
         if q in stale then SomeLost(s, n, ReadBy(s.procs[q])) else StillThere(s.dir, ReadBy(s.procs[q]))
  }

  // ---- Each kind of step ----------------------------------------------------------------------------------

  /** A step of the call itself adds to what it has read only the next number, as it is in the directory. */
  lemma OwnReadStep<E>(c: Clients<E>, s: State<E>, l: Label<E>)
    requires Enabled(c, s, l)
    ensures l.pid in Apply(c, s, l).procs
    ensures l.pid !in s.procs ==> ReadBy(Apply(c, s, l).procs[l.pid]) == []
    ensures
      var s' := Apply(c, s, l);
      l.pid in s.procs ==>
        var read, read' := ReadBy(s.procs[l.pid]), ReadBy(s'.procs[l.pid]);
        read' == read || (s'.dir == s.dir && |read| + 1 in s.dir && read' == read + [s.dir[|read| + 1]])
  {
  }

  lemma OwnPastRenaming<E>(c: Clients<E>, s: State<E>, l: Label<E>, k: nat)
    requires Enabled(c, s, l) && l.pid in s.procs && PastRenaming(s.procs[l.pid]) && !Wrote(s.procs[l.pid], k)
    requires WellFormedCall(s.procs[l.pid])
    ensures l.pid in Apply(c, s, l).procs
    ensures PastRenaming(Apply(c, s, l).procs[l.pid]) && !Wrote(Apply(c, s, l).procs[l.pid], k)
  {
  }

  /** What is lost stays lost. */
  lemma LostStep<E>(c: Clients<E>, s: State<E>, l: Label<E>, n: nat, k: nat, f: File<E>)
    requires ShapeInv(s) && Enabled(c, s, l) && Lost(s, n, k, f)
    ensures Lost(Apply(c, s, l), n, k, f)
  {
    hide *;
    LostParts(s, n, k, f);
    OthersUntouched(c, s, l, f.author);
    if f.author == l.pid {
      OwnPastRenaming(c, s, l, k);
    }
    LostWhole(Apply(c, s, l), n, k, f);
  }

  lemma LostParts<E>(s: State<E>, n: nat, k: nat, f: File<E>)
    requires Lost(s, n, k, f) && ShapeInv(s)
    ensures k > n && f.author in s.procs && PastRenaming(s.procs[f.author]) && !Wrote(s.procs[f.author], k)
    ensures WellFormedCall(s.procs[f.author])
  {
  }

  lemma LostWhole<E>(s: State<E>, n: nat, k: nat, f: File<E>)
    requires k > n && f.author in s.procs && PastRenaming(s.procs[f.author]) && !Wrote(s.procs[f.author], k)
    ensures Lost(s, n, k, f)
  {
  }

  lemma SomeLostStep<E>(c: Clients<E>, s: State<E>, l: Label<E>, n: nat, read: seq<File<E>>, read': seq<File<E>>)
    requires ShapeInv(s) && Enabled(c, s, l) && SomeLost(s, n, read) && read <= read'
    ensures SomeLost(Apply(c, s, l), n, read')
  {
    var i :| 0 <= i < |read| && Lost(s, n, i + 1, read[i]);
    hide *;
    LostStep(c, s, l, n, i + 1, read[i]);
    SomeLostAt(Apply(c, s, l), n, read', i);
  }

  lemma SomeLostAt<E>(s: State<E>, n: nat, read: seq<File<E>>, i: nat)
    requires i < |read| && Lost(s, n, i + 1, read[i])
    ensures SomeLost(s, n, read)
  {
  }

  /** A step leaves alone every file it does not remove. */
  lemma FilesKept<E>(c: Clients<E>, s: State<E>, n: nat, before: map<nat, File<E>>, l: Label<E>, k: nat)
    requires ShapeInv(s) && OwnInv(s, n, before) && Enabled(c, s, l) && k in s.dir
    requires l.action.RemoveEvent? ==> k != s.procs[l.pid].next + s.procs[l.pid].removed
    ensures k in Apply(c, s, l).dir && Apply(c, s, l).dir[k] == s.dir[k]
  {
    hide *;
    if l.action.Rename? {
      RenameEffect(c, s, l);
      CallFacts(s, n, before, l.pid);
    } else if l.action.RemoveEvent? {
      RemoveEventEffect(c, s, l);
    } else {
      DirectoryAlone(c, s, l);
    }
  }

  lemma DirectoryAlone<E>(c: Clients<E>, s: State<E>, l: Label<E>)
    requires Enabled(c, s, l) && !l.action.Rename? && !l.action.RemoveEvent?
    ensures Apply(c, s, l).dir == s.dir
  {
  }

  lemma StillThereStep<E>(c: Clients<E>, s: State<E>, n: nat, before: map<nat, File<E>>, l: Label<E>, read: seq<File<E>>)
    requires ShapeInv(s) && OwnInv(s, n, before) && Enabled(c, s, l) && StillThere(s.dir, read)
    requires l.action.RemoveEvent? ==> !(1 <= s.procs[l.pid].next + s.procs[l.pid].removed <= |read|)
    ensures StillThere(Apply(c, s, l).dir, read)
  {
    hide ShapeInv;
    hide OwnInv;
    hide Apply;
    forall i | 0 <= i < |read| ensures InPlace(Apply(c, s, l).dir, i + 1, read[i]) {
      WasThere(s.dir, read, i);
      FilesKept(c, s, n, before, l, i + 1);
    }
  }

  /** The file that a rollback removes was written by it, and is lost. */
  lemma RemovedIsLost<E>(c: Clients<E>, s: State<E>, n: nat, before: map<nat, File<E>>, l: Label<E>)
    requires ShapeInv(s) && OwnInv(s, n, before) && Enabled(c, s, l) && l.action.RemoveEvent?
    ensures
      var p := s.procs[l.pid];
      var k := p.next + p.removed;
      k in s.dir && k > n && Lost(Apply(c, s, l), n, k, s.dir[k])
  {
    RemoveEventEffect(c, s, l);
    CallFacts(s, n, before, l.pid);
    hide Apply;
    hide Enabled;
    var p := s.procs[l.pid];
    WrittenAfterRemoval(p);
    assert WritesPresent(s, n, l.pid, p);
  }

  lemma ReadStep<E>(c: Clients<E>, s: State<E>, n: nat, before: map<nat, File<E>>, l: Label<E>, stale: set<Pid>)
    requires ShapeInv(s) && OwnInv(s, n, before) && Enabled(c, s, l) && ReadInv(s, n, stale)
    ensures ReadInv(Apply(c, s, l), n, stale + Victims(c, s, l))
  {
    var s' := Apply(c, s, l);
    forall q | q in s'.procs
      ensures if q in stale + Victims(c, s, l) then SomeLost(s', n, ReadBy(s'.procs[q]))
              else StillThere(s'.dir, ReadBy(s'.procs[q]))
    {
      ReadStepOf(c, s, n, before, l, stale, q);
    }
    forall q | q in s.procs ensures q in s'.procs { OthersUntouched(c, s, l, q); }
  }

  /** The step seen by one call q. */
  lemma ReadStepOf<E>(c: Clients<E>, s: State<E>, n: nat, before: map<nat, File<E>>, l: Label<E>, stale: set<Pid>, q: Pid)
    requires ShapeInv(s) && OwnInv(s, n, before) && Enabled(c, s, l) && ReadInv(s, n, stale) && q in Apply(c, s, l).procs
    ensures
      var s' := Apply(c, s, l);
      if q in stale + Victims(c, s, l) then SomeLost(s', n, ReadBy(s'.procs[q])) else StillThere(s'.dir, ReadBy(s'.procs[q]))
  {
    hide Apply;
    hide Enabled;
    hide ShapeInv;
    hide OwnInv;
    hide Lost;
    hide SomeLost;
    hide StillThere;
    hide ReadBy;
    var s' := Apply(c, s, l);
    OthersUntouched(c, s, l, q);
    OwnReadStep(c, s, l);
    if q !in s.procs {
      NothingRead(s'.dir);
    } else {
      var read, read' := ReadBy(s.procs[q]), ReadBy(s'.procs[q]);
      if q in stale {
        SomeLostStep(c, s, l, n, read, read');
      } else if q in Victims(c, s, l) {
        RemoveEventEffect(c, s, l);
        var k := s.procs[l.pid].next + s.procs[l.pid].removed;
        RemovedIsLost(c, s, n, before, l);
        WasThere(s.dir, read, k - 1);
        SomeLostAt(s', n, read', k - 1);
      } else {
        StillThereStep(c, s, n, before, l, read);
        if read' != read { OneMoreThere(s.dir, read); }
      }
    }
  }

  lemma NothingRead<E>(dir: map<nat, File<E>>)
    ensures StillThere(dir, [])
  {
  }

  lemma WasThere<E>(dir: map<nat, File<E>>, read: seq<File<E>>, i: nat)
    requires StillThere(dir, read) && i < |read|
    ensures i + 1 in dir && dir[i + 1] == read[i]
  {
  }

  lemma OneMoreThere<E>(dir: map<nat, File<E>>, read: seq<File<E>>)
    requires StillThere(dir, read) && |read| + 1 in dir
    ensures StillThere(dir, read + [dir[|read| + 1]])
  {
    var longer := read + [dir[|read| + 1]];
    forall i | 0 <= i < |longer| ensures InPlace(dir, i + 1, longer[i]) {
      if i < |read| { WasThere(dir, read, i); }
    }
  }

  lemma {:induction false} ReadRun<E>(c: Clients<E>, s: State<E>, n: nat, before: map<nat, File<E>>, run: seq<Label<E>>,
                                      stale: set<Pid>)
    requires MutexInv(s) && ShapeInv(s) && OwnInv(s, n, before) && ReadInv(s, n, stale)
    requires IsRun(c, s, run) && RollbacksSucceed(run)
    ensures ReadInv(End(c, s, run), n, stale + Stale(c, s, run))
    decreases |run|
  {
    hide Apply;
    hide Enabled;
    hide MutexInv;
    hide ShapeInv;
    hide OwnInv;
    hide ReadInv;
    hide Victims;
    if run == [] {
      assert stale + {} == stale;
    } else {
      assert !run[0].action.RemoveEventFails?;
      MutexStep(c, s, run[0]);
      ShapeStep(c, s, run[0]);
      OwnStep(c, s, n, before, run[0]);
      ReadStep(c, s, n, before, run[0], stale);
      ReadRun(c, Apply(c, s, run[0]), n, before, run[1..], stale + Victims(c, s, run[0]));
      assert stale + Victims(c, s, run[0]) + Stale(c, Apply(c, s, run[0]), run[1..]) == stale + Stale(c, s, run);
    }
  }

  /** In every run whose rollbacks succeed, a call finds all the files it read still in place, under their numbers, exactly if none
      of these numbers was removed after it had read it. */
  lemma ReadsHoldExactly<E>(c: Clients<E>, s: State<E>, n: nat, run: seq<Label<E>>, pid: Pid)
    requires Initial(s, n) && IsRun(c, s, run) && RollbacksSucceed(run) && pid in End(c, s, run).procs
    ensures
      var e := End(c, s, run);
      StillThere(e.dir, ReadBy(e.procs[pid])) <==> pid !in Stale(c, s, run)
  {
    ReadRun(c, s, n, s.dir, run, {});
    OwnRun(c, s, n, s.dir, run);
    hide IsRun;
    hide Initial;
    hide OwnInv;
    hide Lost;
    var e, stale := End(c, s, run), Stale(c, s, run);
    hide End;
    hide Stale;
    assert {} + stale == stale;
    if pid in stale {
      var read := ReadBy(e.procs[pid]);
      var i :| 0 <= i < |read| && Lost(e, n, i + 1, read[i]);
      LostIsGone(e, n, s.dir, i + 1, read[i]);
    }
  }
}
