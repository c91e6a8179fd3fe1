/**
  internal/lock/persistent.go: claim locks kept in memory and recorded in the ledger.

  A ledger event is represented by what parsing it yields. Whether an append or a read succeeds, what other
  processes append in the meantime and what the clock shows are parameters of each call.
 */
module PersistentLocks {

  type NodeId = string

  const NANOSECOND: int := 1
  const CLOCK_SKEW_TOLERANCE: int := 5_000_000_000 * NANOSECOND

  /** Corrupt: too large or not to be parsed; `lockLike` if it may have been a lock event. */
  datatype Entry =
    | Acquired(node: NodeId, owner: string, expires: int)
    | Released(node: NodeId)
    | Reaped(node: NodeId)
    | Other
    | Corrupt(lockLike: bool)

  datatype Lock = Lock(owner: string, expiresAt: int)

  type Locks = map<NodeId, Lock>

  predicate IsExpired(lock: Lock, now: int) { now > lock.expiresAt + CLOCK_SKEW_TOLERANCE }

  // ---- The fold over the ledger ---------------------------------------------------------------------

  function Apply(locks: Locks, e: Entry): Locks {
    match e
    case Acquired(n, owner, expires) => locks[n := Lock(owner, expires)]
    case Released(n) => locks - {n}
    case Reaped(n) => locks - {n}
    case Other => locks
    case Corrupt(_) => locks
  }

  function Fold(entries: seq<Entry>): Locks {
    if entries == [] then map[] else Apply(Fold(entries[..|entries| - 1]), entries[|entries| - 1])
  }

  function Owners(locks: Locks): map<NodeId, string> { map n | n in locks :: locks[n].owner }

  predicate IsLockEvent(e: Entry) { e.Acquired? || e.Released? || e.Reaped? }

  predicate About(e: Entry, n: NodeId) { IsLockEvent(e) && e.node == n }

  predicate Silent(entries: seq<Entry>, n: NodeId) { forall i :: 0 <= i < |entries| ==> !About(entries[i], n) }

  predicate SilentFrom(entries: seq<Entry>, at: int, n: NodeId)
    requires 0 <= at
  {
    forall i :: at <= i < |entries| ==> !About(entries[i], n)
  }

  predicate NoLockEvents(entries: seq<Entry>) { forall i :: 0 <= i < |entries| ==> !IsLockEvent(entries[i]) }

  predicate NoCorruption(entries: seq<Entry>) {
    forall i :: 0 <= i < |entries| ==> !(entries[i].Corrupt? && entries[i].lockLike)
  }

  /** The last lock event of the node is an acquisition by `owner`, and stands at position `at`, counted from one. */
  predicate HeldAt(entries: seq<Entry>, n: NodeId, owner: string, at: int) {
    && 1 <= at <= |entries| && entries[at - 1].Acquired? && entries[at - 1].node == n && entries[at - 1].owner == owner
    && SilentFrom(entries, at, n)
  }

  lemma FoldStep(entries: seq<Entry>, e: Entry)
    ensures Fold(entries + [e]) == Apply(Fold(entries), e)
  {
    assert (entries + [e])[..|entries|] == entries;
  }

  lemma {:induction false} FoldSilent(entries: seq<Entry>, more: seq<Entry>, n: NodeId)
    requires Silent(more, n)
    ensures n in Fold(entries + more) <==> n in Fold(entries)
    ensures n in Fold(entries) ==> Fold(entries + more)[n] == Fold(entries)[n]
  {
    if more == [] {
      assert entries + more == entries;
    } else {
      var init, last := more[..|more| - 1], more[|more| - 1];
      FoldSilent(entries, init, n);
      assert entries + more == entries + init + [last];
      FoldStep(entries + init, last);
      assert !About(last, n);
    }
  }

  lemma FoldUnchanged(entries: seq<Entry>, more: seq<Entry>)
    requires NoLockEvents(more)
    ensures Fold(entries + more) == Fold(entries)
  {
    forall n ensures n in Fold(entries + more) <==> n in Fold(entries)
             ensures n in Fold(entries) ==> Fold(entries + more)[n] == Fold(entries)[n] {
      FoldSilent(entries, more, n);
    }
  }

  /** The fold holds exactly the nodes whose last lock event is an acquisition, with the owner named there. */
  lemma {:induction false} FoldExactly(entries: seq<Entry>, n: NodeId, owner: string)
    ensures n in Fold(entries) && Fold(entries)[n].owner == owner <==> exists at :: HeldAt(entries, n, owner, at)
  {
    if entries != [] {
      var init, last := entries[..|entries| - 1], entries[|entries| - 1];
      FoldExactly(init, n, owner);
      assert entries == init + [last];
      FoldStep(init, last);
      HeldNext(init, last, n);
      if About(last, n) && last.Acquired? { OnlyLast(entries, n, owner); }
    }
  }

  lemma OnlyLast(entries: seq<Entry>, n: NodeId, owner: string)
    requires entries != [] && About(entries[|entries| - 1], n)
    ensures forall at :: HeldAt(entries, n, owner, at) ==> at == |entries|
  {
  }

  lemma HeldNext(init: seq<Entry>, last: Entry, n: NodeId)
    ensures About(last, n) && last.Acquired? ==> HeldAt(init + [last], n, last.owner, |init| + 1)
    ensures About(last, n) && !last.Acquired? ==> forall o, s :: !HeldAt(init + [last], n, o, s)
    ensures !About(last, n) ==> forall o, s :: HeldAt(init + [last], n, o, s) <==> HeldAt(init, n, o, s)
  {
    var entries := init + [last];
    assert forall i :: 0 <= i < |init| ==> entries[i] == init[i];
    assert entries[|init|] == last;
  }

  // ---- Who may believe to hold the lock ----------------------------------------------------------------

  /** At most one acquisition can be the last lock event of its node. */
  lemma OneHolder(entries: seq<Entry>, n: NodeId, a: string, s: int, b: string, t: int)
    requires HeldAt(entries, n, a, s) && HeldAt(entries, n, b, t)
    ensures a == b && s == t
  {
  }

  /** Two acquisitions that are both in the ledger when the verifications read it: the earlier one fails, and the later one
      succeeds exactly if no lock event of the node follows it. */
  lemma LaterAcquisitionWins(entries: seq<Entry>, n: NodeId, a: string, s: int, b: string, t: int)
    requires 1 <= s < t <= |entries|
    requires entries[s - 1].Acquired? && entries[s - 1].node == n && entries[s - 1].owner == a
    requires entries[t - 1].Acquired? && entries[t - 1].node == n && entries[t - 1].owner == b
    ensures !HeldAt(entries, n, a, s)
    ensures HeldAt(entries, n, b, t) <==> SilentFrom(entries, t, n)
  {
    assert About(entries[t - 1], n);
  }

  /** The own event, written at the end, is verified only under the number that is its position: with a gap in the ledger, where
      the number is greater, the verification always fails. */
  lemma OnlyOwnPosition(entries: seq<Entry>, evt: Entry, number: int)
    requires evt.Acquired?
    ensures HeldAt(entries + [evt], evt.node, evt.owner, number) <==> number == |entries| + 1
  {
    assert (entries + [evt])[|entries|] == evt;
  }

  // ---- The program ----------------------------------------------------------------------------------------

  /** unicode.IsSpace */
  predicate IsSpace(c: char) {
    c in {'\t', '\n', '\U{0B}', '\U{0C}', '\r', ' ', '\U{85}', '\U{A0}', '\U{1680}', '\U{2028}', '\U{2029}', '\U{202F}',
          '\U{205F}', '\U{3000}'} || '\U{2000}' <= c <= '\U{200A}'
  }

  /** White space by code point. */
  lemma SpacesExactly(c: char)
    ensures
      var n := c as int;
      IsSpace(c) <==>
        || 0x09 <= n <= 0x0D || n == 0x20 || n == 0x85 || n == 0xA0 || n == 0x1680 || 0x2000 <= n <= 0x200A
        || n == 0x2028 || n == 0x2029 || n == 0x202F || n == 0x205F || n == 0x3000
  {
  }

  /** NewClaimLock refuses an empty node, a blank owner and a timeout that is not positive. */
  predicate ValidRequest(n: NodeId, owner: string, timeout: int) {
    n != "" && (exists i :: 0 <= i < |owner| && !IsSpace(owner[i])) && timeout > 0
  }

  lemma InvalidExactly(n: NodeId, owner: string, timeout: int)
    ensures !ValidRequest(n, owner, timeout) <==>
      n == "" || timeout <= 0 || forall i :: 0 <= i < |owner| ==> IsSpace(owner[i])
  {
  }

  predicate Free(locks: Locks, n: NodeId, now: int) { n in locks ==> IsExpired(locks[n], now) }

  class Ledger {
    var entries: seq<Entry>

    constructor ()
      ensures entries == []
    {
      entries := [];
    }

    /** The ledger has no gaps, so the sequence number of an event is its position. */
    method Append(e: Entry, ok: bool) returns (at: int)
      modifies this
      ensures entries == (if ok then old(entries) + [e] else old(entries)) && at == |entries|
    {
      if ok { entries := entries + [e]; }
      at := |entries|;
    }

    /** Other processes append. */
    method OthersAppend(more: seq<Entry>)
      modifies this
      ensures entries == old(entries) + more
    {
      entries := entries + more;
    }
  }

  datatype Outcome = Granted | InvalidRequest | AlreadyLocked | NotPersisted | NotVerified

  class PersistentManager {
    const ledger: Ledger
    var locks: Locks

    /** Memory and ledger name the same owners. */
    ghost predicate Agrees() reads this, ledger { Owners(locks) == Owners(Fold(ledger.entries)) }

    constructor (l: Ledger)
      ensures ledger == l && locks == map[]
    {
      ledger, locks := l, map[];
    }

    /** replayLedger: fails if the ledger cannot be read or something that may have been a lock event is corrupt. */
    method ReplayLedger(readOk: bool) returns (ok: bool)
      requires locks == map[]
      modifies this`locks
      ensures ok <==> readOk && forall i :: 0 <= i < |ledger.entries| ==>
        !(ledger.entries[i].Corrupt? && ledger.entries[i].lockLike)
      ensures ok ==> locks == Fold(ledger.entries) && Agrees()
    {
      if !readOk { return false; }
      var events, corrupted := ledger.entries, 0;
      assert events[..0] == [];
      for i := 0 to |events|
        invariant locks == Fold(events[..i])
        invariant corrupted >= 0 && (corrupted == 0 <==> NoCorruption(events[..i]))
      {
        assert events[..i + 1] == events[..i] + [events[i]];
        FoldStep(events[..i], events[i]);
        match events[i]
        case Acquired(n, owner, expires) => locks := locks[n := Lock(owner, expires)];
        case Released(n) => locks := locks - {n};
        case Reaped(n) => locks := locks - {n};
        case Other =>
        case Corrupt(lockLike) => if lockLike { corrupted := corrupted + 1; }
      }
      assert events[..|events|] == events;
      ok := corrupted == 0;
    }

    /** verifyLockHolder: reads the whole ledger and keeps the last lock event of the node. */
    method VerifyLockHolder(n: NodeId, owner: string, at: int, readOk: bool) returns (ok: bool)
      ensures ok <==> readOk && HeldAt(ledger.entries, n, owner, at)
    {
      if !readOk { return false; }
      var events := ledger.entries;
      var held, currentOwner, sequence := false, "", 0;
      for i := 0 to |events|
        invariant held ==> 1 <= sequence <= i && HeldAt(events[..i], n, currentOwner, sequence)
        invariant !held ==> forall o, s :: !HeldAt(events[..i], n, o, s)
      {
        assert events[..i + 1] == events[..i] + [events[i]];
        HeldNext(events[..i], events[i], n);
        match events[i]
        case Acquired(node, o, _) => if node == n { held, currentOwner, sequence := true, o, i + 1; }
        case Released(node) => if node == n { held := false; }
        case Reaped(node) => if node == n { held := false; }
        case Other =>
        case Corrupt(_) =>
      }
      assert events[..|events|] == events;
      if held && HeldAt(events, n, owner, at) { OneHolder(events, n, currentOwner, sequence, owner, at); }
      ok := held && sequence == at && currentOwner == owner;
    }

    /** Acquire. `created` is the time NewClaimLock reads, `now` the time of the check; `before` and `between` are what other
        processes append before and after this call's own event. */
    method Acquire(n: NodeId, owner: string, timeout: int, created: int, now: int, appendOk: bool, readOk: bool,
                   before: seq<Entry>, between: seq<Entry>) returns (r: Outcome)
      modifies this`locks, ledger
      ensures r == AcquireOutcome(old(locks), n, owner, timeout, now, appendOk, readOk, between)
      ensures ledger.entries == LedgerAfter(old(ledger.entries), r, before, Acquired(n, owner, created + timeout), between)
      ensures locks == if r.Granted? then old(locks)[n := Lock(owner, created + timeout)] else old(locks)
      ensures r.InvalidRequest? <==> n == "" || timeout <= 0 || forall i :: 0 <= i < |owner| ==> IsSpace(owner[i])
      ensures ValidRequest(n, owner, timeout) ==>
        (r.AlreadyLocked? <==> n in old(locks) && now <= old(locks)[n].expiresAt + 5_000_000_000)
      ensures old(Agrees()) && NoLockEvents(before) && NoLockEvents(between) ==>
        (Agrees() <==> (r.NotVerified? ==> n in old(locks) && old(locks)[n].owner == owner))
    {
      hide HeldAt;
      hide Silent;
      hide NoLockEvents;
      hide ValidRequest;
      hide Fold;
      hide Apply;
      hide Owners;
      InvalidExactly(n, owner, timeout);
      if !ValidRequest(n, owner, timeout) { return InvalidRequest; }
      if n in locks && !IsExpired(locks[n], now) { return AlreadyLocked; }
      ghost var was := ledger.entries;
      var evt := Acquired(n, owner, created + timeout);
      ledger.OthersAppend(before);
      var at := ledger.Append(evt, appendOk);
      if !appendOk {
        FoldKept(was, before);
        return NotPersisted;
      }
      ledger.OthersAppend(between);
      AgreementAfterAcquired(locks, was, before, evt, between);
      OwnEventHeld(was + before, evt, between);
      var verified := VerifyLockHolder(n, owner, at, readOk);
      if !verified { return NotVerified; }
      locks := locks[n := Lock(owner, created + timeout)];
      return Granted;
    }

    /** Release: only the owner, expired or not. */
    method Release(n: NodeId, owner: string, appendOk: bool) returns (ok: bool)
      modifies this`locks, ledger
      ensures ok <==> owner != "" && n in old(locks) && old(locks)[n].owner == owner && appendOk
      ensures ledger.entries == if ok then old(ledger.entries) + [Released(n)] else old(ledger.entries)
      ensures locks == if ok then old(locks) - {n} else old(locks)
      ensures old(Agrees()) ==> Agrees()
    {
      if owner == "" { return false; }
      if n !in locks { return false; }
      if locks[n].owner != owner { return false; }
      FoldStep(ledger.entries, Released(n));
      OwnersRemove(locks, Fold(ledger.entries), n);
      var at := ledger.Append(Released(n), appendOk);
      if !appendOk { return false; }
      locks := locks - {n};
      return true;
    }

    method ReapOne(n: NodeId, appendOk: bool)
      requires n in locks
      modifies this`locks, ledger
      ensures locks == if appendOk then old(locks) - {n} else old(locks)
      ensures ledger.entries == if appendOk then old(ledger.entries) + [Reaped(n)] else old(ledger.entries)
      ensures old(Agrees()) ==> Agrees()
    {
      ReapStep(locks, ledger.entries, n);
      var at := ledger.Append(Reaped(n), appendOk);
      if appendOk { locks := locks - {n}; }
    }

    /** ReapExpired: `seen` is the time at which a node's lock is looked at, `appendOk` whether its event is written. */
    method ReapExpired(seen: NodeId -> int, appendOk: NodeId -> bool) returns (reaped: seq<NodeId>)
      modifies this`locks, ledger
      ensures forall n :: n in reaped <==> n in old(locks) && seen(n) > old(locks)[n].expiresAt + 5_000_000_000 && appendOk(n)
      ensures NoRepeats(reaped)
      ensures locks == old(locks) - (set n | n in reaped)
      ensures ledger.entries == old(ledger.entries) + ReapedEvents(reaped)
      ensures old(Agrees()) ==> Agrees()
    {
      hide *;
      reaped := [];
      ghost var was := locks;
      NothingReaped(was, ledger.entries, seen, appendOk);
      var rest := locks.Keys;
      while rest != {}
        invariant Reaping(was, locks, old(ledger.entries), ledger.entries, rest, reaped, seen, appendOk)
        invariant old(Agrees()) ==> Agrees()
        decreases |rest|
      {
        var n :| n in rest;
        LookedAt(was, locks, old(ledger.entries), ledger.entries, rest, reaped, seen, appendOk, n);
        rest := rest - {n};
        if IsExpired(locks[n], seen(n)) {
          ReapOne(n, appendOk(n));
          if appendOk(n) { reaped := reaped + [n]; }
        }
      }
      AllLookedAt(was, locks, old(ledger.entries), ledger.entries, reaped, seen, appendOk);
    }

    /** A holder refreshes the lock object it was handed: memory changes, the ledger does not. */
    method Refresh(n: NodeId, timeout: int, now: int) returns (ok: bool)
      modifies this`locks
      ensures ok <==> n in old(locks) && timeout > 0
      ensures locks == if ok then old(locks)[n := Lock(old(locks)[n].owner, now + timeout)] else old(locks)
      ensures old(Agrees()) ==> Agrees()
    {
      if n !in locks || timeout <= 0 { return false; }
      OwnersSame(locks, n, now + timeout);
      locks := locks[n := Lock(locks[n].owner, now + timeout)];
      return true;
    }
  }

  function AcquireOutcome(locks: Locks, n: NodeId, owner: string, timeout: int, now: int, appendOk: bool, readOk: bool,
                          between: seq<Entry>): Outcome {
    if !ValidRequest(n, owner, timeout) then InvalidRequest
    else if !Free(locks, n, now) then AlreadyLocked
    else if !appendOk then NotPersisted
    else if readOk && Silent(between, n) then Granted
    else NotVerified
  }

  /** A node that memory shows is refused to everybody up to five seconds, in nanoseconds, after the expiry of its lock, and to
      nobody later. */
  lemma LockedUntil(locks: Locks, n: NodeId, owner: string, timeout: int, now: int, appendOk: bool, readOk: bool,
                    between: seq<Entry>)
    requires ValidRequest(n, owner, timeout)
    ensures AcquireOutcome(locks, n, owner, timeout, now, appendOk, readOk, between).AlreadyLocked? <==>
      n in locks && now <= locks[n].expiresAt + 5_000_000_000
  {
  }

  function LedgerAfter(was: seq<Entry>, r: Outcome, before: seq<Entry>, evt: Entry, between: seq<Entry>): seq<Entry> {
    match r
    case InvalidRequest => was
    case AlreadyLocked => was
    case NotPersisted => was + before
    case _ => was + before + [evt] + between
  }

  function ReapedEvents(nodes: seq<NodeId>): seq<Entry> { seq(|nodes|, i requires 0 <= i < |nodes| => Reaped(nodes[i])) }

  ghost predicate NoRepeats(nodes: seq<NodeId>) { forall i, j :: 0 <= i < j < |nodes| ==> nodes[i] != nodes[j] }

  /** Between two turns of ReapExpired: `reaped` are those of the nodes looked at that were expired and whose event was written. */
  ghost predicate Reaping(was: Locks, locks: Locks, before: seq<Entry>, entries: seq<Entry>, rest: set<NodeId>, reaped: seq<NodeId>,
                          seen: NodeId -> int, appendOk: NodeId -> bool) {
    && rest <= locks.Keys && locks == was - (set n | n in reaped) && entries == before + ReapedEvents(reaped) && NoRepeats(reaped)
    && forall n :: n in reaped <==> n in was && n !in rest && IsExpired(was[n], seen(n)) && appendOk(n)
  }

  lemma NothingReaped(was: Locks, before: seq<Entry>, seen: NodeId -> int, appendOk: NodeId -> bool)
    ensures Reaping(was, was, before, before, was.Keys, [], seen, appendOk)
  {
    assert was - (set n | n in []) == was && before + ReapedEvents([]) == before;
  }

  lemma LookedAt(was: Locks, locks: Locks, before: seq<Entry>, entries: seq<Entry>, rest: set<NodeId>, reaped: seq<NodeId>,
                 seen: NodeId -> int, appendOk: NodeId -> bool, n: NodeId)
    requires Reaping(was, locks, before, entries, rest, reaped, seen, appendOk) && n in rest
    ensures n in locks
    ensures
      if IsExpired(locks[n], seen(n)) && appendOk(n) then
        Reaping(was, locks - {n}, before, entries + [Reaped(n)], rest - {n}, reaped + [n], seen, appendOk)
      else Reaping(was, locks, before, entries, rest - {n}, reaped, seen, appendOk)
  {
    SetOneMore(reaped, n);
    ReapedOneMore(reaped, n);
    hide ReapedEvents;
    assert before + ReapedEvents(reaped) + [Reaped(n)] == before + (ReapedEvents(reaped) + [Reaped(n)]);
  }

  lemma AllLookedAt(was: Locks, locks: Locks, before: seq<Entry>, entries: seq<Entry>, reaped: seq<NodeId>,
                    seen: NodeId -> int, appendOk: NodeId -> bool)
    requires Reaping(was, locks, before, entries, {}, reaped, seen, appendOk)
    ensures locks == was - (set n | n in reaped) && entries == before + ReapedEvents(reaped) && NoRepeats(reaped)
    ensures forall n :: n in reaped <==> n in was && seen(n) > was[n].expiresAt + 5_000_000_000 && appendOk(n)
  {
  }

  lemma SetOneMore(nodes: seq<NodeId>, n: NodeId)
    ensures (set m | m in nodes + [n]) == (set m | m in nodes) + {n}
  {
  }

  lemma ReapStep(locks: Locks, entries: seq<Entry>, n: NodeId)
    ensures Owners(locks) == Owners(Fold(entries)) ==> Owners(locks - {n}) == Owners(Fold(entries + [Reaped(n)]))
  {
    FoldStep(entries, Reaped(n));
    OwnersRemove(locks, Fold(entries), n);
  }

  lemma ReapedOneMore(nodes: seq<NodeId>, n: NodeId)
    ensures ReapedEvents(nodes + [n]) == ReapedEvents(nodes) + [Reaped(n)]
  {
  }

  lemma FoldKept(was: seq<Entry>, before: seq<Entry>)
    ensures NoLockEvents(before) ==> Fold(was + before) == Fold(was)
  {
    if NoLockEvents(before) { FoldUnchanged(was, before); }
  }

  /** An acquisition recorded among other events adds one owner to the fold. */
  lemma AgreementAfterAcquired(locks: Locks, was: seq<Entry>, before: seq<Entry>, evt: Entry, between: seq<Entry>)
    requires evt.Acquired?
    ensures NoLockEvents(before) && NoLockEvents(between) ==>
      Owners(Fold(was + before + [evt] + between)) == Owners(Fold(was))[evt.node := evt.owner]
    ensures Owners(locks[evt.node := Lock(evt.owner, evt.expires)]) == Owners(locks)[evt.node := evt.owner]
    ensures Owners(locks)[evt.node := evt.owner] == Owners(locks)
      <==> evt.node in locks && locks[evt.node].owner == evt.owner
  {
    if NoLockEvents(before) && NoLockEvents(between) {
      FoldUnchanged(was, before);
      FoldStep(was + before, evt);
      FoldUnchanged(was + before + [evt], between);
    }
    assert Owners(locks)[evt.node := evt.owner] == Owners(locks) ==> evt.node in Owners(locks);
  }

  /** The own event is the last of its node exactly if none of those written after it concerns the node. */
  lemma OwnEventHeld(prefix: seq<Entry>, evt: Entry, between: seq<Entry>)
    requires evt.Acquired?
    ensures HeldAt(prefix + [evt] + between, evt.node, evt.owner, |prefix| + 1) <==> Silent(between, evt.node)
  {
    var entries := prefix + [evt] + between;
    assert entries[|prefix|] == evt;
    assert forall i :: 0 <= i < |between| ==> between[i] == entries[|prefix| + 1 + i];
    assert forall i :: |prefix| + 1 <= i < |entries| ==> entries[i] == between[i - |prefix| - 1];
  }

  lemma OwnersRemove(a: Locks, b: Locks, n: NodeId)
    ensures Owners(a) == Owners(b) ==> Owners(a - {n}) == Owners(b - {n})
  {
    assert Owners(a - {n}) == Owners(a) - {n} && Owners(b - {n}) == Owners(b) - {n};
  }

  lemma OwnersSame(a: Locks, n: NodeId, expires: int)
    ensures n in a ==> Owners(a[n := Lock(a[n].owner, expires)]) == Owners(a)
  {
  }

  lemma NoCorruptionConcat(a: seq<Entry>, b: seq<Entry>)
    ensures NoCorruption(a + b) <==> NoCorruption(a) && NoCorruption(b)
  {
    assert forall i :: 0 <= i < |b| ==> b[i] == (a + b)[|a| + i];
    assert forall i :: 0 <= i < |a| ==> a[i] == (a + b)[i];
  }

  // ---- Two managers ------------------------------------------------------------------------------------------

  /** Two managers start from the same empty ledger. The first claims a node and has it verified; the second, whose memory knows
      nothing of it, then claims the same node for somebody else at the same moment and is verified as well. */
  method BothGranted(n: NodeId, a: string, b: string, timeout: int, now: int)
      returns (ma: PersistentManager, mb: PersistentManager, first: Outcome, second: Outcome)
    requires ValidRequest(n, a, timeout) && ValidRequest(n, b, timeout) && a != b
    ensures ma != mb && ma.ledger == mb.ledger && first.Granted? && second.Granted?
    ensures ma.ledger.entries == [Acquired(n, a, now + timeout), Acquired(n, b, now + timeout)]
    ensures ma.locks == map[n := Lock(a, now + timeout)] && mb.locks == map[n := Lock(b, now + timeout)]
    ensures !IsExpired(ma.locks[n], now) && !IsExpired(mb.locks[n], now)
  {
    var ledger := new Ledger();
    ma := new PersistentManager(ledger);
    mb := new PersistentManager(ledger);
    first := ma.Acquire(n, a, timeout, now, now, true, true, [], []);
    second := mb.Acquire(n, b, timeout, now, now, true, true, [], []);
  }
}
