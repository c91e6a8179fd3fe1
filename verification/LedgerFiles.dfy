/**
  The ledger directory as files by name: which files are events, what number they have, and
  what it means that a directory holds a ledger.
 */
module LedgerFiles {
  import opened Filename
  import P = LedgerProtocol
  import Sorting

  datatype Content<E> = Event(event: E) | Bytes

  type Files<E> = map<string, Content<E>>

  ghost function Numbers(names: set<string>): set<nat> {
    set name | name in names && ParseFilename(name).Ok? :: ParseFilename(name).number
  }

  /** The greatest event number among the names, or 0. */
  ghost predicate IsLatest(names: set<string>, n: nat) {
    && (forall name :: name in names && ParseFilename(name).Ok? ==> ParseFilename(name).number <= n)
    && (n == 0 || n in Numbers(names))
  }

  lemma LatestIsUnique(names: set<string>, m: nat, n: nat)
    requires IsLatest(names, m) && IsLatest(names, n)
    ensures m == n
  {
  }

  /** The protocol's listing step computes the same number. */
  lemma LatestIsNextSequence(names: set<string>, n: nat)
    requires IsLatest(names, n)
    ensures P.IsNextSequence(Numbers(names), n + 1)
  {
  }

  /** The number after the latest has no file yet. */
  lemma NextNameIsFree(names: set<string>, n: nat, k: nat)
    requires IsLatest(names, n) && n < k <= MAX_INT
    ensures GenerateFilename(k) !in names
  {
    FilenameRoundTrip(k);
  }

  /** The event files are exactly those of `ledger`, numbered from 1 under their generated names. */
  ghost predicate Holds<E>(files: Files<E>, ledger: seq<E>) {
    && (forall name :: name in files && ParseFilename(name).Ok? ==>
          1 <= ParseFilename(name).number <= |ledger| && name == GenerateFilename(ParseFilename(name).number))
    && (forall k :: 1 <= k <= |ledger| ==> GenerateFilename(k) in files && files[GenerateFilename(k)] == Event(ledger[k - 1]))
  }

  lemma HoldsLatest<E>(files: Files<E>, ledger: seq<E>)
    requires Holds(files, ledger) && |ledger| <= MAX_INT
    ensures IsLatest(files.Keys, |ledger|) && P.Upto(Numbers(files.Keys), |ledger|)
  {
    forall k: nat | 1 <= k <= |ledger| ensures k in Numbers(files.Keys) {
      FilenameRoundTrip(k);
      assert GenerateFilename(k) in files.Keys;
    }
  }

  /** A directory holds at most one ledger. */
  lemma HoldsUnique<E>(files: Files<E>, a: seq<E>, b: seq<E>)
    requires Holds(files, a) && Holds(files, b) && |a| <= MAX_INT && |b| <= MAX_INT
    ensures a == b
  {
    HoldsLatest(files, a);
    HoldsLatest(files, b);
    LatestIsUnique(files.Keys, |a|, |b|);
    forall i | 0 <= i < |a| ensures a[i] == b[i] {
      assert files[GenerateFilename(i + 1)] == Event(a[i]) == Event(b[i]);
    }
  }

  // ---- Lists of names ----------------------------------------------------------------------------------

  ghost predicate Distinct(names: seq<string>) {
    forall i, j :: 0 <= i < j < |names| ==> names[i] != names[j]
  }

  function SetOf(names: seq<string>): set<string> { set name | name in names }

  lemma SplitFirst(names: seq<string>, i: nat)
    requires i < |names|
    ensures SetOf(names[..i + 1]) == SetOf(names[..i]) + {names[i]}
    ensures SetOf(names[i..]) == {names[i]} + SetOf(names[i + 1..])
    ensures Distinct(names) ==> names[i] !in SetOf(names[..i]) && names[i] !in SetOf(names[i + 1..])
  {
    assert names[..i + 1] == names[..i] + [names[i]];
    assert names[i..] == [names[i]] + names[i + 1..];
  }

  function FinalNames(start: nat, n: nat): (names: seq<string>)
    ensures |names| == n && forall i :: 0 <= i < n ==> names[i] == GenerateFilename(start + i)
  {
    seq(n, i => GenerateFilename(start + i))
  }

  lemma FinalNamesDistinct(start: nat, n: nat)
    requires start + n <= MAX_INT
    ensures Distinct(FinalNames(start, n))
  {
    hide GenerateFilename;
    hide ParseFilename;
    forall i, j | 0 <= i < j < n ensures FinalNames(start, n)[i] != FinalNames(start, n)[j] {
      if GenerateFilename(start + i) == GenerateFilename(start + j) { FilenamesDistinct(start + i, start + j); }
    }
  }

  /** Each of the distinct names with its event. */
  ghost function Named<E>(names: seq<string>, events: seq<E>): (m: Files<E>)
    requires |names| == |events| && Distinct(names)
    ensures m.Keys == SetOf(names) && forall k :: 0 <= k < |names| ==> names[k] in m && m[names[k]] == Event(events[k])
  {
    map k | 0 <= k < |names| :: names[k] := Event(events[k])
  }

  // ---- The ledger after an append -------------------------------------------------------------------

  /** Appending at the next number extends the ledger by the event. */
  lemma HoldsAfterAppend<E>(files: Files<E>, ledger: seq<E>, event: E)
    requires Holds(files, ledger) && |ledger| < MAX_INT
    ensures Holds(files[GenerateFilename(|ledger| + 1) := Event(event)], ledger + [event])
  {
    hide GenerateFilename;
    hide ParseFilename;
    var n := |ledger| + 1;
    var after := files[GenerateFilename(n) := Event(event)];
    FilenameRoundTrip(n);
    forall k | 1 <= k <= n ensures GenerateFilename(k) in after && after[GenerateFilename(k)] == Event((ledger + [event])[k - 1]) {
      FilenameRoundTrip(k);
    }
  }

  /** Files that are not events do not matter. */
  lemma HoldsWithTemp<E>(files: Files<E>, ledger: seq<E>, temp: string, content: Content<E>)
    requires Holds(files, ledger) && temp !in files && HasSuffix(temp, ".tmp")
    ensures Holds(files[temp := content], ledger)
  {
    OtherFilesIgnored(temp);
  }

  lemma BatchNumbers<E>(files: Files<E>, ledger: seq<E>, after: Files<E>, finals: seq<string>)
    requires Holds(files, ledger) && |ledger| + 1 + |finals| <= MAX_INT && finals == FinalNames(|ledger| + 1, |finals|)
    requires after.Keys == files.Keys + SetOf(finals)
    ensures forall name :: name in after && ParseFilename(name).Ok? ==>
      1 <= ParseFilename(name).number <= |ledger| + |finals| && name == GenerateFilename(ParseFilename(name).number)
  {
    hide GenerateFilename;
    hide ParseFilename;
    forall name | name in after && ParseFilename(name).Ok?
      ensures 1 <= ParseFilename(name).number <= |ledger| + |finals| && name == GenerateFilename(ParseFilename(name).number)
    {
      if name in SetOf(finals) {
        var i :| 0 <= i < |finals| && finals[i] == name;
        FilenameRoundTrip(|ledger| + 1 + i);
      }
    }
  }

  lemma BatchContents<E>(files: Files<E>, ledger: seq<E>, events: seq<E>, finals: seq<string>, k: nat)
    requires Holds(files, ledger) && |ledger| + 1 + |events| <= MAX_INT && 1 <= k <= |ledger| + |events|
    requires |finals| == |events| && finals == FinalNames(|ledger| + 1, |events|) && Distinct(finals)
    ensures
      var after := files + Named(finals, events);
      GenerateFilename(k) in after && after[GenerateFilename(k)] == Event((ledger + events)[k - 1])
  {
    hide GenerateFilename;
    hide ParseFilename;
    hide Named;
    var i := k - 1 - |ledger|;
    if i >= 0 {
      assert finals[i] == GenerateFilename(k);
    } else {
      forall j | 0 <= j < |finals| ensures finals[j] != GenerateFilename(k) {
        FilenameRoundTrip(k);
        FilenameRoundTrip(|ledger| + 1 + j);
      }
    }
  }

  /** A whole batch extends the ledger by its events. */
  lemma HoldsAfterBatch<E>(files: Files<E>, ledger: seq<E>, events: seq<E>, finals: seq<string>)
    requires Holds(files, ledger) && |ledger| + 1 + |events| <= MAX_INT
    requires |finals| == |events| && finals == FinalNames(|ledger| + 1, |events|) && Distinct(finals)
    ensures Holds(files + Named(finals, events), ledger + events)
  {
    hide GenerateFilename;
    hide ParseFilename;
    hide Named;
    BatchNumbers(files, ledger, files + Named(finals, events), finals);
    forall k | 1 <= k <= |ledger| + |events|
      ensures GenerateFilename(k) in files + Named(finals, events)
      ensures (files + Named(finals, events))[GenerateFilename(k)] == Event((ledger + events)[k - 1])
    {
      BatchContents(files, ledger, events, finals, k);
    }
  }

  // ---- Reading ---------------------------------------------------------------------------------------

  predicate IsEventFile(name: string) { ParseFilename(name).Ok? }

  function EventNames(names: set<string>): set<string> { set name | name in names && IsEventFile(name) }

  /** The names whose number is `n`; there can be several, as in 1.json and 000001.json. */
  function NamesOf(names: set<string>, n: nat): set<string> { set name | name in names && ParseFilename(name) == Ok(n) }

  predicate Leq(a: nat, b: nat) { a <= b }

  ghost predicate Ascending(seqs: seq<nat>) { forall i, j :: 0 <= i < j < |seqs| ==> seqs[i] <= seqs[j] }

  /** sort.Ints. */
  method SortNumbers(found: seq<nat>) returns (seqs: seq<nat>)
    ensures Ascending(seqs) && multiset(seqs) == multiset(found)
  {
    assert Sorting.TotalOrder(Leq);
    Sorting.SortIsSortedPermutation(Leq, found);
    seqs := Sorting.Sort(Leq, found);
    assert forall i, j :: 0 <= i < j < |seqs| ==> Leq(seqs[i], seqs[j]);
  }

  /** The numbers of the event files, each as often as it occurs. */
  ghost predicate Lists(seqs: seq<nat>, names: set<string>) {
    forall n: nat :: multiset(seqs)[n] == |NamesOf(names, n)|
  }

  lemma EventNamesHaveNumbers(names: set<string>)
    ensures forall name :: name in EventNames(names) ==> exists n: nat :: name in NamesOf(names, n)
  {
    forall name | name in EventNames(names) ensures exists n: nat :: name in NamesOf(names, n) {
      assert name in NamesOf(names, ParseFilename(name).number);
    }
  }

  lemma ListsLess(seqs: seq<nat>, names: set<string>, name: string)
    requires Lists(seqs, names) && seqs != [] && name in NamesOf(names, seqs[0])
    ensures Lists(seqs[1..], names - {name}) && EventNames(names) == EventNames(names - {name}) + {name}
  {
    hide ParseFilename;
    assert seqs == [seqs[0]] + seqs[1..];
    forall k: nat ensures multiset(seqs[1..])[k] == |NamesOf(names - {name}, k)| {
      assert NamesOf(names - {name}, k) == NamesOf(names, k) - {name};
      assert multiset(seqs)[k] == |NamesOf(names, k)|;
    }
  }

  lemma {:induction false} ListsSize(seqs: seq<nat>, names: set<string>)
    requires Lists(seqs, names)
    ensures |seqs| == |EventNames(names)|
    decreases |seqs|
  {
    hide ParseFilename;
    if seqs == [] {
      EventNamesHaveNumbers(names);
      forall n: nat ensures NamesOf(names, n) == {} { assert multiset(seqs)[n] == 0; }
    } else {
      assert seqs[0] in multiset(seqs) && NamesOf(names, seqs[0]) != {};
      var name :| name in NamesOf(names, seqs[0]);
      ListsLess(seqs, names, name);
      ListsSize(seqs[1..], names - {name});
      assert name !in EventNames(names - {name});
    }
  }

  lemma ListsAdd(seqs: seq<nat>, names: set<string>, name: string)
    requires Lists(seqs, names) && name !in names
    ensures ParseFilename(name).Ok? ==> Lists(seqs + [ParseFilename(name).number], names + {name})
    ensures ParseFilename(name).Err? ==> Lists(seqs, names + {name})
  {
    hide ParseFilename;
    forall k: nat
      ensures NamesOf(names + {name}, k) == NamesOf(names, k) + (if ParseFilename(name) == Ok(k) then {name} else {})
    {
    }
  }

  lemma ListsNumbers(seqs: seq<nat>, names: set<string>, n: nat)
    requires Lists(seqs, names)
    ensures n in seqs <==> n in Numbers(names)
  {
    hide ParseFilename;
    assert n in seqs <==> multiset(seqs)[n] > 0;
    if n in seqs {
      assert NamesOf(names, n) != {};
      var name :| name in NamesOf(names, n);
    } else {
      assert NamesOf(names, n) == {};
      assert forall name :: name in names && ParseFilename(name) == Ok(n) ==> name in NamesOf(names, n);
    }
  }

  predicate Consecutive(seqs: seq<nat>) { forall i :: 0 <= i < |seqs| ==> seqs[i] == i + 1 }

  ghost function Elements(seqs: seq<nat>): set<nat> { set n | n in seqs }

  lemma {:induction false} ElementsAtMost(seqs: seq<nat>)
    ensures |Elements(seqs)| <= |seqs|
  {
    if seqs != [] {
      ElementsAtMost(seqs[1..]);
      assert Elements(seqs) == Elements(seqs[1..]) + {seqs[0]};
    }
  }

  lemma {:induction false} SizeOfUpto(names: set<nat>, n: nat)
    requires P.Upto(names, n)
    ensures |names| == n
  {
    if n == 0 {
      assert names == {};
    } else {
      assert n in names;
      SizeOfUpto(names - {n}, n - 1);
    }
  }

  lemma ElementsOfRest(rest: seq<nat>, m: nat)
    requires |rest| == m - 1 && P.Upto(Elements(rest + [m]), m)
    ensures P.Upto(Elements(rest), m - 1)
  {
    var all := Elements(rest + [m]);
    assert all == Elements(rest) + {m};
    assert m in Elements(rest) ==> Elements(rest) == all;
    SizeOfUpto(all, m);
    ElementsAtMost(rest);
    forall k: nat ensures k in Elements(rest) <==> 1 <= k <= m - 1 { assert k in all <==> 1 <= k <= m; }
  }

  lemma LastIsGreatest(seqs: seq<nat>)
    requires seqs != [] && Ascending(seqs) && P.Upto(Elements(seqs), |seqs|)
    ensures seqs[|seqs| - 1] == |seqs|
  {
    assert |seqs| in Elements(seqs) && seqs[|seqs| - 1] in Elements(seqs);
  }

  /** A sorted list of m numbers whose elements are 1..m is that very sequence. */
  lemma {:induction false} ConsecutiveIfAllThere(seqs: seq<nat>)
    requires Ascending(seqs) && P.Upto(Elements(seqs), |seqs|)
    ensures Consecutive(seqs)
  {
    if seqs != [] {
      var rest := seqs[..|seqs| - 1];
      LastIsGreatest(seqs);
      assert seqs == rest + [|seqs|];
      ElementsOfRest(rest, |seqs|);
      ConsecutiveIfAllThere(rest);
    }
  }

  /** There are no gaps exactly when the numbers are 1..m, each on one file. */
  lemma NoGapsExactly(seqs: seq<nat>, names: set<string>)
    requires Ascending(seqs) && Lists(seqs, names)
    ensures Consecutive(seqs) <==> P.Upto(Numbers(names), |EventNames(names)|)
  {
    hide ParseFilename;
    ListsSize(seqs, names);
    forall n: nat ensures n in Elements(seqs) <==> n in Numbers(names) { ListsNumbers(seqs, names, n); }
    if Consecutive(seqs) {
      forall k: nat ensures k in Elements(seqs) <==> 1 <= k <= |seqs| {
        if 1 <= k <= |seqs| { assert seqs[k - 1] == k; }
      }
    } else if P.Upto(Numbers(names), |EventNames(names)|) {
      ConsecutiveIfAllThere(seqs);
      assert false;
    }
  }

  /** The next number is the position the next event will have exactly if there are no gaps. */
  lemma {:induction false} NumberIsPositionExactly(seqs: seq<nat>)
    requires seqs != [] && seqs[0] >= 1 && forall i, j :: 0 <= i < j < |seqs| ==> seqs[i] < seqs[j]
    ensures seqs[|seqs| - 1] >= |seqs|
    ensures seqs[|seqs| - 1] + 1 == |seqs| + 1 <==> Consecutive(seqs)
  {
    if |seqs| > 1 {
      var init := seqs[..|seqs| - 1];
      NumberIsPositionExactly(init);
      assert seqs[|seqs| - 2] < seqs[|seqs| - 1] && init[|init| - 1] == seqs[|seqs| - 2];
      assert Consecutive(init) && seqs[|seqs| - 1] == |seqs| ==> Consecutive(seqs);
      assert Consecutive(seqs) ==> Consecutive(init);
    }
  }

  /** A directory that holds a ledger lists as 1..n. */
  lemma HoldsListing<E>(files: Files<E>, ledger: seq<E>, seqs: seq<nat>)
    requires Holds(files, ledger) && |ledger| <= MAX_INT
    requires Ascending(seqs) && Lists(seqs, files.Keys)
    ensures Consecutive(seqs) && |seqs| == |ledger|
  {
    hide ParseFilename;
    hide GenerateFilename;
    HoldsLatest(files, ledger);
    forall n: nat ensures multiset(seqs)[n] == (if 1 <= n <= |ledger| then 1 else 0) {
      if 1 <= n <= |ledger| {
        FilenameRoundTrip(n);
        assert NamesOf(files.Keys, n) == {GenerateFilename(n)};
      } else {
        assert NamesOf(files.Keys, n) == {};
      }
    }
    CountedList(seqs, |ledger|);
    forall n: nat ensures n in Elements(seqs) <==> 1 <= n <= |ledger| { assert n in seqs <==> multiset(seqs)[n] > 0; }
    ConsecutiveIfAllThere(seqs);
  }

  lemma {:induction false} CountedList(seqs: seq<nat>, m: nat)
    requires forall n: nat :: multiset(seqs)[n] == (if 1 <= n <= m then 1 else 0)
    ensures |seqs| == m
  {
    var numbers := Elements(seqs);
    forall n: nat ensures n in numbers <==> 1 <= n <= m { assert n in seqs <==> multiset(seqs)[n] > 0; }
    assert multiset(seqs) == multiset(numbers);
    SizeOfUpto(numbers, m);
    assert |multiset(seqs)| == |seqs|;
  }
}
