/**
  internal/ledger/append.go with the lock held, filename.go's NextSequence, and the readers of
  read.go, on the files of one directory. What the file system may refuse (creating, writing,
  renaming, removing) is given by parameters.
 */
module LedgerDirectory {
  import opened Filename
  import opened LedgerFiles
  import opened LedgerLayout
  import P = LedgerProtocol

  datatype Fault = NoFault | BeforeTemp | AfterTemp(removed: bool)

  datatype CasResult = Appended(number: nat) | Mismatch(latest: nat) | Faulted

  /** Where a batch meets a refusal: at the temporary file of event i, which was or was not
      created by then, or at the rename of event i. */
  datatype BatchFault = NoBatchFault | AtTemp(i: nat, created: bool) | AtRename(i: nat)

  // ---- Directories that hold a ledger ---------------------------------------------------------------------

  /** What an append does to a directory that holds a ledger. */
  lemma HoldsThen<E>(files: Files<E>, ledger: seq<E>, event: E, temp: string, next: nat)
    requires temp !in files && HasSuffix(temp, ".tmp") && next >= 1 && IsLatest(files.Keys, next - 1)
    ensures Holds(files, ledger) && |ledger| < MAX_INT ==>
      && next == |ledger| + 1 && Holds(files[temp := Event(event)], ledger)
      && Holds(files[GenerateFilename(next) := Event(event)], ledger + [event])
  {
    if Holds(files, ledger) && |ledger| < MAX_INT {
      hide GenerateFilename;
      hide ParseFilename;
      HoldsLatest(files, ledger);
      LatestIsUnique(files.Keys, |ledger|, next - 1);
      HoldsWithTemp(files, ledger, temp, Event(event));
      HoldsAfterAppend(files, ledger, event);
    }
  }

  /** Files left over from a failed batch do not matter if they are not event files. */
  lemma HoldsWithLeftovers<E>(before: Files<E>, files: Files<E>, ledger: seq<E>, removable: string -> bool)
    requires OnlyLeftovers(before, files, removable)
    ensures Holds(before, ledger) && (forall name :: IsEventFile(name) ==> removable(name)) ==> Holds(files, ledger)
  {
    hide GenerateFilename;
    hide ParseFilename;
    if Holds(before, ledger) && forall name :: IsEventFile(name) ==> removable(name) {
      forall name | name in files && ParseFilename(name).Ok? ensures name in before { assert IsEventFile(name); }
    }
  }

  lemma HoldsBatch<E>(before: Files<E>, files: Files<E>, ledger: seq<E>, numbers: seq<nat>, events: seq<E>)
    requires BatchAppended(before, files, numbers, events) && numbers[0] + |events| <= MAX_INT
    ensures Holds(before, ledger) && |ledger| <= MAX_INT ==> numbers[0] == |ledger| + 1 && Holds(files, ledger + events)
  {
    hide GenerateFilename;
    hide ParseFilename;
    if Holds(before, ledger) && |ledger| <= MAX_INT {
      HoldsLatest(before, ledger);
      LatestIsUnique(before.Keys, |ledger|, numbers[0] - 1);
      HoldsAfterBatch(before, ledger, events, FinalNames(numbers[0], |events|));
    }
  }

  class Directory<E> {
    var files: Files<E>

    constructor (files: Files<E>)
      ensures this.files == files
    {
      this.files := files;
    }

    /** filename.go: one more than the greatest event number found. */
    method NextSequence(ghost ledger: seq<E>) returns (next: nat)
      ensures next >= 1 && IsLatest(files.Keys, next - 1) && P.IsNextSequence(Numbers(files.Keys), next)
      ensures Holds(files, ledger) && |ledger| <= MAX_INT ==> next == |ledger| + 1
    {
      var maxSeq := 0;
      var rest := files.Keys;
      while rest != {}
        invariant rest <= files.Keys && IsLatest(files.Keys - rest, maxSeq)
        decreases rest
      {
        var name :| name in rest;
        ghost var seen := files.Keys - rest;
        rest := rest - {name};
        assert files.Keys - rest == seen + {name};
        var parsed := ParseFilename(name);
        if parsed.Ok? && parsed.number > maxSeq {
          maxSeq := parsed.number;
        }
      }
      assert files.Keys - rest == files.Keys;
      if Holds(files, ledger) && |ledger| <= MAX_INT {
        HoldsLatest(files, ledger);
        LatestIsUnique(files.Keys, |ledger|, maxSeq);
      }
      LatestIsNextSequence(files.Keys, maxSeq);
      return maxSeq + 1;
    }

    /** AppendWithTimeout once the lock is held. A refusal changes nothing but a temporary file
        that could not be removed. */
    method Append(event: E, temp: string, fault: Fault, ghost ledger: seq<E>) returns (r: Option<nat>)
      requires temp !in files && HasSuffix(temp, ".tmp")
      modifies this
      ensures Holds(old(files), ledger) && |ledger| < MAX_INT ==>
        if fault.NoFault? then r == Some(|ledger| + 1) && Holds(files, ledger + [event]) else Holds(files, ledger)
      ensures fault.NoFault? ==>
        && r.Some? && r.value >= 1 && IsLatest(old(files).Keys, r.value - 1)
        && files == old(files)[GenerateFilename(r.value) := Event(event)]
      ensures !fault.NoFault? ==>
        && r.None?
        && files == if fault == AfterTemp(false) then old(files)[temp := Event(event)] else old(files)
    {
      hide GenerateFilename;
      hide ParseFilename;
      var next := NextSequence(ledger);
      ghost var before := files;
      HoldsThen(before, ledger, event, temp, next);
      hide Holds;
      if fault.BeforeTemp? { return None; }
      OtherFilesIgnored(temp);
      files := files[temp := Event(event)];
      if fault.AfterTemp? {
        if fault.removed { files := files - {temp}; }
        return None;
      }
      files := (files - {temp})[GenerateFilename(next) := Event(event)];
      return Some(next);
    }

    /** AppendIfSequenceWithTimeout once the lock is held. */
    method AppendIfSequence(event: E, expected: int, temp: string, fault: Fault, ghost ledger: seq<E>) returns (r: CasResult)
      requires temp !in files && HasSuffix(temp, ".tmp")
      modifies this
      ensures Holds(old(files), ledger) && |ledger| < MAX_INT ==>
        && (r.Mismatch? <==> expected != |ledger|) && (r.Mismatch? ==> r.latest == |ledger|)
        && Holds(files, if r.Appended? then ledger + [event] else ledger)
      ensures r.Mismatch? ==> IsLatest(old(files).Keys, r.latest) && r.latest != expected && files == old(files)
      ensures r.Appended? ==>
        && r.number == expected + 1 >= 1 && fault.NoFault? && IsLatest(old(files).Keys, r.number - 1)
        && files == old(files)[GenerateFilename(r.number) := Event(event)]
      ensures r.Faulted? ==>
        && !fault.NoFault? && expected >= 0 && IsLatest(old(files).Keys, expected)
        && files == if fault == AfterTemp(false) then old(files)[temp := Event(event)] else old(files)
    {
      hide GenerateFilename;
      hide ParseFilename;
      var next := NextSequence(ledger);
      HoldsThen(files, ledger, event, temp, next);
      hide Holds;
      if next - 1 != expected { return Mismatch(next - 1); }
      if fault.BeforeTemp? { return Faulted; }
      files := files[temp := Event(event)];
      if fault.AfterTemp? {
        if fault.removed { files := files - {temp}; }
        return Faulted;
      }
      files := (files - {temp})[GenerateFilename(next) := Event(event)];
      return Appended(next);
    }

    /** cleanupTempFiles: removals that fail are ignored. */
    method CleanupTempFiles(temps: seq<string>, start: nat, end: nat, removable: string -> bool)
      requires start <= end <= |temps|
      modifies this
      ensures files == old(files) - (SetOf(temps[start..end]) - Leftover(temps[start..end], removable))
    {
      var i := start;
      while i < end
        invariant start <= i <= end
        invariant files == old(files) - (SetOf(temps[start..i]) - Leftover(temps[start..i], removable))
      {
        assert temps[start..i + 1] == temps[start..i] + [temps[i]];
        if removable(temps[i]) { files := files - {temps[i]}; }
        i := i + 1;
      }
    }

    /** The rollback loop of AppendBatch. */
    method RollBack(finals: seq<string>, done: nat, removable: string -> bool)
      requires done <= |finals|
      modifies this
      ensures files == old(files) - (SetOf(finals[..done]) - Leftover(finals[..done], removable))
    {
      var j := 0;
      while j < done
        invariant 0 <= j <= done
        invariant files == old(files) - (SetOf(finals[..j]) - Leftover(finals[..j], removable))
      {
        assert finals[..j + 1] == finals[..j] + [finals[j]];
        if removable(finals[j]) { files := files - {finals[j]}; }
        j := j + 1;
      }
    }

    /** What AppendBatch does when a temporary file cannot be made. */
    method DropTemps(temps: seq<string>, made: nat, removable: string -> bool, ghost before: Files<E>, ghost added: Files<E>)
      requires made <= |temps| && SetOf(temps) <= added.Keys && before.Keys !! added.Keys
      requires files == Layout(before, added, SetOf(temps[..made]))
      modifies this
      ensures OnlyLeftovers(before, files, removable)
    {
      assert temps[0..made] == temps[..made] && SetOf(temps[..made]) <= SetOf(temps);
      LayoutCleanup(before, added, {}, temps[..made], removable);
      assert {} + SetOf(temps[..made]) == SetOf(temps[..made]);
      CleanupTempFiles(temps, 0, made, removable);
      LayoutLeftovers(before, added, {} + Leftover(temps[..made], removable), removable);
    }

    /** The first loop of AppendBatch: all temporary files, or as far as the fault. */
    method CreateTemps(temps: seq<string>, events: seq<E>, ghost added: Files<E>, fault: BatchFault, removable: string -> bool)
      returns (ok: bool)
      requires |temps| == |events| && SetOf(temps) <= added.Keys && files.Keys !! added.Keys
      requires forall k :: 0 <= k < |events| ==> temps[k] in added && added[temps[k]] == Event(events[k])
      modifies this
      ensures ok <==> !(fault.AtTemp? && fault.i < |events|)
      ensures ok ==> files == Layout(old(files), added, SetOf(temps))
      ensures !ok ==> OnlyLeftovers(old(files), files, removable)
    {
      hide Layout;
      hide SetOf;
      hide OnlyLeftovers;
      ghost var before := files;
      var i := 0;
      LayoutOfNone(before, added, temps);
      while i < |events|
        invariant 0 <= i <= |events|
        invariant files == Layout(before, added, SetOf(temps[..i]))
        invariant fault.AtTemp? ==> i <= fault.i
      {
        LayoutTemp(before, added, temps, i);
        if fault.AtTemp? && fault.i == i {
          var made := i;
          if fault.created {
            files := files[temps[i] := Event(events[i])];
            made := i + 1;
          }
          DropTemps(temps, made, removable, before, added);
          return false;
        }
        files := files[temps[i] := Event(events[i])];
        i := i + 1;
      }
      assert temps[..i] == temps;
      return true;
    }

    /** What AppendBatch does when rename `i` fails: remove what was renamed, then the temporary files left. */
    method Abandon(finals: seq<string>, temps: seq<string>, i: nat, removable: string -> bool,
                   ghost before: Files<E>, ghost added: Files<E>)
      requires |finals| == |temps| && i <= |finals| && SetOf(finals) !! SetOf(temps)
      requires added.Keys == SetOf(finals) + SetOf(temps) && before.Keys !! added.Keys
      requires files == Layout(before, added, Renamed(finals, temps, i))
      modifies this
      ensures files == Layout(before, added, Leftover(finals[..i], removable) + Leftover(temps[i..], removable))
    {
      assert temps[i..|temps|] == temps[i..];
      LayoutRollBack(before, added, finals, temps, i, removable);
      RollBack(finals, i, removable);
      CleanupTempFiles(temps, i, |temps|, removable);
    }

    /** The second loop of AppendBatch: all renames, or roll back at the fault. */
    method RenameAll(finals: seq<string>, temps: seq<string>, events: seq<E>, fault: BatchFault, removable: string -> bool,
                     ghost before: Files<E>, ghost added: Files<E>)
      returns (ok: bool)
      requires Staged(before, finals, temps, events, added) && files == Layout(before, added, SetOf(temps))
      modifies this
      ensures ok <==> !(fault.AtRename? && fault.i < |events|)
      ensures ok ==> files == Layout(before, added, SetOf(finals))
      ensures !ok ==>
        files == Layout(before, added, Leftover(finals[..fault.i], removable) + Leftover(temps[fault.i..], removable))
    {
      hide Layout;
      hide SetOf;
      hide Renamed;
      hide Distinct;
      var i := 0;
      RenamedEnds(finals, temps);
      while i < |events|
        invariant 0 <= i <= |events|
        invariant files == Layout(before, added, Renamed(finals, temps, i))
        invariant fault.AtRename? ==> i <= fault.i
      {
        if fault.AtRename? && fault.i == i {
          Abandon(finals, temps, i, removable, before, added);
          return false;
        }
        LayoutRename(before, added, finals, temps, i);
        files := (files - {temps[i]})[finals[i] := Event(events[i])];
        i := i + 1;
      }
      return true;
    }

    /** AppendBatch once the lock is held. On success the events are there under consecutive
        numbers. A batch that fails leaves the directory as it was, up to the files whose
        removal fails as well. */
    method AppendBatch(events: seq<E>, temps: seq<string>, fault: BatchFault, removable: string -> bool, ghost ledger: seq<E>)
        returns (r: Option<seq<nat>>)
      requires |temps| == |events| && TempNames(files, temps)
      requires forall n: nat :: IsLatest(files.Keys, n) ==> n + 1 + |events| <= MAX_INT
      modifies this
      ensures events == [] ==> r == Some([]) && files == old(files)
      ensures events != [] ==> (r.Some? <==> fault.NoBatchFault? || fault.i >= |events|)
      ensures events != [] && r.Some? ==> BatchAppended(old(files), files, r.value, events)
      ensures r.None? ==> OnlyLeftovers(old(files), files, removable)
      ensures Holds(old(files), ledger) && |ledger| <= MAX_INT && r.Some? ==>
        Holds(files, ledger + events) && forall i :: 0 <= i < |events| ==> i < |r.value| && r.value[i] == |ledger| + 1 + i
      ensures Holds(old(files), ledger) && r.None? && (forall name :: IsEventFile(name) ==> removable(name)) ==> Holds(files, ledger)
    {
      hide GenerateFilename;
      hide ParseFilename;
      hide Holds;
      if |events| == 0 {
        assert ledger + events == ledger;
        return Some([]);
      }
      var start := NextSequence(ledger);
      var finals := FinalNames(start, |events|);
      ghost var before := files;
      BatchNamesApart(files, start - 1, finals, temps);
      ghost var added := StageFiles(files, finals, temps, events);
      var ok := CreateTemps(temps, events, added, fault, removable);
      if !ok {
        HoldsWithLeftovers(before, files, ledger, removable);
        return None;
      }
      ok := RenameAll(finals, temps, events, fault, removable, before, added);
      if !ok {
        LayoutLeftovers(before, added, Leftover(finals[..fault.i], removable) + Leftover(temps[fault.i..], removable), removable);
        HoldsWithLeftovers(before, files, ledger, removable);
        return None;
      }
      r := Some(seq(|events|, i requires 0 <= i < |events| => start + i));
      assert r.value[0] == start;
      HoldsBatch(before, files, ledger, r.value, events);
    }

    // ---- read.go -----------------------------------------------------------------------------------------

    method ListEventSequences() returns (seqs: seq<nat>)
      ensures Ascending(seqs) && Lists(seqs, files.Keys)
    {
      hide ParseFilename;
      var found: seq<nat> := [];
      var rest := files.Keys;
      assert files.Keys - rest == {};
      while rest != {}
        invariant rest <= files.Keys && Lists(found, files.Keys - rest)
        decreases rest
      {
        var name :| name in rest;
        ListsAdd(found, files.Keys - rest, name);
        assert files.Keys - (rest - {name}) == (files.Keys - rest) + {name};
        rest := rest - {name};
        if ParseFilename(name).Ok? { found := found + [ParseFilename(name).number]; }
      }
      assert files.Keys - rest == files.Keys;
      seqs := SortNumbers(found);
    }

    method Count(ghost ledger: seq<E>) returns (n: nat)
      ensures n == |EventNames(files.Keys)|
      ensures Holds(files, ledger) && |ledger| <= MAX_INT ==> n == |ledger|
    {
      hide ParseFilename;
      hide GenerateFilename;
      var seqs := ListEventSequences();
      if Holds(files, ledger) && |ledger| <= MAX_INT { HoldsListing(files, ledger, seqs); }
      ListsSize(seqs, files.Keys);
      return |seqs|;
    }

    method HasGaps(ghost ledger: seq<E>) returns (gaps: bool)
      ensures !gaps <==> P.Upto(Numbers(files.Keys), |EventNames(files.Keys)|)
      ensures Holds(files, ledger) && |ledger| <= MAX_INT ==> !gaps
    {
      hide ParseFilename;
      hide GenerateFilename;
      var seqs := ListEventSequences();
      if Holds(files, ledger) && |ledger| <= MAX_INT { HoldsListing(files, ledger, seqs); }
      NoGapsExactly(seqs, files.Keys);
      for i := 0 to |seqs|
        invariant forall k :: 0 <= k < i ==> seqs[k] == k + 1
      {
        if seqs[i] != i + 1 { return true; }
      }
      return false;
    }

    /** ReadAll opens the files under their generated names; a number without such a file, or a
        file that is not an event, fails the whole read. Of a ledger it returns all events in order. */
    method ReadAll(ghost ledger: seq<E>) returns (r: Option<seq<E>>)
      ensures Holds(files, ledger) && |ledger| <= MAX_INT ==> r == Some(ledger)
    {
      hide ParseFilename;
      hide GenerateFilename;
      var seqs := ListEventSequences();
      ghost var held := Holds(files, ledger) && |ledger| <= MAX_INT;
      if held { HoldsListing(files, ledger, seqs); }
      var events: seq<E> := [];
      for i := 0 to |seqs|
        invariant held ==> events == ledger[..i]
      {
        var name := GenerateFilename(seqs[i]);
        if seqs[i] <= 0 || name !in files || files[name].Bytes? { return None; }
        events := events + [files[name].event];
      }
      assert held ==> ledger[..|seqs|] == ledger;
      return Some(events);
    }
  }
}
