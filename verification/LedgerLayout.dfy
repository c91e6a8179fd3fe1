/**
  The directory during a batch append: the files from before, final names and temporary names.
 */
module LedgerLayout {
  import opened Filename
  import opened LedgerFiles

  /** The files from before, and those of `added` whose names are in `present`. */
  ghost function Layout<E>(before: Files<E>, added: Files<E>, present: set<string>): Files<E> {
    before + (map name | name in present && name in added :: added[name])
  }

  lemma LayoutAdd<E>(before: Files<E>, added: Files<E>, present: set<string>, name: string)
    requires present <= added.Keys && name in added && before.Keys !! added.Keys
    ensures Layout(before, added, present)[name := added[name]] == Layout(before, added, present + {name})
  {
  }

  lemma LayoutRemove<E>(before: Files<E>, added: Files<E>, present: set<string>, name: string)
    requires present <= added.Keys && name in added && before.Keys !! added.Keys
    ensures Layout(before, added, present) - {name} == Layout(before, added, present - {name})
  {
  }

  lemma LayoutRemoveAll<E>(before: Files<E>, added: Files<E>, present: set<string>, names: set<string>)
    requires present <= added.Keys && names <= added.Keys && before.Keys !! added.Keys
    ensures Layout(before, added, present) - names == Layout(before, added, present - names)
  {
  }

  /** The names whose files could not be removed. */
  function Leftover(names: seq<string>, removable: string -> bool): set<string> {
    set name | name in names && !removable(name)
  }

  /** Every file a batch may create: final and temporary. */
  ghost function BatchFiles<E>(finals: seq<string>, temps: seq<string>, events: seq<E>): (m: Files<E>)
    requires |finals| == |temps| == |events| && Distinct(finals) && Distinct(temps) && SetOf(finals) !! SetOf(temps)
    ensures m.Keys == SetOf(finals) + SetOf(temps)
    ensures forall k :: 0 <= k < |events| ==> finals[k] in m && m[finals[k]] == Event(events[k])
    ensures forall k :: 0 <= k < |events| ==> temps[k] in m && m[temps[k]] == Event(events[k])
  {
    Named(finals, events) + Named(temps, events)
  }

  /** Temporary names are unlike any old or final name. */
  ghost predicate TempNames<E>(files: Files<E>, temps: seq<string>) {
    && Distinct(temps)
    && forall i :: 0 <= i < |temps| ==> temps[i] !in files && HasSuffix(temps[i], ".tmp")
  }

  lemma FinalsUnlikeOthers<E>(before: Files<E>, latest: nat, temps: seq<string>, finals: seq<string>)
    requires TempNames(before, temps) && IsLatest(before.Keys, latest) && latest + 1 + |finals| <= MAX_INT
    requires finals == FinalNames(latest + 1, |finals|)
    ensures forall i :: 0 <= i < |finals| ==> finals[i] !in before && finals[i] !in temps
  {
    forall i | 0 <= i < |finals| ensures finals[i] !in before && finals[i] !in temps {
      NextNameIsFree(before.Keys, latest, latest + 1 + i);
      FilenameRoundTrip(latest + 1 + i);
      forall j | 0 <= j < |temps| ensures finals[i] != temps[j] { OtherFilesIgnored(temps[j]); }
    }
  }

  lemma NamesApart<E>(before: Files<E>, finals: seq<string>, temps: seq<string>)
    requires forall i :: 0 <= i < |finals| ==> finals[i] !in before && finals[i] !in temps
    requires forall i :: 0 <= i < |temps| ==> temps[i] !in before
    ensures before.Keys !! (SetOf(finals) + SetOf(temps)) && SetOf(finals) !! SetOf(temps)
  {
  }

  /** The files a batch is about to create, apart from the old ones and from each other. */
  ghost predicate Staged<E>(before: Files<E>, finals: seq<string>, temps: seq<string>, events: seq<E>, added: Files<E>) {
    && |finals| == |temps| == |events| && Distinct(finals) && Distinct(temps) && SetOf(finals) !! SetOf(temps)
    && added.Keys == SetOf(finals) + SetOf(temps) && before.Keys !! added.Keys
    && (forall k :: 0 <= k < |events| ==> finals[k] in added && added[finals[k]] == Event(events[k]))
    && (forall k :: 0 <= k < |events| ==> temps[k] in added && added[temps[k]] == Event(events[k]))
  }

  lemma StageFiles<E>(before: Files<E>, finals: seq<string>, temps: seq<string>, events: seq<E>) returns (added: Files<E>)
    requires |finals| == |temps| == |events| && Distinct(finals) && Distinct(temps)
    requires SetOf(finals) !! SetOf(temps) && before.Keys !! (SetOf(finals) + SetOf(temps))
    ensures Staged(before, finals, temps, events, added)
    ensures Layout(before, added, SetOf(finals)) == before + Named(finals, events)
  {
    added := BatchFiles(finals, temps, events);
    LayoutDone(before, finals, temps, events);
  }

  lemma BatchNamesApart<E>(before: Files<E>, latest: nat, finals: seq<string>, temps: seq<string>)
    requires TempNames(before, temps) && IsLatest(before.Keys, latest) && latest + 1 + |finals| <= MAX_INT
    requires finals == FinalNames(latest + 1, |finals|)
    ensures Distinct(finals) && SetOf(finals) !! SetOf(temps) && before.Keys !! (SetOf(finals) + SetOf(temps))
  {
    hide GenerateFilename;
    hide ParseFilename;
    FinalNamesDistinct(latest + 1, |finals|);
    FinalsUnlikeOthers(before, latest, temps, finals);
    NamesApart(before, finals, temps);
  }

  /** `numbers` are the next ones in order, and under their names the directory has the events besides
      what it had before. */
  ghost predicate BatchAppended<E>(before: Files<E>, after: Files<E>, numbers: seq<nat>, events: seq<E>) {
    && |numbers| == |events| > 0 && numbers[0] >= 1 && IsLatest(before.Keys, numbers[0] - 1)
    && (forall k :: 0 <= k < |events| ==> numbers[k] == numbers[0] + k)
    && Distinct(FinalNames(numbers[0], |events|))
    && after == before + Named(FinalNames(numbers[0], |events|), events)
  }

  /** What is left of the files `names` after removing those that can be removed. */
  lemma LayoutCleanup<E>(before: Files<E>, added: Files<E>, others: set<string>, names: seq<string>, removable: string -> bool)
    requires others <= added.Keys && SetOf(names) <= added.Keys && before.Keys !! added.Keys && others !! SetOf(names)
    ensures Layout(before, added, others + SetOf(names)) - (SetOf(names) - Leftover(names, removable))
         == Layout(before, added, others + Leftover(names, removable))
  {
    LayoutRemoveAll(before, added, others + SetOf(names), SetOf(names) - Leftover(names, removable));
    assert others + SetOf(names) - (SetOf(names) - Leftover(names, removable)) == others + Leftover(names, removable);
  }

  lemma LayoutDone<E>(before: Files<E>, finals: seq<string>, temps: seq<string>, events: seq<E>)
    requires |finals| == |temps| == |events| && Distinct(finals) && Distinct(temps) && SetOf(finals) !! SetOf(temps)
    ensures Layout(before, BatchFiles(finals, temps, events), SetOf(finals)) == before + Named(finals, events)
  {
    var m := map name | name in SetOf(finals) && name in BatchFiles(finals, temps, events) :: BatchFiles(finals, temps, events)[name];
    assert m == Named(finals, events);
  }

  /** The directory differs from before only by files that could not be removed. */
  ghost predicate OnlyLeftovers<E>(before: Files<E>, files: Files<E>, removable: string -> bool) {
    && (forall name :: name in before ==> name in files && files[name] == before[name])
    && (forall name :: name in files && name !in before ==> !removable(name))
  }

  lemma LayoutLeftovers<E>(before: Files<E>, added: Files<E>, present: set<string>, removable: string -> bool)
    requires before.Keys !! added.Keys && forall name :: name in present ==> !removable(name)
    ensures OnlyLeftovers(before, Layout(before, added, present), removable)
  {
  }

  /** The names present once `i` of the renames are done. */
  function Renamed(finals: seq<string>, temps: seq<string>, i: nat): set<string>
    requires i <= |finals| && i <= |temps|
  {
    SetOf(finals[..i]) + SetOf(temps[i..])
  }

  lemma RenamedStep(finals: seq<string>, temps: seq<string>, i: nat)
    requires |finals| == |temps| && i < |finals| && Distinct(finals) && Distinct(temps) && SetOf(finals) !! SetOf(temps)
    ensures Renamed(finals, temps, i) - {temps[i]} + {finals[i]} == Renamed(finals, temps, i + 1)
  {
    SplitFirst(finals, i);
    SplitFirst(temps, i);
    assert temps[i] in SetOf(temps) && SetOf(finals[..i]) <= SetOf(finals);
  }

  lemma RenamedEnds(finals: seq<string>, temps: seq<string>)
    requires |finals| == |temps|
    ensures Renamed(finals, temps, 0) == SetOf(temps) && Renamed(finals, temps, |finals|) == SetOf(finals)
  {
    assert temps[0..] == temps && finals[..|finals|] == finals;
  }

  lemma LayoutRename<E>(before: Files<E>, added: Files<E>, finals: seq<string>, temps: seq<string>, i: nat)
    requires |finals| == |temps| && i < |finals| && Distinct(finals) && Distinct(temps) && SetOf(finals) !! SetOf(temps)
    requires added.Keys == SetOf(finals) + SetOf(temps) && before.Keys !! added.Keys
    requires finals[i] in added && temps[i] in added
    ensures (Layout(before, added, Renamed(finals, temps, i)) - {temps[i]})[finals[i] := added[finals[i]]]
         == Layout(before, added, Renamed(finals, temps, i + 1))
  {
    hide Distinct;
    hide Layout;
    RenamedStep(finals, temps, i);
    RenamedWithin(finals, temps, i);
    LayoutRemove(before, added, Renamed(finals, temps, i), temps[i]);
    LayoutAdd(before, added, Renamed(finals, temps, i) - {temps[i]}, finals[i]);
  }

  lemma RenamedWithin(finals: seq<string>, temps: seq<string>, i: nat)
    requires |finals| == |temps| && i <= |finals|
    ensures Renamed(finals, temps, i) <= SetOf(finals) + SetOf(temps)
  {
  }

  lemma LayoutOfNone<E>(before: Files<E>, added: Files<E>, temps: seq<string>)
    ensures Layout(before, added, SetOf(temps[..0])) == before
  {
    assert SetOf(temps[..0]) == {};
  }

  lemma LayoutTemp<E>(before: Files<E>, added: Files<E>, temps: seq<string>, i: nat)
    requires i < |temps| && SetOf(temps) <= added.Keys && before.Keys !! added.Keys && temps[i] in added
    ensures Layout(before, added, SetOf(temps[..i]))[temps[i] := added[temps[i]]] == Layout(before, added, SetOf(temps[..i + 1]))
  {
    SplitFirst(temps, i);
    assert SetOf(temps[..i]) <= SetOf(temps);
    LayoutAdd(before, added, SetOf(temps[..i]), temps[i]);
  }

  lemma LayoutRollBack<E>(before: Files<E>, added: Files<E>, finals: seq<string>, temps: seq<string>, i: nat, removable: string -> bool)
    requires |finals| == |temps| && i <= |finals| && SetOf(finals) !! SetOf(temps)
    requires added.Keys == SetOf(finals) + SetOf(temps) && before.Keys !! added.Keys
    ensures Layout(before, added, Renamed(finals, temps, i))
            - (SetOf(finals[..i]) - Leftover(finals[..i], removable))
            - (SetOf(temps[i..]) - Leftover(temps[i..], removable))
         == Layout(before, added, Leftover(finals[..i], removable) + Leftover(temps[i..], removable))
  {
    var f, t := SetOf(finals[..i]), SetOf(temps[i..]);
    assert f <= SetOf(finals) && t <= SetOf(temps) && Leftover(finals[..i], removable) <= f;
    assert t + f == Renamed(finals, temps, i);
    LayoutCleanup(before, added, t, finals[..i], removable);
    assert t + Leftover(finals[..i], removable) == Leftover(finals[..i], removable) + t;
    LayoutCleanup(before, added, Leftover(finals[..i], removable), temps[i..], removable);
  }
}
