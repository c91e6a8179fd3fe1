/**
  internal/cli/argparse.go: separating flags from positional arguments, and the reordering that puts
  positional arguments first.
 */
module ArgParse {

  // ---- One argument ------------------------------------------------------------------------------

  predicate IsDigit(c: char) { '0' <= c <= '9' }

  /** Starts with a dash, and is neither a lone dash nor a negative number. */
  predicate IsFlag(arg: string) {
    |arg| >= 2 && arg[0] == '-' && !(IsDigit(arg[1]) || (arg[1] == '.' && |arg| > 2 && IsDigit(arg[2])))
  }

  datatype Flag = NotFlag | Flag(name: string, value: string)

  /** The flag named by an argument, cut at the first equals sign. */
  function ExtractFlagName(arg: string): Flag {
    if !IsFlag(arg) then NotFlag
    else
      var stripped := if arg[1] == '-' then arg[2..] else arg[1..];
      if stripped == "" then NotFlag else CutAtEquals("", stripped)
  }

  function CutAtEquals(name: string, rest: string): Flag
    decreases |rest|
  {
    if rest == "" then Flag(name, "")
    else if rest[0] == '=' then Flag(name, rest[1..])
    else CutAtEquals(name + [rest[0]], rest[1..])
  }

  /** The flags of a command; those in `bools` never take the next argument as their value. */
  datatype Config = Config(names: seq<string>, bools: seq<string>)

  predicate Known(cfg: Config, arg: string) {
    ExtractFlagName(arg).Flag? && ExtractFlagName(arg).name in cfg.names
  }

  const DASHES: string := "--"

  // ---- What a command line says ---------------------------------------------------------------------

  /** A positional argument, a flag that stands alone, or a flag with the argument that follows as its value. */
  datatype Item = Pos(arg: string) | Bare(flag: string) | Pair(flag: string, value: string)

  /** The known flag in front takes the argument after it. */
  predicate TakesNext(cfg: Config, args: seq<string>)
    requires args != []
  {
    && '=' !in args[0] && ExtractFlagName(args[0]).Flag? && ExtractFlagName(args[0]).name !in cfg.bools
    && |args| > 1 && !Known(cfg, args[1]) && args[1] != DASHES
  }

  /** The items before the first double dash. */
  function Scan(cfg: Config, args: seq<string>): seq<Item> {
    if args == [] || args[0] == DASHES then []
    else if !Known(cfg, args[0]) then [Pos(args[0])] + Scan(cfg, args[1..])
    else if TakesNext(cfg, args) then [Pair(args[0], args[1])] + Scan(cfg, args[2..])
    else [Bare(args[0])] + Scan(cfg, args[1..])
  }

  function WithoutDashes(args: seq<string>): seq<string> {
    if args == [] then [] else (if args[0] == DASHES then [] else [args[0]]) + WithoutDashes(args[1..])
  }

  /** The arguments after the first double dash, further ones dropped. */
  function After(args: seq<string>): seq<string> {
    if args == [] then [] else if args[0] == DASHES then WithoutDashes(args[1..]) else After(args[1..])
  }

  function Positionals(items: seq<Item>): seq<string> {
    if items == [] then [] else (if items[0].Pos? then [items[0].arg] else []) + Positionals(items[1..])
  }

  function FlagParts(items: seq<Item>): seq<string> {
    if items == [] then []
    else
      (match items[0] case Pos(_) => [] case Bare(f) => [f] case Pair(f, v) => [f, v]) + FlagParts(items[1..])
  }

  /** The value of a flag that stands alone. */
  function BareValue(cfg: Config, arg: string): string {
    match ExtractFlagName(arg)
    case NotFlag => ""
    case Flag(name, value) => if '=' in arg then value else if name in cfg.bools then "true" else ""
  }

  function Name(arg: string): string { match ExtractFlagName(arg) case NotFlag => "" case Flag(name, _) => name }

  /** The flag map, a later item replacing an earlier one of the same name. */
  function Flags(cfg: Config, items: seq<Item>, flags: map<string, string>): map<string, string> {
    if items == [] then flags
    else match items[0]
      case Pos(_) => Flags(cfg, items[1..], flags)
      case Bare(f) => Flags(cfg, items[1..], flags[Name(f) := BareValue(cfg, f)])
      case Pair(f, v) => Flags(cfg, items[1..], flags[Name(f) := v])
  }

  datatype Parsed = Parsed(positional: seq<string>, flags: map<string, string>)

  function Parse(cfg: Config, args: seq<string>): Parsed {
    Parsed(Positionals(Scan(cfg, args)) + After(args), Flags(cfg, Scan(cfg, args), map[]))
  }

  function Normalize(cfg: Config, args: seq<string>): seq<string> {
    Positionals(Scan(cfg, args)) + After(args) + FlagParts(Scan(cfg, args)) + (if DASHES in args then [DASHES] else [])
  }

  lemma DashesUnknown(cfg: Config)
    ensures !Known(cfg, DASHES)
  {
  }

  // ---- The two loops ----------------------------------------------------------------------------------

  /** The known flag at position i takes the argument after it. */
  predicate TakesAt(cfg: Config, args: seq<string>, i: nat)
    requires i < |args|
  {
    && !('=' in args[i] || Name(args[i]) in cfg.bools)
    && i + 1 < |args| && !Known(cfg, args[i + 1]) && args[i + 1] != DASHES
  }

  lemma ScanAt(cfg: Config, args: seq<string>, i: nat)
    requires i < |args|
    ensures
      if args[i] == DASHES then Scan(cfg, args[i..]) == []
      else if !Known(cfg, args[i]) then Scan(cfg, args[i..]) == [Pos(args[i])] + Scan(cfg, args[i + 1..])
      else if TakesAt(cfg, args, i) then Scan(cfg, args[i..]) == [Pair(args[i], args[i + 1])] + Scan(cfg, args[i + 2..])
      else Scan(cfg, args[i..]) == [Bare(args[i])] + Scan(cfg, args[i + 1..])
  {
    hide Scan;
    hide ExtractFlagName;
    var rest := args[i..];
    assert rest[1..] == args[i + 1..];
    assert i + 1 < |args| ==> rest[2..] == args[i + 2..];
    ScanFirst(cfg, rest);
  }

  lemma ScanFirst(cfg: Config, args: seq<string>)
    requires args != []
    ensures Scan(cfg, args) ==
      if args[0] == DASHES then []
      else if !Known(cfg, args[0]) then [Pos(args[0])] + Scan(cfg, args[1..])
      else if TakesNext(cfg, args) then [Pair(args[0], args[1])] + Scan(cfg, args[2..])
      else [Bare(args[0])] + Scan(cfg, args[1..])
  {
    hide Known;
    hide TakesNext;
  }

  predicate DashFrom(args: seq<string>, i: nat) requires i <= |args| { DASHES in args[i..] }

  lemma AfterAt(args: seq<string>, i: nat)
    requires i < |args|
    ensures After(args[i..]) == if args[i] == DASHES then WithoutDashes(args[i + 1..]) else After(args[i + 1..])
    ensures WithoutDashes(args[i..]) == (if args[i] == DASHES then [] else [args[i]]) + WithoutDashes(args[i + 1..])
    ensures DashFrom(args, i) <==> args[i] == DASHES || DashFrom(args, i + 1)
  {
    assert args[i..][1..] == args[i + 1..];
    assert args[i..] == [args[i]] + args[i + 1..];
  }

  /** What a loop over the arguments has gathered, and what is after the double dash. */
  datatype Gathered = Gathered(positional: seq<string>, flagParts: seq<string>, flags: map<string, string>, post: seq<string>)

  /** The final result, given what was gathered before argument i. */
  ghost function Outlook(cfg: Config, args: seq<string>, i: nat, positional: seq<string>, flagParts: seq<string>,
                         flags: map<string, string>): Gathered
    requires i <= |args|
  {
    var items := Scan(cfg, args[i..]);
    Gathered(positional + Positionals(items), flagParts + FlagParts(items), Flags(cfg, items, flags), After(args[i..]))
  }

  lemma OutlookStart(cfg: Config, args: seq<string>)
    ensures
      var goal := Outlook(cfg, args, 0, [], [], map[]);
      && Parse(cfg, args) == Parsed(goal.positional + goal.post, goal.flags)
      && Normalize(cfg, args) ==
         goal.positional + goal.post + goal.flagParts + (if DashFrom(args, 0) then [DASHES] else [])
  {
    assert args[0..] == args;
  }

  lemma OutlookEnd(cfg: Config, args: seq<string>, p: seq<string>, q: seq<string>, flags: map<string, string>)
    ensures Outlook(cfg, args, |args|, p, q, flags) == Gathered(p, q, flags, []) && WithoutDashes(args[|args|..]) == []
    ensures !DashFrom(args, |args|)
  {
  }

  lemma OutlookDash(cfg: Config, args: seq<string>, i: nat, p: seq<string>, q: seq<string>, flags: map<string, string>)
    requires i < |args| && args[i] == DASHES
    ensures Outlook(cfg, args, i, p, q, flags) == Gathered(p, q, flags, WithoutDashes(args[i + 1..]))
  {
    AfterAt(args, i);
    ScanAt(cfg, args, i);
  }

  lemma OutlookPos(cfg: Config, args: seq<string>, i: nat, p: seq<string>, q: seq<string>, flags: map<string, string>)
    requires i < |args| && args[i] != DASHES && !Known(cfg, args[i])
    ensures Outlook(cfg, args, i, p, q, flags) == Outlook(cfg, args, i + 1, p + [args[i]], q, flags)
  {
    AfterAt(args, i);
    ScanAt(cfg, args, i);
    FirstItem(cfg, Pos(args[i]), Scan(cfg, args[i + 1..]), flags);
  }

  lemma OutlookPair(cfg: Config, args: seq<string>, i: nat, p: seq<string>, q: seq<string>, flags: map<string, string>)
    requires i < |args| && args[i] != DASHES && Known(cfg, args[i]) && TakesAt(cfg, args, i)
    ensures i + 1 < |args|
    ensures Outlook(cfg, args, i, p, q, flags)
      == Outlook(cfg, args, i + 2, p, q + [args[i], args[i + 1]], flags[Name(args[i]) := args[i + 1]])
  {
    hide Scan;
    hide Known;
    hide Positionals;
    hide FlagParts;
    hide Flags;
    hide After;
    AfterAt(args, i);
    AfterAt(args, i + 1);
    ScanAt(cfg, args, i);
    FirstItem(cfg, Pair(args[i], args[i + 1]), Scan(cfg, args[i + 2..]), flags);
  }

  lemma OutlookBare(cfg: Config, args: seq<string>, i: nat, p: seq<string>, q: seq<string>, flags: map<string, string>)
    requires i < |args| && args[i] != DASHES && Known(cfg, args[i]) && !TakesAt(cfg, args, i)
    ensures Outlook(cfg, args, i, p, q, flags)
      == Outlook(cfg, args, i + 1, p, q + [args[i]], flags[Name(args[i]) := BareValue(cfg, args[i])])
  {
    hide Scan;
    hide Known;
    AfterAt(args, i);
    ScanAt(cfg, args, i);
    FirstItem(cfg, Bare(args[i]), Scan(cfg, args[i + 1..]), flags);
  }

  lemma FirstItem(cfg: Config, item: Item, rest: seq<Item>, flags: map<string, string>)
    ensures Positionals([item] + rest) == (if item.Pos? then [item.arg] else []) + Positionals(rest)
    ensures FlagParts([item] + rest)
      == (match item case Pos(_) => [] case Bare(f) => [f] case Pair(f, v) => [f, v]) + FlagParts(rest)
    ensures Flags(cfg, [item] + rest, flags) == Flags(cfg, rest,
      match item case Pos(_) => flags case Bare(f) => flags[Name(f) := BareValue(cfg, f)] case Pair(f, v) => flags[Name(f) := v])
  {
    assert ([item] + rest)[1..] == rest;
  }

  method ParseArgsWithBoolFlags(cfg: Config, args: seq<string>)
      returns (positional: seq<string>, flags: map<string, string>)
    ensures Parsed(positional, flags) == Parse(cfg, args)
  {
    hide *;
    positional, flags := [], map[];
    var flagsTerminated, i := false, 0;
    ghost var parts: seq<string>, goal := [], Outlook(cfg, args, 0, [], [], map[]);
    OutlookStart(cfg, args);
    while i < |args|
      invariant 0 <= i <= |args|
      invariant !flagsTerminated ==> goal == Outlook(cfg, args, i, positional, parts, flags)
      invariant flagsTerminated ==> goal.positional + goal.post == positional + WithoutDashes(args[i..]) && goal.flags == flags
    {
      var arg := args[i];
      if arg == DASHES {
        AfterAt(args, i);
        if !flagsTerminated { OutlookDash(cfg, args, i, positional, parts, flags); }
        flagsTerminated := true;
      } else if flagsTerminated {
        AfterAt(args, i);
        positional := positional + [arg];
      } else if !Known(cfg, arg) {
        OutlookPos(cfg, args, i, positional, parts, flags);
        positional := positional + [arg];
      } else if TakesAt(cfg, args, i) {
        OutlookPair(cfg, args, i, positional, parts, flags);
        flags, parts := flags[Name(arg) := args[i + 1]], parts + [arg, args[i + 1]];
        i := i + 1;
      } else {
        OutlookBare(cfg, args, i, positional, parts, flags);
        flags, parts := flags[Name(arg) := BareValue(cfg, arg)], parts + [arg];
      }
      i := i + 1;
    }
    OutlookEnd(cfg, args, positional, parts, flags);
  }

  // ---- Which value a flag gets ----------------------------------------------------------------------------

  lemma {:induction false} CutExactly(front: string, name: string, rest: string)
    requires '=' !in name
    ensures CutAtEquals(front, name + ['='] + rest) == Flag(front + name, rest)
    ensures CutAtEquals(front, name) == Flag(front + name, "")
    decreases |name|
  {
    var text := name + ['='] + rest;
    if name == "" {
      assert text[1..] == rest && front + name == front;
    } else {
      assert text[1..] == name[1..] + ['='] + rest;
      CutExactly(front + [name[0]], name[1..], rest);
      assert front + [name[0]] + name[1..] == front + name;
    }
  }

  /** An argument with two dashes names the flag up to the first equals sign, and its value is what follows that. */
  lemma ExtractExactly(name: string, value: string)
    requires '=' !in name
    ensures ExtractFlagName("--" + name + "=" + value) == Flag(name, value)
    ensures ExtractFlagName("--" + name) == if name == "" then NotFlag else Flag(name, "")
  {
    var arg, text := "--" + name + "=" + value, name + ['='] + value;
    assert arg[2..] == text && ("--" + name)[2..] == name;
    CutExactly("", name, value);
    assert "" + name == name;
  }

  /** With one dash too, unless what follows begins like a number: then it is no flag at all. */
  lemma ShortExactly(name: string, value: string)
    requires name != "" && name[0] != '-' && '=' !in name
    ensures
      var number := '0' <= name[0] <= '9' || (name[0] == '.' && |name| > 1 && '0' <= name[1] <= '9');
      && ExtractFlagName("-" + name) == (if number then NotFlag else Flag(name, ""))
      && ExtractFlagName("-" + name + "=" + value) == (if number then NotFlag else Flag(name, value))
  {
    var long, text := "-" + name + "=" + value, name + ['='] + value;
    assert ("-" + name)[1..] == name && long[1..] == text && long[1] == name[0];
    assert |name| > 1 ==> long[2] == name[1];
    CutExactly("", name, value);
    assert "" + name == name;
  }

  /** Anything that does not begin with a dash, a dash alone and the double dash are no flags. */
  lemma OthersAreNoFlags(arg: string)
    requires arg == "" || arg[0] != '-' || arg == "-" || arg == "--"
    ensures ExtractFlagName(arg).NotFlag?
  {
  }

  /** A known flag gets the same value from the argument that follows it as from behind an equals sign, whatever comes after,
      unless it takes no value or what follows is a known flag or a double dash. */
  lemma ValueFollows(cfg: Config, name: string, value: string, rest: seq<string>)
    requires name != "" && '=' !in name && name in cfg.names && name !in cfg.bools && !Known(cfg, value) && value != DASHES
    ensures Parse(cfg, ["--" + name, value] + rest) == Parse(cfg, ["--" + name + "=" + value] + rest)
    ensures rest == [] ==> Parse(cfg, ["--" + name, value] + rest) == Parsed([], map[name := value])
  {
    ExtractExactly(name, value);
    hide ExtractFlagName;
    var a, b := "--" + name, "--" + name + "=" + value;
    var two, one := [a, value] + rest, [b] + rest;
    assert two[1..] == [value] + rest && two[2..] == rest && one[1..] == rest && ([value] + rest)[1..] == rest;
    assert b[2 + |name|] == '=';
    assert a[2..] == name && b[2..] != "";
    assert After(two) == After([value] + rest) == After(rest) == After(one);
    var items := Scan(cfg, rest);
    assert Scan(cfg, two) == [Pair(a, value)] + items && Scan(cfg, one) == [Bare(b)] + items;
    hide Scan;
    hide After;
    FirstItem(cfg, Pair(a, value), items, map[]);
    FirstItem(cfg, Bare(b), items, map[]);
  }

  /** A known flag in front gets what is behind the equals sign; without one it is "true" if it takes no value, and empty if it
      does but nothing follows that could be its value. What comes after is read as it would be alone, later flags of the same name
      replacing it. */
  lemma ValueAlone(cfg: Config, name: string, value: string, rest: seq<string>)
    requires name != "" && '=' !in name && name in cfg.names
    ensures
      var p := Parse(cfg, rest);
      && Parse(cfg, ["--" + name + "=" + value] + rest) == Parsed(p.positional, map[name := value] + p.flags)
      && (name in cfg.bools ==> Parse(cfg, ["--" + name] + rest) == Parsed(p.positional, map[name := "true"] + p.flags))
      && (name !in cfg.bools && (rest == [] || rest[0] == DASHES || Known(cfg, rest[0])) ==>
            Parse(cfg, ["--" + name] + rest) == Parsed(p.positional, map[name := ""] + p.flags))
  {
    ExtractExactly(name, value);
    hide ExtractFlagName;
    var a, b := "--" + name, "--" + name + "=" + value;
    var bare, inline := [a] + rest, [b] + rest;
    assert bare[1..] == rest && inline[1..] == rest;
    assert b[2 + |name|] == '=';
    var items := Scan(cfg, rest);
    assert Scan(cfg, inline) == [Bare(b)] + items;
    FirstItem(cfg, Bare(a), items, map[]);
    FirstItem(cfg, Bare(b), items, map[]);
    FlagsOver(cfg, items, map[name := value]);
    FlagsOver(cfg, items, map[name := "true"]);
    FlagsOver(cfg, items, map[name := ""]);
  }

  lemma {:induction false} FlagsOver(cfg: Config, items: seq<Item>, flags: map<string, string>)
    ensures Flags(cfg, items, flags) == flags + Flags(cfg, items, map[])
    decreases |items|, 0
  {
    if items != [] {
      match items[0]
      case Pos(_) => FlagsOver(cfg, items[1..], flags);
      case Bare(f) => FlagOver(cfg, items[1..], flags, Name(f), BareValue(cfg, f));
      case Pair(f, v) => FlagOver(cfg, items[1..], flags, Name(f), v);
    }
  }

  lemma {:induction false} FlagOver(cfg: Config, rest: seq<Item>, flags: map<string, string>, name: string, value: string)
    ensures Flags(cfg, rest, flags[name := value]) == flags + Flags(cfg, rest, map[name := value])
    decreases |rest|, 1
  {
    FlagsOver(cfg, rest, flags[name := value]);
    FlagsOver(cfg, rest, map[name := value]);
    assert flags[name := value] == flags + map[name := value];
  }

  lemma NormalizeEmpty(cfg: Config)
    ensures Normalize(cfg, []) == []
  {
  }

  method NormalizeArgsWithBoolFlags(cfg: Config, args: seq<string>) returns (result: seq<string>)
    ensures result == Normalize(cfg, args)
  {
    hide *;
    if args == [] {
      NormalizeEmpty(cfg);
      return [];
    }
    var positional, flagParts, postDoublePositional: seq<string> := [], [], [];
    var flagsTerminated, hadDoubleDash, i := false, false, 0;
    ghost var flags: map<string, string>, goal := map[], Outlook(cfg, args, 0, [], [], map[]);
    OutlookStart(cfg, args);
    while i < |args|
      invariant 0 <= i <= |args|
      invariant flagsTerminated == hadDoubleDash && (DashFrom(args, 0) <==> hadDoubleDash || DashFrom(args, i))
      invariant !flagsTerminated ==>
        goal == Outlook(cfg, args, i, positional, flagParts, flags) && postDoublePositional == []
      invariant flagsTerminated ==>
        goal == Gathered(positional, flagParts, flags, postDoublePositional + WithoutDashes(args[i..]))
    {
      var arg := args[i];
      AfterAt(args, i);
      if arg == DASHES {
        if !flagsTerminated { OutlookDash(cfg, args, i, positional, flagParts, flags); }
        flagsTerminated, hadDoubleDash := true, true;
      } else if flagsTerminated {
        postDoublePositional := postDoublePositional + [arg];
      } else if !Known(cfg, arg) {
        OutlookPos(cfg, args, i, positional, flagParts, flags);
        positional := positional + [arg];
      } else if TakesAt(cfg, args, i) {
        OutlookPair(cfg, args, i, positional, flagParts, flags);
        TakenIsNoDash(cfg, args, i);
        AfterAt(args, i + 1);
        flagParts, flags := flagParts + [arg, args[i + 1]], flags[Name(arg) := args[i + 1]];
        i := i + 1;
      } else {
        OutlookBare(cfg, args, i, positional, flagParts, flags);
        flagParts, flags := flagParts + [arg], flags[Name(arg) := BareValue(cfg, arg)];
      }
      i := i + 1;
    }
    OutlookEnd(cfg, args, positional, flagParts, flags);
    result := positional;
    result := result + postDoublePositional;
    result := result + flagParts;
    if hadDoubleDash { result := result + [DASHES]; }
  }

  lemma TakenIsNoDash(cfg: Config, args: seq<string>, i: nat)
    requires i < |args| && TakesAt(cfg, args, i)
    ensures i + 1 < |args| && args[i + 1] != DASHES
  {
  }
}
