/**
  What internal/cli/argparse.go promises of its normaliser: parsing the reordered arguments gives what
  parsing the original ones gave, and reordering only permutes.
 */
module ArgNormal {
  import opened ArgParse

  // ---- The items of a scan ---------------------------------------------------------------------------

  /** What a scan can yield. */
  predicate Proper(cfg: Config, item: Item) {
    match item
    case Pos(a) => !Known(cfg, a) && a != DASHES
    case Bare(f) => Known(cfg, f)
    case Pair(f, v) => Known(cfg, f) && '=' !in f && Name(f) !in cfg.bools && !Known(cfg, v) && v != DASHES
  }

  predicate AllProper(cfg: Config, items: seq<Item>) { forall i :: 0 <= i < |items| ==> Proper(cfg, items[i]) }

  lemma {:induction false} ScanIsProper(cfg: Config, args: seq<string>)
    ensures AllProper(cfg, Scan(cfg, args))
    decreases |args|
  {
    if args != [] && args[0] != DASHES {
      hide Known;
      ScanIsProper(cfg, args[1..]);
      if |args| > 1 { ScanIsProper(cfg, args[2..]); }
    }
  }

  function Words(item: Item): seq<string> {
    match item case Pos(a) => [a] case Bare(f) => [f] case Pair(f, v) => [f, v]
  }

  /** The arguments that a list of items came from. */
  function Flatten(items: seq<Item>): seq<string> { if items == [] then [] else Words(items[0]) + Flatten(items[1..]) }

  /** No argument is lost: the items, then what is after the double dash. */
  lemma {:induction false} ScanFlattens(cfg: Config, args: seq<string>)
    ensures Flatten(Scan(cfg, args)) + After(args) == WithoutDashes(args)
    decreases |args|
  {
    hide Known;
    if args != [] && args[0] != DASHES {
      ScanFirst(cfg, args);
      var n := if Known(cfg, args[0]) && TakesNext(cfg, args) then 2 else 1;
      ScanFlattens(cfg, args[n..]);
      var first := Scan(cfg, args)[0];
      assert Scan(cfg, args) == [first] + Scan(cfg, args[n..]) && Words(first) == args[..n];
      assert Scan(cfg, args)[1..] == Scan(cfg, args[n..]);
      if n == 2 { assert args[1..][1..] == args[2..]; }
    }
  }

  lemma {:induction false} PositionalsAppend(a: seq<Item>, b: seq<Item>)
    ensures Positionals(a + b) == Positionals(a) + Positionals(b)
    ensures FlagParts(a + b) == FlagParts(a) + FlagParts(b)
  {
    if a == [] {
      assert a + b == b;
    } else {
      assert (a + b)[1..] == a[1..] + b;
      PositionalsAppend(a[1..], b);
    }
  }

  lemma {:induction false} FlagsAppend(cfg: Config, a: seq<Item>, b: seq<Item>, flags: map<string, string>)
    ensures Flags(cfg, a + b, flags) == Flags(cfg, b, Flags(cfg, a, flags))
    decreases |a|
  {
    if a == [] {
      assert a + b == b;
    } else {
      assert (a + b)[1..] == a[1..] + b && (a + b)[0] == a[0];
      match a[0]
      case Pos(_) => FlagsAppend(cfg, a[1..], b, flags);
      case Bare(f) => FlagsAppend(cfg, a[1..], b, flags[Name(f) := BareValue(cfg, f)]);
      case Pair(f, v) => FlagsAppend(cfg, a[1..], b, flags[Name(f) := v]);
    }
  }

  /** The flags among the items. */
  function OnlyFlags(items: seq<Item>): seq<Item> {
    if items == [] then [] else (if items[0].Pos? then [] else [items[0]]) + OnlyFlags(items[1..])
  }

  function AsPositionals(args: seq<string>): seq<Item> { seq(|args|, i requires 0 <= i < |args| => Pos(args[i])) }

  lemma {:induction false} OnlyFlagsSame(cfg: Config, items: seq<Item>, flags: map<string, string>)
    ensures Positionals(OnlyFlags(items)) == [] && FlagParts(OnlyFlags(items)) == FlagParts(items)
    ensures Flags(cfg, OnlyFlags(items), flags) == Flags(cfg, items, flags)
    decreases |items|
  {
    if items != [] {
      if items[0].Pos? { assert OnlyFlags(items) == OnlyFlags(items[1..]); }
      else { assert OnlyFlags(items)[1..] == OnlyFlags(items[1..]); }
      match items[0]
      case Pos(_) => OnlyFlagsSame(cfg, items[1..], flags);
      case Bare(f) => OnlyFlagsSame(cfg, items[1..], flags[Name(f) := BareValue(cfg, f)]);
      case Pair(f, v) => OnlyFlagsSame(cfg, items[1..], flags[Name(f) := v]);
    }
  }

  lemma {:induction false} AsPositionalsSame(cfg: Config, args: seq<string>, flags: map<string, string>)
    ensures Positionals(AsPositionals(args)) == args && FlagParts(AsPositionals(args)) == []
    ensures Flags(cfg, AsPositionals(args), flags) == flags
  {
    if args != [] {
      assert AsPositionals(args)[1..] == AsPositionals(args[1..]);
      AsPositionalsSame(cfg, args[1..], flags);
    }
  }

  // ---- Scanning pieces put together --------------------------------------------------------------------

  /** An argument that no flag before it would take. */
  predicate Boundary(cfg: Config, args: seq<string>) { args == [] || args[0] == DASHES || Known(cfg, args[0]) }

  predicate Plain(cfg: Config, args: seq<string>) {
    forall i :: 0 <= i < |args| ==> !Known(cfg, args[i]) && args[i] != DASHES
  }

  lemma {:induction false} ScanPlain(cfg: Config, a: seq<string>, b: seq<string>)
    requires Plain(cfg, a)
    ensures Scan(cfg, a + b) == AsPositionals(a) + Scan(cfg, b)
  {
    if a == [] {
      assert a + b == b;
    } else {
      hide Known;
      assert (a + b)[1..] == a[1..] + b;
      ScanPlain(cfg, a[1..], b);
      assert AsPositionals(a) == [Pos(a[0])] + AsPositionals(a[1..]);
    }
  }

  lemma TakesNextAppend(cfg: Config, a: seq<string>, b: seq<string>)
    requires a != [] && Boundary(cfg, b)
    ensures TakesNext(cfg, a + b) == TakesNext(cfg, a)
  {
    hide Known;
    hide ExtractFlagName;
    assert |a| > 1 ==> (a + b)[1] == a[1];
    assert |a| == 1 && b != [] ==> (a + b)[1] == b[0];
  }

  lemma {:induction false} ScanAppend(cfg: Config, a: seq<string>, b: seq<string>)
    requires DASHES !in a && Boundary(cfg, b)
    ensures Scan(cfg, a + b) == Scan(cfg, a) + Scan(cfg, b)
    decreases |a|
  {
    hide *;
    if a == [] {
      ScanNothing(cfg);
      assert a + b == b;
    } else {
      var ab := a + b;
      ScanFirst(cfg, a);
      ScanFirst(cfg, ab);
      TakesNextAppend(cfg, a, b);
      TakesTwo(cfg, a);
      if Known(cfg, a[0]) && TakesNext(cfg, a) {
        assert ab[2..] == a[2..] + b;
        ScanAppend(cfg, a[2..], b);
      } else {
        assert ab[1..] == a[1..] + b;
        ScanAppend(cfg, a[1..], b);
      }
    }
  }

  lemma ScanNothing(cfg: Config)
    ensures Scan(cfg, []) == [] && Scan(cfg, [DASHES]) == []
  {
  }

  lemma TakesTwo(cfg: Config, args: seq<string>)
    requires args != []
    ensures TakesNext(cfg, args) ==> |args| > 1
  {
  }

  lemma FlagPartsBoundary(cfg: Config, items: seq<Item>, b: seq<string>)
    requires AllProper(cfg, items) && Boundary(cfg, b)
    ensures Boundary(cfg, FlagParts(items) + b)
  {
    hide Known;
    if items == [] {
      assert FlagParts(items) + b == b;
    } else if items[0].Pos? {
      FlagPartsBoundary(cfg, items[1..], b);
    } else {
      assert Proper(cfg, items[0]);
    }
  }

  lemma PartsFirst(cfg: Config, items: seq<Item>)
    requires AllProper(cfg, items)
    ensures items == [] ==> FlagParts(items) == [] && OnlyFlags(items) == []
    ensures items != [] ==> Proper(cfg, items[0]) && AllProper(cfg, items[1..])
    ensures items != [] ==> FlagParts(items) == (if items[0].Pos? then [] else Words(items[0])) + FlagParts(items[1..])
    ensures items != [] ==> OnlyFlags(items) == (if items[0].Pos? then [] else [items[0]]) + OnlyFlags(items[1..])
  {
  }

  /** Flags written out one after the other are read back as they were. */
  lemma {:induction false} ScanFlagParts(cfg: Config, items: seq<Item>, b: seq<string>)
    requires AllProper(cfg, items) && Boundary(cfg, b)
    ensures Scan(cfg, FlagParts(items) + b) == OnlyFlags(items) + Scan(cfg, b)
  {
    hide *;
    PartsFirst(cfg, items);
    if items == [] {
      assert FlagParts(items) + b == b;
    } else {
      var rest := FlagParts(items[1..]) + b;
      ScanFlagParts(cfg, items[1..], b);
      FlagPartsBoundary(cfg, items[1..], b);
      FlagItemFirst(cfg, items[0], rest);
      if items[0].Pos? { assert FlagParts(items) + b == rest; } else { assert FlagParts(items) + b == Words(items[0]) + rest; }
    }
  }

  lemma FlagItemFirst(cfg: Config, item: Item, rest: seq<string>)
    requires Proper(cfg, item) && Boundary(cfg, rest)
    ensures !item.Pos? ==> Scan(cfg, Words(item) + rest) == [item] + Scan(cfg, rest)
  {
    if !item.Pos? {
      var all := Words(item) + rest;
      KnownIsFlag(cfg, all[0]);
      hide Known;
      ScanFirst(cfg, all);
      if item.Bare? { assert all[1..] == rest; } else { assert all[2..] == rest; }
    }
  }

  lemma KnownIsFlag(cfg: Config, arg: string)
    ensures Known(cfg, arg) ==> arg != DASHES && ExtractFlagName(arg).Flag? && Name(arg) == ExtractFlagName(arg).name
  {
    DashesUnknown(cfg);
  }

  // ---- The normal form --------------------------------------------------------------------------------

  /** The pieces of the normal form. */
  lemma NormalPieces(cfg: Config, args: seq<string>)
    ensures
      var items, q := Scan(cfg, args), After(args);
      var p, f, d := Positionals(items), FlagParts(items), if DASHES in args then [DASHES] else [];
      && AllProper(cfg, items) && Plain(cfg, p) && DASHES !in q && DASHES !in f
      && Normalize(cfg, args) == p + (q + (f + d)) && Boundary(cfg, f + d)
  {
    hide *;
    var items, q := Scan(cfg, args), After(args);
    var d := if DASHES in args then [DASHES] else [];
    ScanIsProper(cfg, args);
    PositionalsPlain(cfg, items);
    AfterNoDash(args);
    DashBoundary(cfg, d);
    FlagPartsBoundary(cfg, items, d);
    NormalForm(cfg, args);
  }

  lemma NormalForm(cfg: Config, args: seq<string>)
    ensures Normalize(cfg, args) == Positionals(Scan(cfg, args))
      + (After(args) + (FlagParts(Scan(cfg, args)) + (if DASHES in args then [DASHES] else [])))
  {
    hide Scan;
    hide After;
    hide Positionals;
    hide FlagParts;
  }

  lemma {:induction false} PositionalsPlain(cfg: Config, items: seq<Item>)
    requires AllProper(cfg, items)
    ensures Plain(cfg, Positionals(items)) && DASHES !in FlagParts(items)
  {
    if items != [] {
      hide Known;
      PositionalsPlain(cfg, items[1..]);
      assert Proper(cfg, items[0]);
      if !items[0].Pos? { KnownIsFlag(cfg, items[0].flag); }
    }
  }

  lemma {:induction false} AfterNoDash(args: seq<string>)
    ensures DASHES !in After(args) && DASHES !in WithoutDashes(args)
    ensures DASHES !in args ==> After(args) == [] && WithoutDashes(args) == args
  {
    if args != [] { AfterNoDash(args[1..]); }
  }

  lemma {:induction false} DashAtEnd(args: seq<string>)
    requires DASHES !in args
    ensures After(args + [DASHES]) == [] && WithoutDashes(args + [DASHES]) == args
  {
    if args == [] {
      assert args + [DASHES] == [DASHES];
    } else {
      assert (args + [DASHES])[1..] == args[1..] + [DASHES];
      DashAtEnd(args[1..]);
    }
  }

  /** The normal form scanned: the positional arguments, what the arguments after the double dash are taken for now that
      they stand before it, and the flags. Nothing is left after the double dash. */
  lemma ScanNormal(cfg: Config, args: seq<string>)
    ensures Scan(cfg, Normalize(cfg, args)) ==
      AsPositionals(Positionals(Scan(cfg, args))) + (Scan(cfg, After(args)) + OnlyFlags(Scan(cfg, args)))
    ensures After(Normalize(cfg, args)) == []
    ensures DASHES in Normalize(cfg, args) <==> DASHES in args
  {
    hide *;
    var items, q := Scan(cfg, args), After(args);
    var p, f, d := Positionals(items), FlagParts(items), if DASHES in args then [DASHES] else [];
    NormalPieces(cfg, args);
    ScanPlain(cfg, p, q + (f + d));
    ScanAppend(cfg, q, f + d);
    DashBoundary(cfg, d);
    ScanFlagParts(cfg, items, d);
    ScanNothing(cfg);
    assert OnlyFlags(items) + [] == OnlyFlags(items);
    PlainNoDash(cfg, p);
    var body := p + (q + f);
    assert Normalize(cfg, args) == body + d;
    DashAtEnd(body);
    AfterNoDash(body);
    assert body + [] == body;
  }

  lemma PlainNoDash(cfg: Config, p: seq<string>)
    requires Plain(cfg, p)
    ensures DASHES !in p
  {
  }

  lemma DashBoundary(cfg: Config, d: seq<string>)
    requires d == [] || d == [DASHES]
    ensures Boundary(cfg, d)
  {
  }

  /** What parsing the normal form gives. */
  lemma ParseNormal(cfg: Config, args: seq<string>)
    ensures Parse(cfg, Normalize(cfg, args)) == Parsed(
      Positionals(Scan(cfg, args)) + Positionals(Scan(cfg, After(args))),
      Flags(cfg, Scan(cfg, args), Flags(cfg, Scan(cfg, After(args)), map[])))
  {
    hide Scan;
    hide Flags;
    hide Positionals;
    hide After;
    hide Normalize;
    hide OnlyFlags;
    hide AsPositionals;
    var items, post := Scan(cfg, args), Scan(cfg, After(args));
    var p := AsPositionals(Positionals(items));
    ScanNormal(cfg, args);
    PositionalsAppend(p, post + OnlyFlags(items));
    PositionalsAppend(post, OnlyFlags(items));
    FlagsAppend(cfg, p, post + OnlyFlags(items), map[]);
    FlagsAppend(cfg, post, OnlyFlags(items), Flags(cfg, p, map[]));
    AsPositionalsSame(cfg, Positionals(items), map[]);
    OnlyFlagsSame(cfg, items, Flags(cfg, post, map[]));
  }

  lemma {:induction false} KnownShortens(cfg: Config, q: seq<string>)
    requires DASHES !in q
    ensures |Positionals(Scan(cfg, q))| <= |q|
    ensures !Plain(cfg, q) ==> |Positionals(Scan(cfg, q))| < |q|
    decreases |q|
  {
    if q != [] {
      hide Known;
      ScanFirst(cfg, q);
      TakesTwo(cfg, q);
      var n := if Known(cfg, q[0]) && TakesNext(cfg, q) then 2 else 1;
      KnownShortens(cfg, q[n..]);
      assert Scan(cfg, q)[1..] == Scan(cfg, q[n..]);
      if n == 1 && !Known(cfg, q[0]) && !Plain(cfg, q) {
        assert forall i :: 0 <= i < |q| - 1 ==> q[1..][i] == q[i + 1];
        var i :| 0 <= i < |q| && !(!Known(cfg, q[i]) && q[i] != DASHES);
        assert q[1..][i - 1] == q[i];
      }
    }
  }

  /** Parsing the normalised arguments gives what parsing the original ones gives exactly when no argument after the first
      double dash is a known flag. */
  lemma NormalizePreservesParse(cfg: Config, args: seq<string>)
    ensures Parse(cfg, Normalize(cfg, args)) == Parse(cfg, args)
       <==> forall a :: a in After(args) ==> !Known(cfg, a)
  {
    hide Scan;
    hide Flags;
    hide Positionals;
    hide After;
    hide Normalize;
    hide Known;
    var q := After(args);
    ParseNormal(cfg, args);
    AfterNoDash(args);
    KnownShortens(cfg, q);
    if Plain(cfg, q) {
      PlainScans(cfg, q);
      AsPositionalsSame(cfg, q, map[]);
    } else {
      var i :| 0 <= i < |q| && !(!Known(cfg, q[i]) && q[i] != DASHES);
      assert q[i] in q && Known(cfg, q[i]);
      assert |Parse(cfg, Normalize(cfg, args)).positional| < |Parse(cfg, args).positional|;
    }
  }

  lemma PlainScans(cfg: Config, q: seq<string>)
    requires Plain(cfg, q)
    ensures Scan(cfg, q) == AsPositionals(q)
  {
    ScanPlain(cfg, q, []);
    assert q + [] == q;
    ScanNothing(cfg);
  }

  // ---- Normalising again ------------------------------------------------------------------------------

  /** No positional argument comes after a flag. */
  predicate PositionalsFirst(items: seq<Item>) {
    items == [] || (if items[0].Pos? then PositionalsFirst(items[1..]) else Positionals(items) == [])
  }

  lemma {:induction false} ArrangedExactly(cfg: Config, items: seq<Item>)
    requires AllProper(cfg, items)
    ensures Positionals(items) + FlagParts(items) == Flatten(items) <==> PositionalsFirst(items)
  {
    hide Known;
    if items != [] {
      var rest := items[1..];
      assert Proper(cfg, items[0]);
      ArrangedExactly(cfg, rest);
      if items[0].Pos? {
        var a := items[0].arg;
        assert Positionals(items) + FlagParts(items) == [a] + (Positionals(rest) + FlagParts(rest));
        assert ([a] + (Positionals(rest) + FlagParts(rest)))[1..] == Positionals(rest) + FlagParts(rest);
        assert ([a] + Flatten(rest))[1..] == Flatten(rest);
      } else if Positionals(items) == [] {
        NoPositionals(items);
      } else {
        PositionalsPlain(cfg, items);
        assert (Positionals(items) + FlagParts(items))[0] == Positionals(items)[0];
      }
    }
  }

  lemma {:induction false} NoPositionals(items: seq<Item>)
    requires Positionals(items) == []
    ensures [] + FlagParts(items) == Flatten(items)
  {
    if items != [] { NoPositionals(items[1..]); }
  }

  lemma NormalizeAgain(cfg: Config, args: seq<string>)
    ensures
      var items, post := Scan(cfg, args), Scan(cfg, After(args));
      Normalize(cfg, Normalize(cfg, args)) == Positionals(items) + ((Positionals(post) + FlagParts(post))
        + (FlagParts(items) + (if DASHES in args then [DASHES] else [])))
  {
    hide *;
    var items, post := Scan(cfg, args), Scan(cfg, After(args));
    var p := AsPositionals(Positionals(items));
    var d := if DASHES in args then [DASHES] else [];
    var n := Normalize(cfg, args);
    ScanNormal(cfg, args);
    NormalPieces(cfg, n);
    PositionalsAppend(p, post + OnlyFlags(items));
    PositionalsAppend(post, OnlyFlags(items));
    AsPositionalsSame(cfg, Positionals(items), map[]);
    OnlyFlagsSame(cfg, items, map[]);
    assert Positionals(Scan(cfg, n)) == Positionals(items) + Positionals(post);
    assert FlagParts(Scan(cfg, n)) == FlagParts(post) + FlagParts(items);
    assert Normalize(cfg, n) == Positionals(items) + Positionals(post) + (FlagParts(post) + FlagParts(items) + d);
  }

  /** Normalising twice changes nothing more exactly when among the arguments after the double dash no positional
      follows a flag. */
  lemma NormalizeIdempotentExactly(cfg: Config, args: seq<string>)
    ensures Normalize(cfg, Normalize(cfg, args)) == Normalize(cfg, args) <==> PositionalsFirst(Scan(cfg, After(args)))
  {
    hide *;
    var q, items := After(args), Scan(cfg, args);
    var post := Scan(cfg, q);
    NormalizeAgain(cfg, args);
    NormalPieces(cfg, args);
    ScanIsProper(cfg, q);
    ArrangedExactly(cfg, post);
    NoDashFlattens(cfg, q);
    SameMiddle(Positionals(items), Positionals(post) + FlagParts(post), q,
               FlagParts(items) + (if DASHES in args then [DASHES] else []));
  }

  lemma NoDashFlattens(cfg: Config, q: seq<string>)
    requires DASHES !in q
    ensures Flatten(Scan(cfg, q)) == q
  {
    hide *;
    ScanFlattens(cfg, q);
    AfterNoDash(q);
  }

  lemma SameMiddle(p: seq<string>, a: seq<string>, b: seq<string>, t: seq<string>)
    ensures p + (a + t) == p + (b + t) <==> a == b
  {
    if p + (a + t) == p + (b + t) {
      assert |a| == |b|;
      assert a == (p + (a + t))[|p|..][..|a|] && b == (p + (b + t))[|p|..][..|b|];
    }
  }

  /** Without a known flag after the double dash one pass is enough. */
  lemma NormalizeIdempotent(cfg: Config, args: seq<string>)
    requires forall a :: a in After(args) ==> !Known(cfg, a)
    ensures Normalize(cfg, Normalize(cfg, args)) == Normalize(cfg, args)
  {
    hide Known;
    var q := After(args);
    AfterNoDash(args);
    PlainScans(cfg, q);
    AllPositional(q);
    NormalizeIdempotentExactly(cfg, args);
  }

  lemma {:induction false} AllPositional(q: seq<string>)
    ensures PositionalsFirst(AsPositionals(q))
  {
    if q != [] {
      assert AsPositionals(q)[1..] == AsPositionals(q[1..]);
      AllPositional(q[1..]);
    }
  }

  /** Two passes are always enough. */
  lemma NormalizeThrice(cfg: Config, args: seq<string>)
    ensures
      var twice := Normalize(cfg, Normalize(cfg, args));
      Normalize(cfg, twice) == twice
  {
    hide *;
    ScanNormal(cfg, args);
    EmptyAfter(cfg, Normalize(cfg, args));
    NormalizeIdempotentExactly(cfg, Normalize(cfg, args));
  }

  lemma EmptyAfter(cfg: Config, args: seq<string>)
    requires After(args) == []
    ensures PositionalsFirst(Scan(cfg, After(args)))
  {
  }

  // ---- Nothing is lost or invented -----------------------------------------------------------------------

  lemma {:induction false} PartsPermute(items: seq<Item>)
    ensures multiset(Positionals(items)) + multiset(FlagParts(items)) == multiset(Flatten(items))
  {
    if items != [] {
      PartsPermute(items[1..]);
      assert items == [items[0]] + items[1..];
    }
  }

  /** The normal form without its double dash. */
  lemma NormalBody(cfg: Config, args: seq<string>)
    ensures
      var body := Positionals(Scan(cfg, args)) + (After(args) + FlagParts(Scan(cfg, args)));
      && Normalize(cfg, args) == body + (if DASHES in args then [DASHES] else [])
      && WithoutDashes(Normalize(cfg, args)) == body
  {
    hide *;
    var items, q := Scan(cfg, args), After(args);
    var p, f := Positionals(items), FlagParts(items);
    NormalPieces(cfg, args);
    PlainNoDash(cfg, p);
    var body := p + (q + f);
    assert Normalize(cfg, args) == body + (if DASHES in args then [DASHES] else []);
    DashAtEnd(body);
    AfterNoDash(body);
    assert body + [] == body;
  }

  lemma MultisetOfThree(p: seq<string>, q: seq<string>, f: seq<string>)
    ensures multiset(p + (q + f)) == multiset(p) + multiset(f) + multiset(q)
  {
  }

  /** The normal form permutes the arguments other than double dashes, and ends with one double dash if there was any. */
  lemma NormalizePermutes(cfg: Config, args: seq<string>)
    ensures
      var n := Normalize(cfg, args);
      && multiset(WithoutDashes(n)) == multiset(WithoutDashes(args))
      && n == WithoutDashes(n) + (if DASHES in args then [DASHES] else [])
  {
    hide *;
    var items, q := Scan(cfg, args), After(args);
    NormalBody(cfg, args);
    MultisetOfThree(Positionals(items), q, FlagParts(items));
    PartsPermute(items);
    ScanFlattens(cfg, args);
    assert multiset(Flatten(items) + q) == multiset(Flatten(items)) + multiset(q);
  }

  /** A value after the double dash that looks like a flag becomes one, and takes the next value with it. */
  lemma FlagAfterDoubleDash()
    ensures
      var cfg, args := Config(["v"], []), ["--", "--v", "1", "x"];
      && After(args) == ["--v", "1", "x"] && Scan(cfg, After(args)) == [Pair("--v", "1"), Pos("x")]
      && Parse(cfg, Normalize(cfg, args)) != Parse(cfg, args)
      && Normalize(cfg, Normalize(cfg, args)) != Normalize(cfg, args)
  {
    var cfg, args, q := Config(["v"], []), ["--", "--v", "1", "x"], ["--v", "1", "x"];
    assert args[0] == DASHES && args[1..] == q && q[1..] == ["1", "x"] && ["1", "x"][1..] == ["x"] && ["x"][1..] == [];
    assert WithoutDashes(["1", "x"]) == ["1", "x"];
    assert After(args) == q;
    var stripped := "--v"[2..];
    assert stripped == "v" && stripped[1..] == "" && "" + [stripped[0]] == "v";
    assert ExtractFlagName("--v") == Flag("v", "");
    assert Known(cfg, "--v") && !Known(cfg, "1") && !Known(cfg, "x");
    assert q[2..] == ["x"];
    assert Scan(cfg, ["x"]) == [Pos("x")];
    assert Scan(cfg, q) == [Pair("--v", "1")] + [Pos("x")];
    assert Scan(cfg, q) == [Pair("--v", "1"), Pos("x")];
    hide Known;
    assert "--v" in After(args);
    NormalizePreservesParse(cfg, args);
    NormalizeIdempotentExactly(cfg, args);
    assert Scan(cfg, q)[1..] == [Pos("x")];
    assert Positionals([Pos("x")]) == ["x"];
  }

  // ---- Where the arguments go ----------------------------------------------------------------------------------

  lemma {:induction false} AfterPlain(a: seq<string>, b: seq<string>)
    requires DASHES !in a
    ensures After(a + b) == After(b)
  {
    if a == [] {
      assert a + b == b;
    } else {
      assert (a + b)[1..] == a[1..] + b;
      AfterPlain(a[1..], b);
    }
  }

  lemma ParseIs(cfg: Config, args: seq<string>, items: seq<Item>, post: seq<string>)
    requires Scan(cfg, args) == items && After(args) == post
    ensures Parse(cfg, args) == Parsed(Positionals(items) + post, Flags(cfg, items, map[]))
  {
  }

  /** Arguments in front that are no known flags, and no double dash, are positional, in their order. */
  lemma PlainComesFirst(cfg: Config, plain: seq<string>, rest: seq<string>)
    requires Plain(cfg, plain)
    ensures Parse(cfg, plain + rest) == Parsed(plain + Parse(cfg, rest).positional, Parse(cfg, rest).flags)
  {
    hide *;
    PlainNoDash(cfg, plain);
    var items, front, post := Scan(cfg, rest), AsPositionals(plain), After(rest);
    ScanPlain(cfg, plain, rest);
    AfterPlain(plain, rest);
    ParseIs(cfg, rest, items, post);
    ParseIs(cfg, plain + rest, front + items, post);
    AsPositionalsSame(cfg, plain, map[]);
    PositionalsAppend(front, items);
    FlagsAppend(cfg, front, items, map[]);
    assert plain + Positionals(items) + post == plain + (Positionals(items) + post);
  }

  lemma FromDash(cfg: Config, rest: seq<string>)
    ensures Scan(cfg, [DASHES] + rest) == [] && After([DASHES] + rest) == WithoutDashes(rest) && Boundary(cfg, [DASHES] + rest)
  {
    assert ([DASHES] + rest)[1..] == rest;
  }

  /** Behind the first double dash everything is positional, further double dashes left out; what is before it is read as it
      would be alone. */
  lemma DashEndsFlags(cfg: Config, front: seq<string>, rest: seq<string>)
    requires DASHES !in front
    ensures
      var p := Parse(cfg, front);
      && Parse(cfg, front + ([DASHES] + rest)) == Parsed(p.positional + WithoutDashes(rest), p.flags)
      && (DASHES !in rest ==> Parse(cfg, front + ([DASHES] + rest)) == Parsed(p.positional + rest, p.flags))
  {
    hide *;
    var tail, items := [DASHES] + rest, Scan(cfg, front);
    FromDash(cfg, rest);
    AfterPlain(front, tail);
    AfterNoDash(front);
    AfterNoDash(rest);
    ScanAppend(cfg, front, tail);
    assert items + [] == items && Positionals(items) + [] == Positionals(items);
    ParseIs(cfg, front, items, []);
    ParseIs(cfg, front + tail, items, WithoutDashes(rest));
  }
}
