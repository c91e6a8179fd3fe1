/**
  internal/node/node.go: which nodes share the labelled string that ComputeContentHash hashes. The labels are recognised only by
  their text, so a field that spells one out can be read in two ways.
 */
module HashLabels {
  import opened HashPreimage
  import opened Sorting

  const LATEX := "|latex:"
  const STATEMENT := "|statement:"
  const INFERENCE := "|inference:"
  const CONTEXT := "|context:"
  const DEPENDENCIES := "|dependencies:"
  const VALIDATION := "|validation_deps:"

  function Labelled(n: Node): string { Join(Sections(n), '|') }

  // ---- The string in one piece -----------------------------------------------------------------------

  /** Statement and latex text as they appear. */
  function Body(n: Node): string {
    if n.content.latex == "" then n.content.statement else n.content.statement + LATEX + n.content.latex
  }

  function TailOf(parts: seq<string>): string { if parts == [] then "" else ['|'] + parts[0] + TailOf(parts[1..]) }

  /** The lists as they appear. */
  function Lists(n: Node): string { TailOf(ListSections(n)) }

  function Flat(nodeType: string, body: string, end: string): string { "type:" + nodeType + STATEMENT + body + INFERENCE + end }

  lemma {:induction false} JoinIsTail(part: string, rest: seq<string>)
    ensures Join([part] + rest, '|') == part + TailOf(rest)
    decreases |rest|
  {
    assert ([part] + rest)[1..] == rest;
    if rest != [] {
      assert rest == [rest[0]] + rest[1..];
      JoinIsTail(rest[0], rest[1..]);
      assert part + ['|'] + (rest[0] + TailOf(rest[1..])) == part + (['|'] + rest[0] + TailOf(rest[1..]));
    }
  }

  lemma {:induction false} TailConcat(a: seq<string>, b: seq<string>)
    ensures TailOf(a + b) == TailOf(a) + TailOf(b)
  {
    if a == [] {
      assert a + b == b;
    } else {
      assert (a + b)[1..] == a[1..] + b;
      TailConcat(a[1..], b);
    }
  }

  lemma TailOne(part: string)
    ensures TailOf([part]) == ['|'] + part
  {
    assert [part][1..] == [];
  }

  lemma TailParts(second: string, latex: seq<string>, third: string, lists: seq<string>)
    ensures TailOf([second] + (latex + ([third] + lists)))
      == (['|'] + second) + (TailOf(latex) + ((['|'] + third) + TailOf(lists)))
  {
    TailConcat([second], latex + ([third] + lists));
    TailConcat(latex, [third] + lists);
    TailConcat([third], lists);
    TailOne(second);
    TailOne(third);
  }

  lemma FlatForm(t: string, s: string, latex: string, i: string, lists: string)
    ensures "type:" + t + ((['|'] + ("statement:" + s)) + (latex + ((['|'] + ("inference:" + i)) + lists)))
      == Flat(t, s + latex, i + lists)
  {
    assert ['|'] + ("statement:" + s) == STATEMENT + s;
    assert ['|'] + ("inference:" + i) == INFERENCE + i;
  }

  lemma LatexTail(n: Node)
    ensures Body(n) == n.content.statement + TailOf(LatexSection(n.content.latex))
  {
    if n.content.latex != "" {
      TailOne("latex:" + n.content.latex);
      assert ['|'] + ("latex:" + n.content.latex) == LATEX + n.content.latex;
      assert n.content.statement + (LATEX + n.content.latex) == Body(n);
    }
  }

  lemma LabelledIsFlat(n: Node)
    ensures Labelled(n) == Flat(n.content.nodeType, Body(n), n.content.inference + Lists(n))
  {
    hide Join;
    hide ListSections;
    hide TailOf;
    hide Flat;
    hide Body;
    hide LatexSection;
    var c := n.content;
    var first, second, third := "type:" + c.nodeType, "statement:" + c.statement, "inference:" + c.inference;
    var latex, lists := LatexSection(c.latex), ListSections(n);
    assert Sections(n) == [first] + ([second] + (latex + ([third] + lists)));
    JoinIsTail(first, [second] + (latex + ([third] + lists)));
    TailParts(second, latex, third, lists);
    FlatForm(c.nodeType, c.statement, TailOf(latex), c.inference, TailOf(lists));
    LatexTail(n);
  }

  /** A list behind its label, sorted and separated by commas; nothing for an empty one. */
  function ListText(heading: string, list: seq<string>): string {
    if list == [] then "" else heading + Join(Sort(StringLeq, list), ',')
  }

  lemma ListTextIs(name: string, heading: string, list: seq<string>)
    requires heading == ['|'] + name
    ensures TailOf(Section(name, list)) == ListText(heading, list)
  {
    if list != [] {
      var text := Join(CopyAndSort(list), ',');
      hide Join;
      TailOne(name + text);
      assert ['|'] + (name + text) == heading + text;
    }
  }

  lemma TailThree(a: seq<string>, b: seq<string>, c: seq<string>)
    ensures TailOf(a + (b + c)) == TailOf(a) + TailOf(b) + TailOf(c)
  {
    TailConcat(a, b + c);
    TailConcat(b, c);
  }

  lemma ListsAre(n: Node)
    ensures Lists(n) ==
      ListText("|context:", n.content.context) + ListText("|dependencies:", n.content.dependencies)
      + ListText("|validation_deps:", n.validationDeps)
  {
    hide Section;
    hide TailOf;
    hide ListText;
    ListTextIs("context:", "|context:", n.content.context);
    ListTextIs("dependencies:", "|dependencies:", n.content.dependencies);
    ListTextIs("validation_deps:", "|validation_deps:", n.validationDeps);
    TailThree(Section("context:", n.content.context), Section("dependencies:", n.content.dependencies),
              Section("validation_deps:", n.validationDeps));
  }

  /** The whole string. */
  lemma LabelledText(n: Node)
    ensures Labelled(n) ==
      "type:" + n.content.nodeType + "|statement:" + n.content.statement
      + (if n.content.latex == "" then "" else "|latex:" + n.content.latex) + "|inference:" + n.content.inference
      + ListText("|context:", n.content.context) + ListText("|dependencies:", n.content.dependencies)
      + ListText("|validation_deps:", n.validationDeps)
  {
    LabelledIsFlat(n);
    ListsAre(n);
    var c := n.content;
    var latex := if c.latex == "" then "" else "|latex:" + c.latex;
    BodyIs(n, latex);
    hide Labelled;
    hide ListText;
    hide Lists;
    hide Body;
    Spread("type:" + c.nodeType + "|statement:", c.statement, latex, "|inference:", c.inference,
           ListText("|context:", c.context), ListText("|dependencies:", c.dependencies),
           ListText("|validation_deps:", n.validationDeps));
  }

  lemma BodyIs(n: Node, latex: string)
    requires latex == if n.content.latex == "" then "" else "|latex:" + n.content.latex
    ensures Body(n) == n.content.statement + latex
  {
    if n.content.latex == "" { assert n.content.statement + "" == n.content.statement; }
    else { assert n.content.statement + LATEX + n.content.latex == n.content.statement + (LATEX + n.content.latex); }
  }

  lemma Spread(t: string, s: string, x: string, l: string, i: string, a: string, b: string, c: string)
    ensures t + (s + x) + l + (i + (a + b + c)) == t + s + x + l + i + a + b + c
  {
    assert t + (s + x) == t + s + x;
    var front := t + s + x + l;
    assert i + (a + b + c) == i + a + b + c;
    assert front + (i + a + b + c) == front + i + a + b + c;
  }

  // ---- Nodes in which only statement and latex text are free --------------------------------------------

  /** Type, inference and list elements without bars, list elements without commas. Types and inferences come from the schema,
      dependencies are node identifiers. */
  predicate Tidy(n: Node) {
    && '|' !in n.content.nodeType && '|' !in n.content.inference
    && Avoids(n.content.context, '|') && Avoids(n.content.context, ',')
    && Avoids(n.content.dependencies, '|') && Avoids(n.content.dependencies, ',')
    && Avoids(n.validationDeps, '|') && Avoids(n.validationDeps, ',')
  }

  /** The parts from the inference on, none of which contains a bar. */
  function EndParts(n: Node): seq<string> { ["inference:" + n.content.inference] + ListSections(n) }

  lemma EndPartsAvoid(n: Node)
    requires Tidy(n)
    ensures Avoids(EndParts(n), '|')
    ensures forall i :: 1 <= i < |EndParts(n)| ==> EndParts(n)[i] != "" && EndParts(n)[i][0] != 'i'
  {
    SectionAvoids("context:", n.content.context);
    SectionAvoids("dependencies:", n.content.dependencies);
    SectionAvoids("validation_deps:", n.validationDeps);
  }

  lemma LastBar(b: string, q: string, k: nat)
    requires '|' !in q && k < |b + ['|'] + q| && (b + ['|'] + q)[k] == '|'
    ensures k <= |b|
  {
    var s := b + ['|'] + q;
    assert forall i :: |b| < i < |s| ==> s[i] == q[i - |b| - 1];
  }

  lemma LastPart(b: string, q: string, b': string, q': string)
    requires '|' !in q && '|' !in q' && b + ['|'] + q == b' + ['|'] + q'
    ensures b == b' && q == q'
  {
    var s := b + ['|'] + q;
    LastBar(b, q, |b'|);
    LastBar(b', q', |b|);
    assert b == s[..|b|] && b' == s[..|b'|] && q == s[|b| + 1..] && q' == s[|b'| + 1..];
  }

  lemma TailSnoc(q: seq<string>)
    requires q != []
    ensures TailOf(q) == TailOf(q[..|q| - 1]) + (['|'] + q[|q| - 1])
  {
    assert q == q[..|q| - 1] + [q[|q| - 1]];
    TailConcat(q[..|q| - 1], [q[|q| - 1]]);
    TailOne(q[|q| - 1]);
  }

  /** Bar-free parts at the end of a string can be read off from the end. */
  lemma {:induction false} PeelParts(b: string, q: seq<string>, b': string, q': seq<string>)
    requires Avoids(q, '|') && Avoids(q', '|') && |q| <= |q'| && b + TailOf(q) == b' + TailOf(q')
    ensures q == q'[|q'| - |q|..] && b == b' + TailOf(q'[..|q'| - |q|])
    ensures q != [] ==> q[0] == q'[|q'| - |q|]
    decreases |q|
  {
    hide TailOf;
    if q == [] {
      EmptyTail();
      assert q'[..|q'|] == q';
    } else {
      var init, last, init', last' := q[..|q| - 1], q[|q| - 1], q'[..|q'| - 1], q'[|q'| - 1];
      TailSnoc(q);
      TailSnoc(q');
      assert b + TailOf(q) == (b + TailOf(init)) + ['|'] + last;
      assert b' + TailOf(q') == (b' + TailOf(init')) + ['|'] + last';
      LastPart(b + TailOf(init), last, b' + TailOf(init'), last');
      PeelParts(b, init, b', init');
      assert init'[..|init'| - |init|] == q'[..|q'| - |q|];
      assert q == init + [last] && q'[|q'| - |q|..] == init'[|init'| - |init|..] + [last'];
    }
  }

  lemma EndsNotLonger(a: Node, b: Node)
    requires Tidy(a) && Tidy(b) && Body(a) + TailOf(EndParts(a)) == Body(b) + TailOf(EndParts(b))
    ensures |EndParts(a)| >= |EndParts(b)|
  {
    hide ListSections;
    hide TailOf;
    hide Body;
    EndPartsAvoid(a);
    EndPartsAvoid(b);
    if |EndParts(a)| < |EndParts(b)| { PeelParts(Body(a), EndParts(a), Body(b), EndParts(b)); }
  }

  lemma EndsAgree(a: Node, b: Node)
    requires Tidy(a) && Tidy(b) && Body(a) + TailOf(EndParts(a)) == Body(b) + TailOf(EndParts(b))
    ensures Body(a) == Body(b) && EndParts(a) == EndParts(b)
  {
    hide ListSections;
    hide TailOf;
    hide Body;
    EndPartsAvoid(a);
    EndPartsAvoid(b);
    EndsNotLonger(a, b);
    EndsNotLonger(b, a);
    PeelParts(Body(a), EndParts(a), Body(b), EndParts(b));
    EmptyTail();
  }

  lemma EmptyTail()
    ensures TailOf([]) == ""
  {
  }

  /** Two such nodes share the string exactly if they agree in type, inference and lists up to order, and statement and latex
      text together look the same. */
  lemma SameStringExactly(a: Node, b: Node)
    requires Tidy(a) && Tidy(b)
    ensures Labelled(a) == Labelled(b) <==>
      && a.content.nodeType == b.content.nodeType && Body(a) == Body(b) && a.content.inference == b.content.inference
      && multiset(a.content.context) == multiset(b.content.context)
      && multiset(a.content.dependencies) == multiset(b.content.dependencies)
      && multiset(a.validationDeps) == multiset(b.validationDeps)
  {
    hide Join;
    hide TailOf;
    hide ListSections;
    hide Body;
    LabelledIsFlat(a);
    LabelledIsFlat(b);
    FlatEnd(a);
    FlatEnd(b);
    SectionAgree("context:", a.content.context, b.content.context);
    SectionAgree("dependencies:", a.content.dependencies, b.content.dependencies);
    SectionAgree("validation_deps:", a.validationDeps, b.validationDeps);
    if Labelled(a) == Labelled(b) {
      var ta, tb := "type:" + a.content.nodeType, "type:" + b.content.nodeType;
      var ra, rb := "statement:" + (Body(a) + TailOf(EndParts(a))), "statement:" + (Body(b) + TailOf(EndParts(b)));
      assert ta + ['|'] + ra == Labelled(a) && tb + ['|'] + rb == Labelled(b);
      FirstPart(ta, tb, ra, rb, '|');
      Unlabel("type:", a.content.nodeType, b.content.nodeType);
      Unlabel("statement:", Body(a) + TailOf(EndParts(a)), Body(b) + TailOf(EndParts(b)));
      EndsAgree(a, b);
      assert EndParts(a)[0] == EndParts(b)[0] && EndParts(a)[1..] == ListSections(a) && EndParts(b)[1..] == ListSections(b);
      Unlabel("inference:", a.content.inference, b.content.inference);
      ListSectionsAgree(a, b);
    }
    ListsFromSections(a, b);
  }

  lemma ListsFromSections(a: Node, b: Node)
    ensures
      && Section("context:", a.content.context) == Section("context:", b.content.context)
      && Section("dependencies:", a.content.dependencies) == Section("dependencies:", b.content.dependencies)
      && Section("validation_deps:", a.validationDeps) == Section("validation_deps:", b.validationDeps)
      ==> Lists(a) == Lists(b)
  {
  }

  lemma FlatEnd(n: Node)
    ensures Flat(n.content.nodeType, Body(n), n.content.inference + Lists(n))
      == "type:" + n.content.nodeType + ['|'] + ("statement:" + (Body(n) + TailOf(EndParts(n))))
  {
    hide ListSections;
    hide Body;
    TailConcat(["inference:" + n.content.inference], ListSections(n));
    TailOne("inference:" + n.content.inference);
    hide TailOf;
    assert INFERENCE + n.content.inference == ['|'] + ("inference:" + n.content.inference);
    assert STATEMENT == ['|'] + "statement:";
  }

  /** The text contains the label. */
  ghost predicate Spells(text: string, name: string) { exists p :: OccursAt(text, name, p) }

  predicate OccursAt(text: string, name: string, p: int) { 0 <= p <= |text| - |name| && text[p..p + |name|] == name }

  lemma SpellsCut(text: string, name: string) returns (a: string, b: string)
    requires Spells(text, name)
    ensures text == a + name + b
  {
    var p :| OccursAt(text, name, p);
    a, b := text[..p], text[p + |name|..];
  }

  lemma SpellsWhole(a: string, name: string, b: string)
    ensures Spells(a + name + b, name)
  {
    assert OccursAt(a + name + b, name, |a|);
  }

  /** The statement contains the latex label with something after it. */
  ghost predicate SpellsLatex(text: string) { exists p :: OccursAt(text, LATEX, p) && p < |text| - |LATEX| }

  ghost predicate DeterminedAmongTidy(x: Node) {
    forall y :: Tidy(y) && Labelled(y) == Labelled(x) ==> SameNode(x, y)
  }

  function WithTexts(n: Node, statement: string, latex: string): Node {
    n.(content := n.content.(statement := statement, latex := latex))
  }

  lemma SameFields(a: Node, b: Node)
    ensures Fields(a.content) == Fields(b.content) <==>
      && a.content.nodeType == b.content.nodeType && a.content.statement == b.content.statement
      && a.content.latex == b.content.latex && a.content.inference == b.content.inference
  {
    assert Fields(a.content) == Fields(b.content) ==>
      Fields(a.content)[0] == Fields(b.content)[0] && Fields(a.content)[1] == Fields(b.content)[1]
      && Fields(a.content)[2] == Fields(b.content)[2] && Fields(a.content)[3] == Fields(b.content)[3];
  }

  /** Among such nodes the string determines its node exactly if there is no latex text and the statement does not spell
      one out. */
  lemma DeterminedAmongTidyExactly(x: Node)
    requires Tidy(x)
    ensures DeterminedAmongTidy(x) <==> x.content.latex == "" && !SpellsLatex(x.content.statement)
  {
    hide Labelled;
    var statement, latex := x.content.statement, x.content.latex;
    if latex != "" {
      var y := WithTexts(x, Body(x), "");
      SameStringExactly(x, y);
      SameFields(x, y);
      assert Labelled(y) == Labelled(x) && Tidy(y) && !SameNode(x, y);
    } else if SpellsLatex(statement) {
      var p :| OccursAt(statement, LATEX, p) && p < |statement| - |LATEX|;
      var y := WithTexts(x, statement[..p], statement[p + |LATEX|..]);
      assert Body(y) == statement;
      SameStringExactly(x, y);
      SameFields(x, y);
      assert Labelled(y) == Labelled(x) && Tidy(y) && !SameNode(x, y);
    } else {
      forall y | Tidy(y) && Labelled(y) == Labelled(x) ensures SameNode(x, y) {
        SameStringExactly(x, y);
        SameFields(x, y);
        BodyIsStatement(y, statement);
      }
    }
  }

  lemma BodyIsStatement(y: Node, statement: string)
    requires Body(y) == statement && !SpellsLatex(statement)
    ensures y.content.latex == "" && y.content.statement == statement
  {
    if y.content.latex != "" { LatexSpelled(y.content.statement, y.content.latex); }
  }

  lemma LatexSpelled(a: string, b: string)
    requires b != ""
    ensures SpellsLatex(a + LATEX + b)
  {
    assert OccursAt(a + LATEX + b, LATEX, |a|);
  }

  // ---- Among all nodes there could be -----------------------------------------------------------------------

  ghost predicate DeterminedAmongAll(x: Node) { forall y :: Labelled(y) == Labelled(x) ==> SameNode(x, y) }

  /** No second way to read the string: no optional section, and no label inside a field where it could be taken for the real
      one. */
  ghost predicate OneReadingOnly(x: Node) {
    var c := x.content;
    && c.latex == "" && c.context == [] && c.dependencies == [] && x.validationDeps == []
    && !Spells(c.nodeType, STATEMENT)
    && !Spells(c.statement, STATEMENT) && !Spells(c.statement, INFERENCE) && !SpellsLatex(c.statement)
    && !Spells(c.inference, INFERENCE) && !Spells(c.inference, CONTEXT)
    && !Spells(c.inference, DEPENDENCIES) && !Spells(c.inference, VALIDATION)
  }

  predicate IsLabel(name: string) { |name| >= 2 && name[0] == '|' && forall i :: 1 <= i < |name| ==> name[i] != '|' }

  /** A label in a text with another label in its middle lies before, on or after that label. */
  lemma OccursAround(a: string, middle: string, b: string, name: string, p: int)
    requires IsLabel(middle) && IsLabel(name) && (name == middle || name[1] != middle[1])
    requires OccursAt(a + middle + b, name, p)
    ensures
      || OccursAt(a, name, p)
      || (p == |a| && name == middle)
      || (p >= |a| + |middle| && OccursAt(b, name, p - |a| - |middle|))
  {
    var text := a + middle + b;
    assert forall i :: 0 <= i < |name| ==> text[p + i] == text[p..p + |name|][i] == name[i];
    assert text[p + 0] == '|' && text[p + 1] == name[1];
    forall i | p < i < p + |name| ensures text[i] != '|' { assert text[p + (i - p)] == name[i - p]; }
    assert text[|a|] == '|' && text[|a| + 1] == middle[1];
    assert forall i :: |a| < i < |a| + |middle| ==> text[i] == middle[i - |a|] != '|';
    if p < |a| {
      assert a[p..p + |name|] == text[p..p + |name|];
    } else if p > |a| {
      var k := p - |a| - |middle|;
      assert b[k..k + |name|] == text[p..p + |name|];
    }
  }

  /** Where the two labels can be in the string of a node with one reading. */
  lemma StatementFound(t: string, s: string, i: string, p: int)
    requires !Spells(t, STATEMENT) && !Spells(s, STATEMENT) && OccursAt(Flat(t, s, i), STATEMENT, p)
    ensures p == 5 + |t| || p > 5 + |t| + |STATEMENT| + |s|
  {
    hide OccursAt;
    var a, rest := "type:" + t, s + INFERENCE + i;
    assert Flat(t, s, i) == a + STATEMENT + rest;
    OccursAround(a, STATEMENT, rest, STATEMENT, p);
    if OccursAt(a, STATEMENT, p) { AfterType(t, STATEMENT, p); }
    var q := p - |a| - |STATEMENT|;
    if q >= 0 && OccursAt(rest, STATEMENT, q) { OccursAround(s, INFERENCE, i, STATEMENT, q); }
  }

  lemma InferenceFound(t: string, s: string, i: string, p: int)
    requires !Spells(s, INFERENCE) && !Spells(i, INFERENCE) && OccursAt(Flat(t, s, i), INFERENCE, p)
    ensures p < 5 + |t| || p == 5 + |t| + |STATEMENT| + |s|
  {
    var a, rest := "type:" + t, s + INFERENCE + i;
    assert Flat(t, s, i) == a + STATEMENT + rest;
    OccursAround(a, STATEMENT, rest, INFERENCE, p);
    var q := p - |a| - |STATEMENT|;
    if q >= 0 && OccursAt(rest, INFERENCE, q) { OccursAround(s, INFERENCE, i, INFERENCE, q); }
  }

  lemma AfterType(t: string, name: string, p: int)
    requires IsLabel(name) && OccursAt("type:" + t, name, p)
    ensures Spells(t, name)
  {
    var a := "type:" + t;
    assert a[p] == a[p..p + |name|][0] == '|';
    assert OccursAt(t, name, p - 5) by { assert t[p - 5..p - 5 + |name|] == a[p..p + |name|]; }
  }

  /** Two ways to write one string with both labels: the same if the labels occur nowhere else. */
  lemma FlatUnique(t: string, s: string, i: string, t': string, s': string, i': string)
    requires !Spells(t, STATEMENT) && !Spells(s, STATEMENT) && !Spells(s, INFERENCE) && !Spells(i, INFERENCE)
    requires Flat(t, s, i) == Flat(t', s', i')
    ensures t == t' && s == s' && i == i'
  {
    var text := Flat(t, s, i);
    var p, q := 5 + |t'|, 5 + |t'| + |STATEMENT| + |s'|;
    assert OccursAt(Flat(t', s', i'), STATEMENT, p);
    assert OccursAt(Flat(t', s', i'), INFERENCE, q);
    StatementFound(t, s, i, p);
    InferenceFound(t, s, i, q);
    assert p == 5 + |t| && q == 5 + |t| + |STATEMENT| + |s|;
    assert t == text[5..p] && t' == Flat(t', s', i')[5..p];
    assert s == text[p + |STATEMENT|..q] && s' == Flat(t', s', i')[p + |STATEMENT|..q];
    assert i == text[q + |INFERENCE|..] && i' == Flat(t', s', i')[q + |INFERENCE|..];
  }

  /** A list that is not empty shows its label. */
  lemma ListsShow(n: Node)
    ensures n.content.context == [] && n.content.dependencies == [] && n.validationDeps == [] ==> Lists(n) == ""
    ensures n.content.context != [] ==> Spells(n.content.inference + Lists(n), CONTEXT)
    ensures n.content.context == [] && n.content.dependencies != [] ==> Spells(n.content.inference + Lists(n), DEPENDENCIES)
    ensures n.content.context == [] && n.content.dependencies == [] && n.validationDeps != [] ==>
      Spells(n.content.inference + Lists(n), VALIDATION)
  {
    hide Join;
    hide CopyAndSort;
    hide Spells;
    var i, parts := n.content.inference, ListSections(n);
    if n.content.context != [] {
      FirstLabelShows(i, "context:", Join(CopyAndSort(n.content.context), ','), parts);
      assert ['|'] + "context:" == CONTEXT;
    } else if n.content.dependencies != [] {
      FirstLabelShows(i, "dependencies:", Join(CopyAndSort(n.content.dependencies), ','), parts);
      assert ['|'] + "dependencies:" == DEPENDENCIES;
    } else if n.validationDeps != [] {
      FirstLabelShows(i, "validation_deps:", Join(CopyAndSort(n.validationDeps), ','), parts);
      assert ['|'] + "validation_deps:" == VALIDATION;
    } else {
      assert parts == [];
    }
  }

  lemma FirstLabelShows(i: string, name: string, joined: string, parts: seq<string>)
    requires parts != [] && parts[0] == name + joined
    ensures Spells(i + TailOf(parts), ['|'] + name)
  {
    var tail := TailOf(parts[1..]);
    assert TailOf(parts) == ['|'] + (name + joined) + tail;
    hide TailOf;
    hide Spells;
    assert ['|'] + (name + joined) + tail == (['|'] + name) + (joined + tail);
    assert i + ((['|'] + name) + (joined + tail)) == i + (['|'] + name) + (joined + tail);
    SpellsWhole(i, ['|'] + name, joined + tail);
  }

  /** A node with one reading shares its string with no other. */
  lemma OneReadingIsEnough(x: Node, y: Node)
    requires OneReadingOnly(x) && Labelled(y) == Labelled(x)
    ensures SameNode(x, y)
  {
    hide Join;
    hide ListSections;
    hide Labelled;
    hide Flat;
    LabelledIsFlat(x);
    LabelledIsFlat(y);
    ListsShow(x);
    ListsShow(y);
    assert x.content.inference + "" == x.content.inference && y.content.inference + "" == y.content.inference;
    FlatUnique(x.content.nodeType, x.content.statement, x.content.inference,
               y.content.nodeType, Body(y), y.content.inference + Lists(y));
    BodyIsStatement(y, x.content.statement);
    SameFields(x, y);
  }

  function Plain(nodeType: string, statement: string, inference: string): Node {
    Node(Content(nodeType, statement, "", inference, [], []), [])
  }

  lemma PlainString(t: string, s: string, i: string)
    ensures Labelled(Plain(t, s, i)) == Flat(t, s, i)
  {
    LabelledIsFlat(Plain(t, s, i));
    ListsShow(Plain(t, s, i));
    assert i + "" == i;
  }

  lemma RegroupType(a: string, b: string, s: string, i: string)
    ensures Flat(a + STATEMENT + b, s, i) == Flat(a, b + STATEMENT + s, i)
  {
  }

  lemma RegroupStatement(t: string, a: string, b: string, i: string)
    ensures Flat(t, a + INFERENCE + b, i) == Flat(t, a, b + INFERENCE + i)
  {
  }

  /** Optional sections, or a label inside a field: another node with the same string, written without any optional section or
      with one. */
  lemma SecondReading(x: Node) returns (y: Node)
    requires !OneReadingOnly(x)
    ensures Labelled(y) == Labelled(x) && !SameNode(x, y)
  {
    hide Join;
    hide Labelled;
    hide Flat;
    hide Body;
    hide TailOf;
    hide Spells;
    hide SpellsLatex;
    var c := x.content;
    LabelledIsFlat(x);
    if c.latex != "" || c.context != [] || c.dependencies != [] || x.validationDeps != [] {
      y := Plain(c.nodeType, Body(x), c.inference + Lists(x));
      PlainString(c.nodeType, Body(x), c.inference + Lists(x));
      SameFields(x, y);
      NotPlain(x, y);
    } else {
      PlainString(c.nodeType, c.statement, c.inference);
      assert x == Plain(c.nodeType, c.statement, c.inference);
      y := SecondPlainReading(c.nodeType, c.statement, c.inference);
    }
  }

  lemma NotPlain(x: Node, y: Node)
    requires x.content.latex != "" || x.content.context != [] || x.content.dependencies != [] || x.validationDeps != []
    requires y.content.latex == "" && y.content.context == [] && y.content.dependencies == [] && y.validationDeps == []
    ensures !SameNode(x, y)
  {
    SameFields(x, y);
    assert |multiset(x.content.context)| == |x.content.context| && |multiset(x.content.dependencies)| == |x.content.dependencies|;
    assert |multiset(x.validationDeps)| == |x.validationDeps|;
  }

  lemma SecondPlainReading(t: string, s: string, i: string) returns (y: Node)
    requires !OneReadingOnly(Plain(t, s, i))
    ensures Labelled(y) == Labelled(Plain(t, s, i)) && !SameNode(Plain(t, s, i), y)
  {
    hide Join;
    hide Labelled;
    hide Flat;
    hide Spells;
    var x := Plain(t, s, i);
    PlainString(t, s, i);
    var a, b;
    if Spells(t, STATEMENT) {
      a, b := SpellsCut(t, STATEMENT);
      y := Plain(a, b + STATEMENT + s, i);
      RegroupType(a, b, s, i);
      PlainString(a, b + STATEMENT + s, i);
    } else if Spells(s, STATEMENT) {
      a, b := SpellsCut(s, STATEMENT);
      y := Plain(t + STATEMENT + a, b, i);
      RegroupType(t, a, b, i);
      PlainString(t + STATEMENT + a, b, i);
    } else if Spells(s, INFERENCE) {
      a, b := SpellsCut(s, INFERENCE);
      y := Plain(t, a, b + INFERENCE + i);
      RegroupStatement(t, a, b, i);
      PlainString(t, a, b + INFERENCE + i);
    } else if Spells(i, INFERENCE) {
      a, b := SpellsCut(i, INFERENCE);
      y := Plain(t, s + INFERENCE + a, b);
      RegroupStatement(t, s, a, b);
      PlainString(t, s + INFERENCE + a, b);
    } else if SpellsLatex(s) {
      y := LatexReading(t, s, i);
      return;
    } else {
      y := ListReading(t, s, i);
      return;
    }
    SameFields(x, y);
    assert y.content.nodeType != t || y.content.inference != i;
  }

  lemma LatexReading(t: string, s: string, i: string) returns (y: Node)
    requires SpellsLatex(s)
    ensures Labelled(y) == Labelled(Plain(t, s, i)) && !SameNode(Plain(t, s, i), y)
  {
    hide Join;
    hide Labelled;
    hide Flat;
    var p :| OccursAt(s, LATEX, p) && p < |s| - |LATEX|;
    y := WithTexts(Plain(t, s, i), s[..p], s[p + |LATEX|..]);
    assert Body(y) == s;
    LabelledIsFlat(y);
    LabelledIsFlat(Plain(t, s, i));
    SameFields(Plain(t, s, i), y);
  }

  /** An inference that spells out a list. */
  lemma ListReading(t: string, s: string, i: string) returns (y: Node)
    requires Spells(i, CONTEXT) || Spells(i, DEPENDENCIES) || Spells(i, VALIDATION)
    ensures Labelled(y) == Labelled(Plain(t, s, i)) && !SameNode(Plain(t, s, i), y)
  {
    hide Join;
    hide Labelled;
    hide Flat;
    hide Spells;
    var a, b;
    if Spells(i, CONTEXT) {
      a, b := SpellsCut(i, CONTEXT);
      y := Node(Content(t, s, "", a, [b], []), []);
      OneListShown(y, "context:", b);
      assert ['|'] + "context:" == CONTEXT;
    } else if Spells(i, DEPENDENCIES) {
      a, b := SpellsCut(i, DEPENDENCIES);
      y := Node(Content(t, s, "", a, [], [b]), []);
      OneListShown(y, "dependencies:", b);
      assert ['|'] + "dependencies:" == DEPENDENCIES;
    } else {
      a, b := SpellsCut(i, VALIDATION);
      y := Node(Content(t, s, "", a, [], []), [b]);
      OneListShown(y, "validation_deps:", b);
      assert ['|'] + "validation_deps:" == VALIDATION;
    }
    assert a + Lists(y) == i;
    LabelledIsFlat(y);
    PlainString(t, s, i);
    NotPlain(y, Plain(t, s, i));
    assert SameNode(Plain(t, s, i), y) ==> SameNode(y, Plain(t, s, i));
  }

  lemma OneListShown(y: Node, name: string, b: string)
    requires
      || (name == "context:" && y.content.context == [b] && y.content.dependencies == [] && y.validationDeps == [])
      || (name == "dependencies:" && y.content.context == [] && y.content.dependencies == [b] && y.validationDeps == [])
      || (name == "validation_deps:" && y.content.context == [] && y.content.dependencies == [] && y.validationDeps == [b])
    ensures Lists(y) == (['|'] + name) + b
  {
    SortOfSorted([b]);
    assert Join([b], ',') == b;
    hide Join;
    hide CopyAndSort;
    assert ListSections(y) == [name + b];
    TailOne(name + b);
  }

  /** Among all nodes the labelled string determines its node exactly if it has one reading only. */
  lemma LabelledDeterminedExactly(x: Node)
    ensures DeterminedAmongAll(x) <==> OneReadingOnly(x)
  {
    hide Labelled;
    hide OneReadingOnly;
    hide SameNode;
    if OneReadingOnly(x) {
      forall y | Labelled(y) == Labelled(x) ensures SameNode(x, y) { OneReadingIsEnough(x, y); }
    } else {
      var y := SecondReading(x);
    }
  }
}
