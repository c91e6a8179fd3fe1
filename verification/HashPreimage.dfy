/**
  internal/hash/hash.go and internal/node/node.go: the byte strings that are hashed for a proof
  node. What SHA-256 does with them is not modelled; the question here is which nodes share
  a string.
 */
module HashPreimage {
  import opened Lexicographic
  import opened Sorting

  // ---- Go's string order and strings.Join ----------------------------------------------------------

  function Codes(s: string): (c: seq<int>)
    ensures |c| == |s|
  {
    seq(|s|, i requires 0 <= i < |s| => s[i] as int)
  }

  /** Byte by byte, a prefix first. */
  predicate StringLeq(a: string, b: string) { Leq(Codes(a), Codes(b)) }

  lemma CodesInjective(a: string, b: string)
    requires Codes(a) == Codes(b)
    ensures a == b
  {
    forall i | 0 <= i < |a| ensures a[i] == b[i] { assert Codes(a)[i] == Codes(b)[i]; }
  }

  lemma StringOrder()
    ensures TotalOrder(StringLeq)
  {
    forall a: string, b: string ensures StringLeq(a, b) || StringLeq(b, a) { LeqTotal(Codes(a), Codes(b)); }
    forall a: string, b: string | StringLeq(a, b) && StringLeq(b, a) ensures a == b {
      LeqAntisymmetric(Codes(a), Codes(b));
      CodesInjective(a, b);
    }
    forall a: string, b: string, c: string | StringLeq(a, b) && StringLeq(b, c) ensures StringLeq(a, c) {
      LeqTransitive(Codes(a), Codes(b), Codes(c));
    }
  }

  /** The first character that differs decides, by its code; a proper beginning comes first. */
  lemma StringOrderExactly(p: string, a: char, b: char, x: string, y: string)
    ensures a != b ==> (StringLeq(p + [a] + x, p + [b] + y) <==> a < b)
    ensures StringLeq(p, p + x) && (x != "" ==> !StringLeq(p + x, p))
  {
    assert Codes(p + [a] + x) == Codes(p) + [a as int] + Codes(x);
    assert Codes(p + [b] + y) == Codes(p) + [b as int] + Codes(y);
    assert Codes(p + x) == Codes(p) + Codes(x);
    FirstDifferenceDecides(Codes(p), a as int, b as int, Codes(x), Codes(y));
  }

  function Join(parts: seq<string>, sep: char): string {
    if parts == [] then [] else if |parts| == 1 then parts[0] else parts[0] + [sep] + Join(parts[1..], sep)
  }

  predicate Avoids(parts: seq<string>, sep: char) { forall i :: 0 <= i < |parts| ==> sep !in parts[i] }

  /** A separator that occurs in neither first part tells where it ends. */
  lemma {:induction false} FirstPart(a: string, b: string, u: string, v: string, sep: char)
    requires sep !in a && sep !in b && a + [sep] + u == b + [sep] + v
    ensures a == b && u == v
  {
    if a == [] || b == [] {
      assert (a + [sep] + u)[0] == (b + [sep] + v)[0];
      assert a == [] && b == [];
      assert u == (a + [sep] + u)[1..] && v == (b + [sep] + v)[1..];
    } else {
      assert (a + [sep] + u)[0] == a[0] && (b + [sep] + v)[0] == b[0];
      assert (a + [sep] + u)[1..] == a[1..] + [sep] + u && (b + [sep] + v)[1..] == b[1..] + [sep] + v;
      FirstPart(a[1..], b[1..], u, v, sep);
    }
  }

  lemma NoFirstPart(a: string, b: string, v: string, sep: char)
    requires sep !in a
    ensures a != b + [sep] + v
  {
    assert (b + [sep] + v)[|b|] == sep;
  }

  lemma {:induction false} JoinInjective(a: seq<string>, b: seq<string>, sep: char)
    requires Avoids(a, sep) && Avoids(b, sep) && a != [] && b != []
    requires Join(a, sep) == Join(b, sep)
    ensures a == b
  {
    if |a| == 1 {
      if |b| > 1 { NoFirstPart(a[0], b[0], Join(b[1..], sep), sep); }
    } else if |b| == 1 {
      NoFirstPart(b[0], a[0], Join(a[1..], sep), sep);
    } else {
      FirstPart(a[0], b[0], Join(a[1..], sep), Join(b[1..], sep), sep);
      JoinInjective(a[1..], b[1..], sep);
      assert a == [a[0]] + a[1..] && b == [b[0]] + b[1..];
    }
  }

  lemma {:induction false} JoinEmpty(a: seq<string>, sep: char)
    ensures Join(a, sep) == "" ==> Blank(a)
  {
    if |a| > 1 { assert |Join(a, sep)| > 0; }
  }

  lemma {:induction false} JoinContains(parts: seq<string>, sep: char, c: char)
    requires c != sep && Avoids(parts, c)
    ensures c !in Join(parts, sep)
  {
    if |parts| > 1 {
      JoinContains(parts[1..], sep, c);
    } else if |parts| == 1 {
      assert c !in parts[0];
    }
  }

  /** The two lists that a join cannot tell apart. */
  predicate Blank(list: seq<string>) { list == [] || list == [""] }

  /** Lists that are joined to the same string once sorted. */
  ghost predicate SameList(a: seq<string>, b: seq<string>) { multiset(a) == multiset(b) || (Blank(a) && Blank(b)) }

  function CopyAndSort(list: seq<string>): seq<string> { Sort(StringLeq, list) }

  lemma SortedAvoids(list: seq<string>, c: char)
    requires Avoids(list, c)
    ensures Avoids(CopyAndSort(list), c)
  {
    StringOrder();
    SortIsSortedPermutation(StringLeq, list);
    var sorted := CopyAndSort(list);
    forall i | 0 <= i < |sorted| ensures c !in sorted[i] { assert sorted[i] in multiset(list); }
  }

  lemma JoinedListsAgree(a: seq<string>, b: seq<string>, sep: char)
    requires Avoids(a, sep) && Avoids(b, sep)
    ensures Join(CopyAndSort(a), sep) == Join(CopyAndSort(b), sep) <==> SameList(a, b)
    ensures a != [] && b != [] ==>
      (Join(CopyAndSort(a), sep) == Join(CopyAndSort(b), sep) <==> multiset(a) == multiset(b))
  {
    var sa, sb := CopyAndSort(a), CopyAndSort(b);
    StringOrder();
    SortEqualIffPermutation(StringLeq, a, b);
    SortIsSortedPermutation(StringLeq, a);
    SortIsSortedPermutation(StringLeq, b);
    SortedAvoids(a, sep);
    SortedAvoids(b, sep);
    if Join(sa, sep) == Join(sb, sep) {
      if a != [] && b != [] {
        JoinInjective(sa, sb, sep);
      } else {
        JoinEmpty(sa, sep);
        JoinEmpty(sb, sep);
        OneElement(a);
        OneElement(b);
      }
    }
  }

  lemma OneElement(a: seq<string>)
    ensures CopyAndSort(a) == [] || CopyAndSort(a) == [""] ==> Blank(a)
  {
    StringOrder();
    SortIsSortedPermutation(StringLeq, a);
    if CopyAndSort(a) == [""] { assert a[0] in multiset(a); }
  }

  // ---- internal/hash/hash.go -------------------------------------------------------------------------

  const NUL: char := 0 as char
  const UNIT: char := 0x1F as char

  /** What is hashed of a node; internal/hash/hash.go leaves out the validation dependencies. */
  datatype Content = Content(nodeType: string, statement: string, latex: string, inference: string,
                             context: seq<string>, dependencies: seq<string>)

  function Fields(c: Content): seq<string> { [c.nodeType, c.statement, c.latex, c.inference] }

  function Delimited(c: Content): seq<string> {
    Fields(c) + [Join(CopyAndSort(c.context), UNIT), Join(CopyAndSort(c.dependencies), UNIT)]
  }

  /** ComputeNodeHash up to the hashing. */
  method NodeHashPreimage(c: Content) returns (builder: string)
    ensures builder == Join(Delimited(c), NUL)
    ensures builder ==
      c.nodeType + [0 as char] + c.statement + [0 as char] + c.latex + [0 as char] + c.inference
      + [0 as char] + Join(Sort(StringLeq, c.context), 0x1F as char)
      + [0 as char] + Join(Sort(StringLeq, c.dependencies), 0x1F as char)
  {
    hide Sort;
    hide Join;
    var sortedContext, sortedDeps := CopyAndSort(c.context), CopyAndSort(c.dependencies);
    builder := [];
    builder := builder + c.nodeType;
    builder := builder + [NUL];
    builder := builder + c.statement;
    builder := builder + [NUL];
    builder := builder + c.latex;
    builder := builder + [NUL];
    builder := builder + c.inference;
    builder := builder + [NUL];
    builder := builder + Join(sortedContext, UNIT);
    builder := builder + [NUL];
    builder := builder + Join(sortedDeps, UNIT);
    SixJoined(Delimited(c), NUL);
  }

  lemma SixJoined(p: seq<string>, sep: char)
    requires |p| == 6
    ensures Join(p, sep)
      == p[0] + [sep] + p[1] + [sep] + p[2] + [sep] + p[3] + [sep] + p[4] + [sep] + p[5]
  {
    assert p[1..][1..] == p[2..] && p[2..][1..] == p[3..] && p[3..][1..] == p[4..] && p[4..][1..] == p[5..];
    var j5, j4 := Join(p[5..], sep), Join(p[4..], sep);
    assert j5 == p[5];
    assert j4 == p[4] + [sep] + j5;
    var j3 := Join(p[3..], sep);
    assert j3 == p[3] + [sep] + j4;
    var j2 := Join(p[2..], sep);
    assert j2 == p[2] + [sep] + j3;
    var j1 := Join(p[1..], sep);
    assert j1 == p[1] + [sep] + j2;
    assert Join(p, sep) == p[0] + [sep] + j1;
  }

  predicate NoNul(x: Content) { Avoids(Fields(x), NUL) && Avoids(x.context, NUL) && Avoids(x.dependencies, NUL) }

  /** No separator inside a field, neither separator inside a list element. */
  predicate Clean(c: Content) { NoNul(c) && Avoids(c.context, UNIT) && Avoids(c.dependencies, UNIT) }

  ghost predicate SameContent(a: Content, b: Content) {
    Fields(a) == Fields(b) && SameList(a.context, b.context) && SameList(a.dependencies, b.dependencies)
  }

  lemma DelimitedAvoids(c: Content)
    requires NoNul(c)
    ensures Avoids(Delimited(c), NUL)
  {
    SortedAvoids(c.context, NUL);
    SortedAvoids(c.dependencies, NUL);
    JoinContains(CopyAndSort(c.context), UNIT, NUL);
    JoinContains(CopyAndSort(c.dependencies), UNIT, NUL);
  }

  /** Two clean nodes share the hashed string exactly when they have the same fields and the same lists in some order;
      an empty list and a list of one empty string count as the same. */
  lemma DelimitedInjective(a: Content, b: Content)
    requires Clean(a) && Clean(b)
    ensures Join(Delimited(a), NUL) == Join(Delimited(b), NUL) <==> SameContent(a, b)
  {
    DelimitedAvoids(a);
    DelimitedAvoids(b);
    JoinedListsAgree(a.context, b.context, UNIT);
    JoinedListsAgree(a.dependencies, b.dependencies, UNIT);
    if Join(Delimited(a), NUL) == Join(Delimited(b), NUL) {
      JoinInjective(Delimited(a), Delimited(b), NUL);
      assert Fields(a) == Delimited(a)[..4] && Fields(b) == Delimited(b)[..4];
      assert Delimited(a)[4] == Delimited(b)[4] && Delimited(a)[5] == Delimited(b)[5];
    }
  }

  /** Permuting the lists never changes the string, separators or not. */
  lemma DelimitedIgnoresOrder(a: Content, b: Content)
    requires Fields(a) == Fields(b)
    requires multiset(a.context) == multiset(b.context) && multiset(a.dependencies) == multiset(b.dependencies)
    ensures Join(Delimited(a), NUL) == Join(Delimited(b), NUL)
  {
    StringOrder();
    SortEqualIffPermutation(StringLeq, a.context, b.context);
    SortEqualIffPermutation(StringLeq, a.dependencies, b.dependencies);
  }

  /** Cutting a part at a separator inside it leaves the joined string as it is. */
  lemma {:induction false} JoinSplice(u: seq<string>, a: string, b: string, v: seq<string>, sep: char)
    ensures Join(u + [a + [sep] + b] + v, sep) == Join(u + [a, b] + v, sep)
  {
    if u == [] {
      assert (u + [a + [sep] + b] + v)[1..] == v && (u + [a, b] + v)[1..] == [b] + v;
      assert ([b] + v)[1..] == v;
      assert v != [] ==> a + [sep] + b + [sep] + Join(v, sep) == a + [sep] + (b + [sep] + Join(v, sep));
    } else {
      assert (u + [a + [sep] + b] + v)[1..] == u[1..] + [a + [sep] + b] + v;
      assert (u + [a, b] + v)[1..] == u[1..] + [a, b] + v;
      JoinSplice(u[1..], a, b, v, sep);
    }
  }

  // ---- Which nodes the delimited string determines among all nodes ---------------------------------------

  ghost predicate Determined(x: Content) {
    forall y :: Join(Delimited(y), NUL) == Join(Delimited(x), NUL) ==> SameContent(x, y)
  }

  /** The list has at most one element, and that cannot be cut at a unit separator into two in sorted order. */
  predicate OneReading(list: seq<string>) {
    list == [] || (|list| == 1 && forall i :: 0 <= i < |list[0]| && list[0][i] == UNIT ==>
      !StringLeq(list[0][..i], list[0][i + 1..]))
  }

  /** The node whose six parts are the given ones. */
  function FromParts(p: seq<string>): Content requires |p| == 6 { Content(p[0], p[1], p[2], p[3], [p[4]], [p[5]]) }

  lemma SortOfSorted(list: seq<string>)
    requires Sorted(StringLeq, list)
    ensures CopyAndSort(list) == list
  {
    StringOrder();
    SortIsSortedPermutation(StringLeq, list);
    SortedPermutationIsUnique(StringLeq, CopyAndSort(list), list);
  }

  lemma FromPartsDelimited(p: seq<string>)
    requires |p| == 6
    ensures Delimited(FromParts(p)) == p
  {
    SortOfSorted([p[4]]);
    SortOfSorted([p[5]]);
  }

  lemma CutAt(s: string, sep: char)
    requires sep in s
    ensures exists i :: 0 <= i < |s| && s[i] == sep && s == s[..i] + [sep] + s[i + 1..]
  {
    var i :| 0 <= i < |s| && s[i] == sep;
    assert s == s[..i] + [sep] + s[i + 1..];
  }

  /** Seven parts can be joined to six in two ways that differ in the first part. */
  lemma MergeFirst(seven: seq<string>) returns (q: seq<string>)
    requires |seven| == 7
    ensures |q| == 6 && Join(q, NUL) == Join(seven, NUL) && |q[0]| > |seven[0]|
  {
    hide Join;
    q := [seven[0] + [NUL] + seven[1]] + seven[2..];
    assert q == [] + [seven[0] + [NUL] + seven[1]] + seven[2..] && seven == [] + [seven[0], seven[1]] + seven[2..];
    JoinSplice([], seven[0], seven[1], seven[2..], NUL);
  }

  lemma MergeLast(seven: seq<string>) returns (q: seq<string>)
    requires |seven| == 7
    ensures |q| == 6 && Join(q, NUL) == Join(seven, NUL) && q[0] == seven[0]
  {
    hide Join;
    q := seven[..5] + [seven[5] + [NUL] + seven[6]] + [];
    assert seven == seven[..5] + [seven[5], seven[6]] + [];
    JoinSplice(seven[..5], seven[5], seven[6], [], NUL);
  }

  /** A separator inside a part: the six parts can be read off differently, with another first part. */
  lemma OtherParts(p: seq<string>, k: nat) returns (q: seq<string>)
    requires |p| == 6 && k < 6 && NUL in p[k]
    ensures |q| == 6 && Join(q, NUL) == Join(p, NUL) && q[0] != p[0]
  {
    hide Join;
    CutAt(p[k], NUL);
    var i :| 0 <= i < |p[k]| && p[k][i] == NUL && p[k] == p[k][..i] + [NUL] + p[k][i + 1..];
    var a, b := p[k][..i], p[k][i + 1..];
    var seven := p[..k] + [a, b] + p[k + 1..];
    assert p == p[..k] + [a + [NUL] + b] + p[k + 1..];
    JoinSplice(p[..k], a, b, p[k + 1..], NUL);
    if k == 0 {
      q := MergeLast(seven);
      assert seven[0] == a;
    } else {
      q := MergeFirst(seven);
      assert seven[0] == p[0];
    }
  }

  lemma {:induction false} JoinKeeps(parts: seq<string>, sep: char, c: char, i: nat)
    requires i < |parts| && c in parts[i]
    ensures c in Join(parts, sep)
  {
    if |parts| > 1 {
      if i == 0 {
        var k :| 0 <= k < |parts[0]| && parts[0][k] == c;
        assert Join(parts, sep)[k] == c;
      } else {
        JoinKeeps(parts[1..], sep, c, i - 1);
        var k :| 0 <= k < |Join(parts[1..], sep)| && Join(parts[1..], sep)[k] == c;
        assert Join(parts, sep)[|parts[0]| + 1 + k] == c;
      }
    }
  }

  lemma NulShows(x: Content)
    requires !NoNul(x)
    ensures exists k: nat :: k < 6 && NUL in Delimited(x)[k]
  {
    if i :| 0 <= i < 4 && NUL in Fields(x)[i] {
      assert NUL in Delimited(x)[i];
    } else if i :| 0 <= i < |x.context| && NUL in x.context[i] {
      ListNulShows(x.context, i);
      assert NUL in Delimited(x)[4];
    } else {
      var i :| 0 <= i < |x.dependencies| && NUL in x.dependencies[i];
      ListNulShows(x.dependencies, i);
      assert NUL in Delimited(x)[5];
    }
  }

  lemma ListNulShows(list: seq<string>, i: nat)
    requires i < |list| && NUL in list[i]
    ensures NUL in Join(CopyAndSort(list), UNIT)
  {
    StringOrder();
    SortIsSortedPermutation(StringLeq, list);
    var sorted := CopyAndSort(list);
    assert list[i] in multiset(sorted);
    var k :| 0 <= k < |sorted| && sorted[k] == list[i];
    JoinKeeps(sorted, UNIT, NUL, k);
  }

  lemma NulUndetermines(x: Content)
    requires !NoNul(x)
    ensures !Determined(x)
  {
    NulShows(x);
    var k: nat :| k < 6 && NUL in Delimited(x)[k];
    var q := OtherParts(Delimited(x), k);
    FromPartsDelimited(q);
    assert Fields(FromParts(q))[0] != Fields(x)[0];
  }

  /** Another list with the same joined string, not the same up to order. */
  lemma OtherList(list: seq<string>) returns (other: seq<string>)
    requires !OneReading(list)
    ensures Join(CopyAndSort(other), UNIT) == Join(CopyAndSort(list), UNIT) && !SameList(list, other)
  {
    hide CopyAndSort;
    hide StringLeq;
    if |list| > 1 {
      other := [Join(CopyAndSort(list), UNIT)];
      SortOfSorted(other);
      assert |multiset(list)| != |multiset(other)|;
    } else {
      var e := list[0];
      var i :| 0 <= i < |e| && e[i] == UNIT && StringLeq(e[..i], e[i + 1..]);
      other := [e[..i], e[i + 1..]];
      assert other[1..] == [e[i + 1..]];
      SortOfSorted(other);
      SortOfSorted(list);
      assert e == e[..i] + [UNIT] + e[i + 1..];
      assert |multiset(list)| != |multiset(other)|;
    }
  }

  lemma ListUndetermines(x: Content)
    requires !(OneReading(x.context) && OneReading(x.dependencies))
    ensures !Determined(x)
  {
    if !OneReading(x.context) {
      var other := OtherList(x.context);
      var y := x.(context := other);
      assert Delimited(y) == Delimited(x) && !SameContent(x, y);
    } else {
      var other := OtherList(x.dependencies);
      var y := x.(dependencies := other);
      assert Delimited(y) == Delimited(x) && !SameContent(x, y);
    }
  }

  lemma StringLeqPrefix(a: string, b: string, c: string)
    requires StringLeq(a, b)
    ensures StringLeq(a, b + c)
  {
    LeqExtended(Codes(a), Codes(b), Codes(c));
    assert Codes(b + c) == Codes(b) + Codes(c);
  }

  lemma FirstCut(a: string, rest: string)
    requires StringLeq(a, rest)
    ensures !OneReading([a + [UNIT] + rest])
  {
    hide StringLeq;
    var joined, i := a + [UNIT] + rest, |a|;
    assert joined[i] == UNIT && joined[..i] == a && joined[i + 1..] == rest;
    assert [joined][0] == joined;
  }

  /** Two elements or more, joined in order, can be cut again. */
  lemma JoinedCanBeCut(sorted: seq<string>)
    requires |sorted| > 1 && StringLeq(sorted[0], sorted[1])
    ensures !OneReading([Join(sorted, UNIT)])
  {
    hide StringLeq;
    hide OneReading;
    var rest := Join(sorted[1..], UNIT);
    if |sorted| > 2 {
      var more := [UNIT] + Join(sorted[1..][1..], UNIT);
      assert rest == sorted[1] + more;
      StringLeqPrefix(sorted[0], sorted[1], more);
    }
    FirstCut(sorted[0], rest);
  }

  /** A list with one reading shares its joined string with no other list. */
  lemma OneReadingExact(list: seq<string>, other: seq<string>)
    requires OneReading(list) && Join(CopyAndSort(other), UNIT) == Join(CopyAndSort(list), UNIT)
    ensures SameList(list, other)
  {
    StringOrder();
    SortIsSortedPermutation(StringLeq, other);
    var sorted := CopyAndSort(other);
    hide CopyAndSort;
    SortOfSorted(list);
    OneElement(other);
    JoinEmpty(sorted, UNIT);
    if |other| == 1 { SortOfSorted(other); }
    assert |list| == 1 ==> list == [list[0]];
    assert |other| == 1 ==> other == [other[0]];
    if |other| > 1 { JoinedCanBeCut(sorted); }
  }

  /** The string determines its node, among all nodes there are, exactly if no field or element contains a NUL and each
      list has one reading. */
  lemma DeterminedExactly(x: Content)
    ensures Determined(x) <==> NoNul(x) && OneReading(x.context) && OneReading(x.dependencies)
  {
    if !NoNul(x) {
      NulUndetermines(x);
    } else if !(OneReading(x.context) && OneReading(x.dependencies)) {
      ListUndetermines(x);
    } else {
      forall y | Join(Delimited(y), NUL) == Join(Delimited(x), NUL) ensures SameContent(x, y) { NulFreeSame(x, y); }
    }
  }

  lemma NulFreeSame(x: Content, y: Content)
    requires NoNul(x) && OneReading(x.context) && OneReading(x.dependencies)
    requires Join(Delimited(y), NUL) == Join(Delimited(x), NUL)
    ensures SameContent(x, y)
  {
    DelimitedAvoids(x);
    SameParts(Delimited(x), Delimited(y), NUL);
    assert Fields(x) == Delimited(x)[..4] && Fields(y) == Delimited(y)[..4];
    assert Delimited(x)[4] == Delimited(y)[4] && Delimited(x)[5] == Delimited(y)[5];
    OneReadingExact(x.context, y.context);
    OneReadingExact(x.dependencies, y.dependencies);
  }

  function Count(s: string, c: char): nat { if s == [] then 0 else (if s[0] == c then 1 else 0) + Count(s[1..], c) }

  lemma {:induction false} CountConcat(s: string, t: string, c: char)
    ensures Count(s + t, c) == Count(s, c) + Count(t, c)
  {
    if s == [] {
      assert s + t == t;
    } else {
      assert (s + t)[1..] == s[1..] + t;
      CountConcat(s[1..], t, c);
    }
  }

  lemma {:induction false} CountAbsent(s: string, c: char)
    ensures Count(s, c) == 0 <==> c !in s
  {
    if s != [] { CountAbsent(s[1..], c); }
  }

  /** A joined string holds a separator between any two parts, and no more only if none lies inside a part. */
  lemma {:induction false} JoinCount(parts: seq<string>, sep: char)
    requires parts != []
    ensures Count(Join(parts, sep), sep) >= |parts| - 1
    ensures Count(Join(parts, sep), sep) == |parts| - 1 <==> Avoids(parts, sep)
  {
    CountAbsent(parts[0], sep);
    if |parts| > 1 {
      JoinCount(parts[1..], sep);
      CountConcat(parts[0] + [sep], Join(parts[1..], sep), sep);
      CountConcat(parts[0], [sep], sep);
      assert Avoids(parts, sep) <==> sep !in parts[0] && Avoids(parts[1..], sep) by {
        assert parts == [parts[0]] + parts[1..];
      }
    }
  }

  lemma SameParts(p: seq<string>, q: seq<string>, sep: char)
    requires |p| == |q| > 0 && Avoids(p, sep) && Join(p, sep) == Join(q, sep)
    ensures p == q
  {
    JoinCount(p, sep);
    JoinCount(q, sep);
    JoinInjective(p, q, sep);
  }

  // ---- internal/node/node.go ---------------------------------------------------------------------------

  datatype Node = Node(content: Content, validationDeps: seq<string>)

  /** A list that is empty gets no section at all. */
  function Section(name: string, list: seq<string>): seq<string> {
    if list == [] then [] else [name + Join(CopyAndSort(list), ',')]
  }

  function LatexSection(latex: string): seq<string> { if latex == "" then [] else ["latex:" + latex] }

  /** The lists after the inference. */
  function ListSections(n: Node): seq<string> {
    Section("context:", n.content.context)
    + (Section("dependencies:", n.content.dependencies) + Section("validation_deps:", n.validationDeps))
  }

  function Sections(n: Node): seq<string> {
    ["type:" + n.content.nodeType, "statement:" + n.content.statement]
    + (LatexSection(n.content.latex) + (["inference:" + n.content.inference] + ListSections(n)))
  }

  lemma {:induction false} JoinAppend(parts: seq<string>, more: seq<string>, sep: char)
    requires parts != []
    ensures more != [] ==> Join(parts + more, sep) == Join(parts, sep) + [sep] + Join(more, sep)
    ensures more == [] ==> Join(parts + more, sep) == Join(parts, sep)
  {
    if more == [] {
      assert parts + more == parts;
    } else if |parts| == 1 {
      assert (parts + more)[1..] == more;
    } else {
      assert (parts + more)[1..] == parts[1..] + more;
      JoinAppend(parts[1..], more, sep);
    }
  }

  lemma JoinOne(part: string, sep: char)
    ensures Join([part], sep) == part
  {
  }

  lemma JoinOneMore(parts: seq<string>, part: string, sep: char)
    requires parts != []
    ensures Join(parts + [part], sep) == Join(parts, sep) + ([sep] + part)
  {
    JoinAppend(parts, [part], sep);
  }

  /** One more section in the builder. */
  method Append(sb: string, ghost parts: seq<string>, part: string) returns (out: string, ghost longer: seq<string>)
    requires parts != [] && sb == Join(parts, '|')
    ensures longer == parts + [part] && out == Join(longer, '|')
  {
    out := sb + (['|'] + part);
    longer := parts + [part];
    JoinOneMore(parts, part, '|');
  }

  /** The section of a list, if it has elements. */
  method AppendList(sb: string, ghost parts: seq<string>, name: string, list: seq<string>)
      returns (out: string, ghost longer: seq<string>)
    requires parts != [] && sb == Join(parts, '|')
    ensures longer == parts + Section(name, list) && out == Join(longer, '|')
  {
    out, longer := sb, parts;
    if |list| > 0 {
      var sorted := CopyAndSort(list);
      out, longer := Append(sb, parts, name + Join(sorted, ','));
    }
  }

  /** ComputeContentHash up to the hashing. */
  method ContentHashPreimage(n: Node) returns (sb: string)
    ensures sb == Join(Sections(n), '|')
  {
    hide Join;
    hide Section;
    var c := n.content;
    sb := "type:" + c.nodeType;
    ghost var parts := [sb];
    JoinOne(sb, '|');
    sb, parts := Append(sb, parts, "statement:" + c.statement);
    if c.latex != "" { sb, parts := Append(sb, parts, "latex:" + c.latex); }
    sb, parts := Append(sb, parts, "inference:" + c.inference);
    ghost var head := ["type:" + c.nodeType, "statement:" + c.statement]
                      + (LatexSection(c.latex) + ["inference:" + c.inference]);
    assert parts == head;
    sb, parts := AppendList(sb, parts, "context:", c.context);
    sb, parts := AppendList(sb, parts, "dependencies:", c.dependencies);
    sb, parts := AppendList(sb, parts, "validation_deps:", n.validationDeps);
    assert parts == head + ListSections(n) == Sections(n);
  }

  predicate CleanNode(n: Node) {
    && Avoids(Fields(n.content), '|')
    && Avoids(n.content.context, '|') && Avoids(n.content.context, ',')
    && Avoids(n.content.dependencies, '|') && Avoids(n.content.dependencies, ',')
    && Avoids(n.validationDeps, '|') && Avoids(n.validationDeps, ',')
  }

  ghost predicate SameNode(a: Node, b: Node) {
    && Fields(a.content) == Fields(b.content)
    && multiset(a.content.context) == multiset(b.content.context)
    && multiset(a.content.dependencies) == multiset(b.content.dependencies)
    && multiset(a.validationDeps) == multiset(b.validationDeps)
  }

  lemma SectionAvoids(name: string, list: seq<string>)
    requires '|' !in name && Avoids(list, '|')
    ensures Avoids(Section(name, list), '|')
  {
    SortedAvoids(list, '|');
    JoinContains(CopyAndSort(list), ',', '|');
  }

  lemma SectionsAvoid(n: Node)
    requires CleanNode(n)
    ensures Avoids(Sections(n), '|')
  {
    assert Avoids(["type:" + n.content.nodeType, "statement:" + n.content.statement], '|') by {
      assert '|' !in Fields(n.content)[0] && '|' !in Fields(n.content)[1];
    }
    assert Avoids(LatexSection(n.content.latex), '|') by { assert '|' !in Fields(n.content)[2]; }
    assert Avoids(["inference:" + n.content.inference], '|') by { assert '|' !in Fields(n.content)[3]; }
    SectionAvoids("context:", n.content.context);
    SectionAvoids("dependencies:", n.content.dependencies);
    SectionAvoids("validation_deps:", n.validationDeps);
  }

  lemma Unlabel(name: string, x: string, y: string)
    requires name + x == name + y
    ensures x == y
  {
    assert x == (name + x)[|name|..] && y == (name + y)[|name|..];
  }

  predicate StartsWith(parts: seq<string>, c: char) { parts != [] && parts[0] != [] && parts[0][0] == c }

  /** An optional section is recognised by its first letter. */
  lemma OptionalAgree(p: seq<string>, q: seq<string>, u: seq<string>, v: seq<string>, c: char)
    requires p + u == q + v && |p| <= 1 && |q| <= 1
    requires (p != [] ==> StartsWith(p, c)) && (q != [] ==> StartsWith(q, c)) && !StartsWith(u, c) && !StartsWith(v, c)
    ensures p == q && u == v
  {
    assert p == [] ==> p + u == u;
    assert q == [] ==> q + v == v;
    assert p != [] ==> (p + u)[0] == p[0] && (p + u)[1..] == u;
    assert q != [] ==> (q + v)[0] == q[0] && (q + v)[1..] == v;
  }

  lemma SectionAgree(name: string, a: seq<string>, b: seq<string>)
    requires Avoids(a, ',') && Avoids(b, ',')
    ensures Section(name, a) == Section(name, b) <==> multiset(a) == multiset(b)
  {
    JoinedListsAgree(a, b, ',');
    var ja, jb := Join(CopyAndSort(a), ','), Join(CopyAndSort(b), ',');
    if a != [] && b != [] && Section(name, a) == Section(name, b) {
      assert Section(name, a)[0] == Section(name, b)[0];
      Unlabel(name, ja, jb);
    }
    assert a == [] <==> |multiset(a)| == 0;
    assert b == [] <==> |multiset(b)| == 0;
  }

  lemma ListSectionsAgree(a: Node, b: Node)
    requires ListSections(a) == ListSections(b)
    ensures Section("context:", a.content.context) == Section("context:", b.content.context)
    ensures Section("dependencies:", a.content.dependencies) == Section("dependencies:", b.content.dependencies)
    ensures Section("validation_deps:", a.validationDeps) == Section("validation_deps:", b.validationDeps)
  {
    var ua := Section("dependencies:", a.content.dependencies) + Section("validation_deps:", a.validationDeps);
    var ub := Section("dependencies:", b.content.dependencies) + Section("validation_deps:", b.validationDeps);
    OptionalAgree(Section("context:", a.content.context), Section("context:", b.content.context), ua, ub, 'c');
    OptionalAgree(Section("dependencies:", a.content.dependencies), Section("dependencies:", b.content.dependencies),
                  Section("validation_deps:", a.validationDeps), Section("validation_deps:", b.validationDeps), 'd');
  }

  lemma SectionsAgree(a: Node, b: Node)
    requires Sections(a) == Sections(b)
    ensures Fields(a.content) == Fields(b.content) && ListSections(a) == ListSections(b)
  {
    var ra := ["inference:" + a.content.inference] + ListSections(a);
    var rb := ["inference:" + b.content.inference] + ListSections(b);
    var la, lb := LatexSection(a.content.latex), LatexSection(b.content.latex);
    assert Sections(a)[0] == Sections(b)[0] && Sections(a)[1] == Sections(b)[1];
    Unlabel("type:", a.content.nodeType, b.content.nodeType);
    Unlabel("statement:", a.content.statement, b.content.statement);
    assert Sections(a)[2..] == la + ra && Sections(b)[2..] == lb + rb;
    OptionalAgree(la, lb, ra, rb, 'l');
    if la != [] { assert la[0] == lb[0]; Unlabel("latex:", a.content.latex, b.content.latex); }
    assert ra[0] == rb[0] && ra[1..] == ListSections(a) && rb[1..] == ListSections(b);
    Unlabel("inference:", a.content.inference, b.content.inference);
  }

  /** Two clean nodes share the hashed string exactly when they have the same fields and the same lists in some order. */
  lemma LabelledInjective(a: Node, b: Node)
    requires CleanNode(a) && CleanNode(b)
    ensures Join(Sections(a), '|') == Join(Sections(b), '|') <==> SameNode(a, b)
  {
    if SameNode(a, b) { LabelledIgnoresOrder(a, b); }
    SectionAgree("context:", a.content.context, b.content.context);
    SectionAgree("dependencies:", a.content.dependencies, b.content.dependencies);
    SectionAgree("validation_deps:", a.validationDeps, b.validationDeps);
    if Join(Sections(a), '|') == Join(Sections(b), '|') {
      SectionsAvoid(a);
      SectionsAvoid(b);
      JoinInjective(Sections(a), Sections(b), '|');
      SectionsAgree(a, b);
      ListSectionsAgree(a, b);
    }
  }

  lemma SectionIgnoresOrder(name: string, a: seq<string>, b: seq<string>)
    requires multiset(a) == multiset(b)
    ensures Section(name, a) == Section(name, b)
  {
    StringOrder();
    SortEqualIffPermutation(StringLeq, a, b);
    assert a == [] <==> |multiset(a)| == 0;
    assert b == [] <==> |multiset(b)| == 0;
  }

  /** Permuting the lists never changes the string, separators or not. */
  lemma LabelledIgnoresOrder(a: Node, b: Node)
    requires SameNode(a, b)
    ensures Join(Sections(a), '|') == Join(Sections(b), '|')
  {
    assert Fields(a.content)[0] == Fields(b.content)[0] && Fields(a.content)[1] == Fields(b.content)[1];
    assert Fields(a.content)[2] == Fields(b.content)[2] && Fields(a.content)[3] == Fields(b.content)[3];
    SectionIgnoresOrder("context:", a.content.context, b.content.context);
    SectionIgnoresOrder("dependencies:", a.content.dependencies, b.content.dependencies);
    SectionIgnoresOrder("validation_deps:", a.validationDeps, b.validationDeps);
  }

  /** A statement that spells out the next label is read as a statement and a latex text. */
  lemma LabelInStatementCollides(n: Node, statement: string, latex: string)
    requires n.content.statement == statement + "|latex:" + latex && n.content.latex == "" && latex != ""
    ensures
      var m := n.(content := n.content.(statement := statement, latex := latex));
      Join(Sections(n), '|') == Join(Sections(m), '|') && !SameNode(n, m)
  {
    hide Section;
    hide Join;
    var m := n.(content := n.content.(statement := statement, latex := latex));
    var first, rest := ["type:" + n.content.nodeType], ["inference:" + n.content.inference] + ListSections(n);
    var head, tail := "statement:" + statement, "latex:" + latex;
    assert "statement:" + n.content.statement == head + ['|'] + tail;
    assert Sections(n) == first + [head + ['|'] + tail] + rest;
    assert Sections(m) == first + [head, tail] + rest;
    JoinSplice(first, head, tail, rest, '|');
    assert Fields(n.content)[2] != Fields(m.content)[2];
  }
}
