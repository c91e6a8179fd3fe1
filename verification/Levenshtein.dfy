/**
  internal/fuzzy/levenshtein.go: edit distance by a two-row table, against the definition
  by single-character edits, and the laws its documentation promises.
 */
module Levenshtein {
  import opened GoText

  type Word = seq<int>

  function Min3(a: int, b: int, c: int): (m: int)
    ensures m <= a && m <= b && m <= c
    ensures m == a || m == b || m == c
  {
    if a <= b && a <= c then a else if b <= c then b else c
  }

  function Max(a: int, b: int): int { if a <= b then b else a }

  function Abs(a: int): int { if a < 0 then -a else a }

  // ---- The reference: edits of one character at any position ------------------------

  ghost predicate InsertAt(s: Word, t: Word, i: int, c: int) { 0 <= i <= |s| && t == s[..i] + [c] + s[i..] }

  ghost predicate DeleteAt(s: Word, t: Word, i: int) { 0 <= i < |s| && t == s[..i] + s[i + 1..] }

  ghost predicate SubstituteAt(s: Word, t: Word, i: int, c: int) { 0 <= i < |s| && t == s[i := c] }

  /** `t` arises from `s` by inserting, deleting or substituting one character. */
  ghost predicate OneEdit(s: Word, t: Word) {
    || (exists i, c :: InsertAt(s, t, i, c))
    || (exists i :: DeleteAt(s, t, i))
    || (exists i, c :: SubstituteAt(s, t, i, c))
  }

  /** A chain of words, each one edit from the one before. */
  ghost predicate EditChain(chain: seq<Word>, s: Word, t: Word) {
    && |chain| >= 1 && chain[0] == s && chain[|chain| - 1] == t
    && forall k :: 0 <= k < |chain| - 1 ==> OneEdit(chain[k], chain[k + 1])
  }

  // ---- The recurrence the table computes ---------------------------------------------

  function Cost(a: int, b: int): int { if a == b then 0 else 1 }

  function Init(s: Word): Word requires s != [] { s[..|s| - 1] }

  function Last(s: Word): int requires s != [] { s[|s| - 1] }

  function Lev(s: Word, t: Word): (d: nat)
    decreases |s| + |t|
  {
    if s == [] then |t|
    else if t == [] then |s|
    else Min3(Lev(Init(s), t) + 1, Lev(s, Init(t)) + 1, Lev(Init(s), Init(t)) + Cost(Last(s), Last(t)))
  }

  lemma {:induction false} LevSymmetric(s: Word, t: Word)
    ensures Lev(s, t) == Lev(t, s)
    decreases |s| + |t|
  {
    if s != [] && t != [] {
      LevSymmetric(Init(s), t);
      LevSymmetric(s, Init(t));
      LevSymmetric(Init(s), Init(t));
    }
  }

  lemma {:induction false} LevZeroIffEqual(s: Word, t: Word)
    ensures Lev(s, t) == 0 <==> s == t
    decreases |s| + |t|
  {
    if s != [] && t != [] {
      LevZeroIffEqual(Init(s), Init(t));
      assert s == Init(s) + [Last(s)] && t == Init(t) + [Last(t)];
    }
  }

  lemma {:induction false} LevBounds(s: Word, t: Word)
    ensures Abs(|s| - |t|) <= Lev(s, t) <= Max(|s|, |t|)
    decreases |s| + |t|
  {
    if s != [] && t != [] {
      LevBounds(Init(s), t);
      LevBounds(s, Init(t));
      LevBounds(Init(s), Init(t));
    }
  }

  /** The two neighbours of a table cell differ from it by at most one. */
  lemma LevStep(s: Word, t: Word)
    requires s != []
    ensures Lev(s, t) <= Lev(Init(s), t) + 1
    ensures Lev(t, s) <= Lev(t, Init(s)) + 1
  {
    LevSymmetric(s, t);
    LevSymmetric(Init(s), t);
  }

  /** The same recurrence by position: the entry in row `i` and column `j` of the table. */
  function Cell(s: Word, t: Word, i: nat, j: nat): nat
    requires i <= |s| && j <= |t|
  {
    if i == 0 then j
    else if j == 0 then i
    else Min3(Cell(s, t, i - 1, j) + 1, Cell(s, t, i, j - 1) + 1, Cell(s, t, i - 1, j - 1) + Cost(s[i - 1], t[j - 1]))
  }

  lemma CellStep(s: Word, t: Word, i: nat, j: nat)
    requires i <= |s| && j <= |t|
    ensures i == 0 ==> Cell(s, t, i, j) == j
    ensures j == 0 ==> Cell(s, t, i, j) == i
    ensures i > 0 && j > 0 ==>
      Cell(s, t, i, j) == Min3(Cell(s, t, i - 1, j) + 1, Cell(s, t, i, j - 1) + 1, Cell(s, t, i - 1, j - 1) + Cost(s[i - 1], t[j - 1]))
  {
  }

  lemma {:induction false} CellIsLev(s: Word, t: Word, u: Word, v: Word)
    requires u <= s && v <= t
    ensures Cell(s, t, |u|, |v|) == Lev(u, v)
    decreases |u| + |v|
  {
    if u == [] || v == [] {
    } else {
      CellIsLev(s, t, Init(u), v);
      CellIsLev(s, t, u, Init(v));
      CellIsLev(s, t, Init(u), Init(v));
      assert Last(u) == s[|u| - 1] && Last(v) == t[|v| - 1];
    }
  }

  /** The triangle inequality, by cases on the last step of both optimal edits. */
  lemma {:induction false} LevTriangle(a: Word, b: Word, c: Word)
    ensures Lev(a, c) <= Lev(a, b) + Lev(b, c)
    decreases |a| + |b| + |c|
  {
    LevBounds(a, b);
    LevBounds(b, c);
    LevBounds(a, c);
    if a != [] && b != [] && c != [] {
      LevStep(a, c);
      LevStep(c, a);
      if Lev(a, b) == Lev(Init(a), b) + 1 {
        LevTriangle(Init(a), b, c);
      } else if Lev(b, c) == Lev(b, Init(c)) + 1 {
        LevTriangle(a, b, Init(c));
      } else {
        var insert := Lev(a, b) == Lev(a, Init(b)) + 1;
        var delete := Lev(b, c) == Lev(Init(b), c) + 1;
        if insert && delete {
          LevTriangle(a, Init(b), c);
        } else if insert {
          LevTriangle(a, Init(b), Init(c));
        } else if delete {
          LevTriangle(Init(a), Init(b), c);
        } else {
          LevTriangle(Init(a), Init(b), Init(c));
        }
      }
    }
  }

  lemma {:induction false} LevAppend(s: Word, t: Word, w: Word)
    ensures Lev(s + w, t + w) <= Lev(s, t)
  {
    if w == [] {
      assert s + w == s && t + w == t;
    } else {
      LevAppend(s, t, Init(w));
      assert Init(s + w) == s + Init(w) && Init(t + w) == t + Init(w);
    }
  }

  lemma InsertDistance(u: Word, c: int, w: Word)
    ensures Lev(u + w, u + [c] + w) <= 1 && Lev(u + [c] + w, u + w) <= 1
  {
    LevZeroIffEqual(u, u);
    assert Init(u + [c]) == u;
    LevStep(u + [c], u);
    LevAppend(u, u + [c], w);
    LevAppend(u + [c], u, w);
  }

  lemma SubstituteDistance(u: Word, x: int, y: int, w: Word)
    ensures Lev(u + [x] + w, u + [y] + w) <= 1
  {
    LevZeroIffEqual(u, u);
    assert Init(u + [x]) == u == Init(u + [y]);
    LevAppend(u + [x], u + [y], w);
  }

  lemma OneEditDistance(s: Word, t: Word)
    requires OneEdit(s, t)
    ensures Lev(s, t) <= 1
  {
    if i, c :| InsertAt(s, t, i, c) {
      assert s == s[..i] + s[i..];
      InsertDistance(s[..i], c, s[i..]);
    } else if i :| DeleteAt(s, t, i) {
      assert s == s[..i] + [s[i]] + s[i + 1..];
      InsertDistance(s[..i], s[i], s[i + 1..]);
    } else {
      var i, c :| SubstituteAt(s, t, i, c);
      assert s == s[..i] + [s[i]] + s[i + 1..] && t == s[..i] + [c] + s[i + 1..];
      SubstituteDistance(s[..i], s[i], c, s[i + 1..]);
    }
  }

  /** No chain of edits is shorter than the distance. */
  lemma {:induction false} LevIsLowerBound(chain: seq<Word>, s: Word, t: Word)
    requires EditChain(chain, s, t)
    ensures Lev(s, t) <= |chain| - 1
  {
    if |chain| == 1 {
      LevZeroIffEqual(s, t);
    } else {
      var u := chain[|chain| - 2];
      LevIsLowerBound(chain[..|chain| - 1], s, u);
      assert OneEdit(chain[|chain| - 2], chain[|chain| - 1]);
      OneEditDistance(u, t);
      LevTriangle(s, u, t);
    }
  }

  /** Appending the same character to every word of a chain gives a chain. */
  lemma EditUnderAppend(s: Word, t: Word, x: int)
    requires OneEdit(s, t)
    ensures OneEdit(s + [x], t + [x])
  {
    if i, c :| InsertAt(s, t, i, c) {
      assert (s + [x])[i..] == s[i..] + [x];
      assert InsertAt(s + [x], t + [x], i, c);
    } else if i :| DeleteAt(s, t, i) {
      assert (s + [x])[i + 1..] == s[i + 1..] + [x];
      assert DeleteAt(s + [x], t + [x], i);
    } else {
      var i, c :| SubstituteAt(s, t, i, c);
      assert SubstituteAt(s + [x], t + [x], i, c);
    }
  }

  lemma ChainUnderAppend(chain: seq<Word>, s: Word, t: Word, x: int) returns (r: seq<Word>)
    requires EditChain(chain, s, t)
    ensures EditChain(r, s + [x], t + [x]) && |r| == |chain|
  {
    r := seq(|chain|, k requires 0 <= k < |chain| => chain[k] + [x]);
    forall k | 0 <= k < |r| - 1 ensures OneEdit(r[k], r[k + 1]) {
      EditUnderAppend(chain[k], chain[k + 1], x);
    }
  }

  lemma ChainExtend(chain: seq<Word>, s: Word, t: Word, u: Word) returns (r: seq<Word>)
    requires EditChain(chain, s, t) && OneEdit(t, u)
    ensures EditChain(r, s, u) && |r| == |chain| + 1
  {
    r := chain + [u];
    forall k | 0 <= k < |r| - 1 ensures OneEdit(r[k], r[k + 1]) {
      if k < |chain| - 1 {
        assert OneEdit(chain[k], chain[k + 1]);
      }
    }
  }

  lemma LastEdits(s: Word, t: Word, x: int)
    ensures t != [] ==> OneEdit(Init(t), t)
    ensures OneEdit(t + [x], t)
    ensures t != [] ==> Last(t) == x || OneEdit(Init(t) + [x], t)
    ensures s != [] ==> Init(s) + [Last(s)] == s
    ensures t != [] ==> Init(t) + [Last(t)] == t
  {
    if t != [] {
      assert InsertAt(Init(t), t, |t| - 1, Last(t));
      assert SubstituteAt(Init(t) + [x], t, |t| - 1, Last(t));
    }
    assert DeleteAt(t + [x], t, |t|);
  }

  /** Some chain of edits is as short as the distance. */
  lemma {:induction false} LevIsAttained(s: Word, t: Word) returns (chain: seq<Word>)
    ensures EditChain(chain, s, t) && |chain| - 1 == Lev(s, t)
    decreases |s| + |t|
  {
    hide OneEdit;
    if s == [] && t == [] {
      chain := [s];
    } else if t != [] && Lev(s, t) == Lev(s, Init(t)) + 1 {
      LastEdits(s, t, 0);
      chain := LevIsAttained(s, Init(t));
      chain := ChainExtend(chain, s, Init(t), t);
    } else if s != [] && Lev(s, t) == Lev(Init(s), t) + 1 {
      LastEdits(s, t, Last(s));
      chain := LevIsAttained(Init(s), t);
      chain := ChainUnderAppend(chain, Init(s), t, Last(s));
      chain := ChainExtend(chain, s, t + [Last(s)], t);
    } else {
      LastEdits(s, t, Last(s));
      chain := LevIsAttained(Init(s), Init(t));
      chain := ChainUnderAppend(chain, Init(s), Init(t), Last(s));
      if Last(s) != Last(t) { chain := ChainExtend(chain, s, Init(t) + [Last(s)], t); }
    }
  }

  // ---- The program ----------------------------------------------------------------------

  /** What `Distance` returns: the edit distance of the rune sequences, except that a
      distance from the empty string is a length in bytes. */
  function DistanceSpec(a: Text, b: Text): nat {
    if a == b then 0
    else if a == [] then |b|
    else if b == [] then |a|
    else Lev(Runes(a), Runes(b))
  }

  /** The two-row table: only the row above is kept, and the rows change places. */
  method FillTable(runesA: Word, runesB: Word) returns (d: int)
    ensures d == Cell(runesA, runesB, |runesA|, |runesB|)
  {
    hide Cell;
    hide Min3;
    var lenA, lenB := |runesA|, |runesB|;
    var prev := new int[lenB + 1];
    var curr := new int[lenB + 1];
    for j := 0 to lenB + 1
      invariant forall k :: 0 <= k < j ==> prev[k] == Cell(runesA, runesB, 0, k)
    {
      CellStep(runesA, runesB, 0, j);
      prev[j] := j;
    }
    for i := 1 to lenA + 1
      invariant prev != curr && prev.Length == curr.Length == lenB + 1
      invariant fresh(prev) && fresh(curr)
      invariant forall k {:trigger prev[k]} :: 0 <= k <= lenB ==> prev[k] == Cell(runesA, runesB, i - 1, k)
    {
      CellStep(runesA, runesB, i, 0);
      curr[0] := i;
      for j := 1 to lenB + 1
        invariant forall k {:trigger curr[k]} :: 0 <= k < j ==> curr[k] == Cell(runesA, runesB, i, k)
        invariant forall k {:trigger prev[k]} :: 0 <= k <= lenB ==> prev[k] == Cell(runesA, runesB, i - 1, k)
      {
        var cost := 1;
        if runesA[i - 1] == runesB[j - 1] { cost := 0; }
        CellStep(runesA, runesB, i, j);
        curr[j] := Min3(prev[j] + 1, curr[j - 1] + 1, prev[j - 1] + cost);
      }
      prev, curr := curr, prev;
    }
    return prev[lenB];
  }

  method Distance(a: Text, b: Text) returns (d: int)
    ensures d == DistanceSpec(a, b)
  {
    if a == b { return 0; }
    if |a| == 0 { return |b|; }
    if |b| == 0 { return |a|; }
    var runesA, runesB := Runes(a), Runes(b);
    if |runesA| > |runesB| {
      LevSymmetric(runesA, runesB);
      runesA, runesB := runesB, runesA;
    }
    d := FillTable(runesA, runesB);
    CellIsLev(runesA, runesB, runesA, runesB);
  }

  /** On non-empty text the result is the least number of single-character edits. */
  lemma DistanceIsLeastEdits(a: Text, b: Text)
    requires a != [] && b != []
    ensures exists chain :: EditChain(chain, Runes(a), Runes(b)) && |chain| - 1 == DistanceSpec(a, b)
    ensures forall chain :: EditChain(chain, Runes(a), Runes(b)) ==> DistanceSpec(a, b) <= |chain| - 1
  {
    LevZeroIffEqual(Runes(a), Runes(b));
    var chain := LevIsAttained(Runes(a), Runes(b));
    forall chain | EditChain(chain, Runes(a), Runes(b)) ensures DistanceSpec(a, b) <= |chain| - 1 {
      LevIsLowerBound(chain, Runes(a), Runes(b));
    }
  }

  /** Symmetry, identity and the upper bound hold of all text, the empty string and
      ill-formed UTF-8 included; distance zero means equal runes. */
  lemma DistanceLaws(a: Text, b: Text)
    ensures DistanceSpec(a, a) == 0
    ensures DistanceSpec(a, b) == DistanceSpec(b, a)
    ensures DistanceSpec(a, b) <= Max(|a|, |b|)
    ensures DistanceSpec(a, b) == 0 <==> Runes(a) == Runes(b)
  {
    LevSymmetric(Runes(a), Runes(b));
    LevBounds(Runes(a), Runes(b));
    LevZeroIffEqual(Runes(a), Runes(b));
  }

  // ---- The triangle law, and exactly where the byte lengths break it ----------------------

  ghost predicate TriangleThroughAll(a: Text, c: Text) {
    forall b: Text :: DistanceSpec(a, c) <= DistanceSpec(a, b) + DistanceSpec(b, c)
  }

  /** One rune a byte, or a single two-byte rune. */
  predicate NarrowText(s: Text) { |s| == |Runes(s)| || (|s| == 2 && |Runes(s)| == 1) }

  lemma TriangleNonEmpty(a: Text, b: Text, c: Text)
    requires a != [] && c != []
    ensures DistanceSpec(a, c) <= DistanceSpec(a, b) + DistanceSpec(b, c)
  {
    if b == [] {
      DistanceLaws(a, c);
    } else {
      LevTriangle(Runes(a), Runes(b), Runes(c));
      LevZeroIffEqual(Runes(a), Runes(b));
      LevZeroIffEqual(Runes(b), Runes(c));
    }
  }

  lemma TriangleNarrow(b: Text, c: Text)
    requires c != [] && NarrowText(c)
    ensures |c| <= DistanceSpec([], b) + DistanceSpec(b, c)
  {
    if b != [] && b != c {
      LevBounds(Runes(b), Runes(c));
      if |c| != |Runes(c)| && |b| == 1 {
        LevZeroIffEqual(Runes(b), Runes(c));
        assert Runes(c)[0] == Rune(c) && Width(c) == 2;
        assert Runes(b)[0] == Rune(b) && Width(b) == 1;
      }
    }
  }

  /** A word at least as long as one of its letters is nearer to that letter than to nothing. */
  lemma LetterDistance(x: int, s: Word)
    requires x in s
    ensures Lev([x], s) <= |s| - 1
    decreases |s|
  {
    if Last(s) == x {
      assert Init([x]) == [];
    } else {
      LetterDistance(x, Init(s));
    }
  }

  lemma TriangleWide(c: Text) returns (b: Text)
    requires !NarrowText(c)
    ensures DistanceSpec([], b) + DistanceSpec(b, c) < |c|
  {
    var r := Runes(c);
    if |c| < 2 * |r| {
      var x := SingleByteRune(c);
      b := [x];
      LetterDistance(Runes(b)[0], r);
    } else {
      b := [0x78];
      assert |Runes(b)| == 1;
      LevBounds(Runes(b), r);
    }
  }

  /** The documented triangle law holds between `a` and `c` through every third string
      exactly when neither is empty, or the other one has at most narrow text. */
  lemma TriangleExactly(a: Text, c: Text)
    ensures TriangleThroughAll(a, c)
       <==> (a != [] && c != []) || (a == [] && NarrowText(c)) || (c == [] && NarrowText(a))
  {
    if a != [] && c != [] {
      forall b: Text ensures DistanceSpec(a, c) <= DistanceSpec(a, b) + DistanceSpec(b, c) { TriangleNonEmpty(a, b, c); }
    } else {
      var s := if a == [] then c else a;
      forall b: Text
        ensures DistanceSpec(a, c) == |s|
        ensures DistanceSpec(a, b) + DistanceSpec(b, c) == DistanceSpec([], b) + DistanceSpec(b, s)
      {
        DistanceLaws(a, b);
        DistanceLaws(b, c);
      }
      if NarrowText(s) {
        forall b: Text ensures |s| <= DistanceSpec([], b) + DistanceSpec(b, s) {
          if s != [] { TriangleNarrow(b, s); }
        }
      } else {
        var b := TriangleWide(s);
        assert !(DistanceSpec(a, c) <= DistanceSpec(a, b) + DistanceSpec(b, c));
      }
    }
  }
}
