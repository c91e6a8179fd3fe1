/**
  internal/export/export.go, escapeLatex: ten replacements one after the other amount to one
  substitution of single characters, which can be undone.
 */
module EscapeLatex {

  /** strings.ReplaceAll for an old string of one character. */
  function ReplaceAll(s: string, old1: char, new1: string): string {
    if s == [] then [] else (if s[0] == old1 then new1 else [s[0]]) + ReplaceAll(s[1..], old1, new1)
  }

  const REPLACEMENTS: seq<(char, string)> := [
    ('\\', "\\textbackslash{}"),
    ('{', "\\{"),
    ('}', "\\}"),
    ('$', "\\$"),
    ('&', "\\&"),
    ('%', "\\%"),
    ('#', "\\#"),
    ('_', "\\_"),
    ('~', "\\textasciitilde{}"),
    ('^', "\\textasciicircum{}")
  ]

  type Table = seq<(char, string)>

  /** The replacements of a table from number i on, in order. */
  function ReplaceFrom(t: Table, s: string, i: nat): string
    requires i <= |t|
    decreases |t| - i
  {
    if i == |t| then s else ReplaceFrom(t, ReplaceAll(s, t[i].0, t[i].1), i + 1)
  }

  /** What one character becomes. The braces that come with a backslash are escaped by the later replacements. */
  function Code(c: char): string {
    match c
    case '\\' => "\\textbackslash\\{\\}"
    case '~' => "\\textasciitilde{}"
    case '^' => "\\textasciicircum{}"
    case _ => if c in "{}$&%#_" then ['\\', c] else [c]
  }

  function Escape(s: string): string { if s == [] then [] else Code(s[0]) + Escape(s[1..]) }

  lemma {:induction false} ReplaceConcat(a: string, b: string, old1: char, new1: string)
    ensures ReplaceAll(a + b, old1, new1) == ReplaceAll(a, old1, new1) + ReplaceAll(b, old1, new1)
  {
    if a == [] {
      assert a + b == b;
    } else {
      assert (a + b)[1..] == a[1..] + b;
      ReplaceConcat(a[1..], b, old1, new1);
    }
  }

  lemma {:induction false} ReplaceAbsent(s: string, old1: char, new1: string)
    requires old1 !in s
    ensures ReplaceAll(s, old1, new1) == s
  {
    if s != [] { ReplaceAbsent(s[1..], old1, new1); }
  }

  lemma {:induction false} ReplaceFromConcat(t: Table, a: string, b: string, i: nat)
    requires i <= |t|
    ensures ReplaceFrom(t, a + b, i) == ReplaceFrom(t, a, i) + ReplaceFrom(t, b, i)
    decreases |t| - i
  {
    if i < |t| {
      var (o, n) := t[i];
      ReplaceConcat(a, b, o, n);
      ReplaceFromConcat(t, ReplaceAll(a, o, n), ReplaceAll(b, o, n), i + 1);
    }
  }

  /** Text without any of the characters still to be replaced stays. */
  lemma {:induction false} ReplaceFromAbsent(t: Table, s: string, i: nat)
    requires i <= |t| && forall k :: i <= k < |t| ==> t[k].0 !in s
    ensures ReplaceFrom(t, s, i) == s
    decreases |t| - i
  {
    if i < |t| {
      ReplaceAbsent(s, t[i].0, t[i].1);
      ReplaceFromAbsent(t, s, i + 1);
    }
  }

  /** A single character passes through the replacements of others and becomes what its own puts there. */
  lemma {:induction false} ReplaceFromHit(t: Table, c: char, i: nat, j: nat)
    requires i <= j < |t| && t[j].0 == c && forall k :: i <= k < j ==> t[k].0 != c
    ensures ReplaceFrom(t, [c], i) == ReplaceFrom(t, t[j].1, j + 1)
    decreases j - i
  {
    if i < j {
      assert ReplaceAll([c], t[i].0, t[i].1) == [c];
      ReplaceFromHit(t, c, i + 1, j);
    } else {
      assert ReplaceAll([c], c, t[j].1) == t[j].1 + [] == t[j].1;
    }
  }

  lemma BackslashCode()
    ensures ReplaceFrom(REPLACEMENTS, ['\\'], 0) == Code('\\')
  {
    hide ReplaceFrom;
    var t := REPLACEMENTS;
    var word, open, close := "\\textbackslash", ['{'], ['}'];
    ReplaceFromHit(t, '\\', 0, 0);
    assert t[0].1 == word + (open + close);
    ReplaceFromConcat(t, word, open + close, 1);
    ReplaceFromAbsent(t, word, 1);
    ReplaceFromConcat(t, open, close, 1);
    ReplaceFromHit(t, '{', 1, 1);
    ReplaceFromAbsent(t, "\\{", 2);
    ReplaceFromHit(t, '}', 1, 2);
    ReplaceFromAbsent(t, "\\}", 3);
    assert word + ("\\{" + "\\}") == Code('\\');
  }

  lemma SpecialCode(i: nat)
    requires 1 <= i < |REPLACEMENTS|
    ensures ReplaceFrom(REPLACEMENTS, [REPLACEMENTS[i].0], 0) == Code(REPLACEMENTS[i].0)
  {
    hide ReplaceFrom;
    var t := REPLACEMENTS;
    ReplaceFromHit(t, t[i].0, 0, i);
    ReplaceFromAbsent(t, t[i].1, i + 1);
  }

  lemma CharacterCode(c: char)
    ensures ReplaceFrom(REPLACEMENTS, [c], 0) == Code(c)
  {
    if c == '\\' {
      BackslashCode();
    } else if i :| 1 <= i < |REPLACEMENTS| && REPLACEMENTS[i].0 == c {
      SpecialCode(i);
    } else {
      PlainCode(c);
    }
  }

  lemma PlainCode(c: char)
    requires forall i :: 0 <= i < |REPLACEMENTS| ==> REPLACEMENTS[i].0 != c
    ensures ReplaceFrom(REPLACEMENTS, [c], 0) == [c] == Code(c)
  {
    ReplaceFromAbsent(REPLACEMENTS, [c], 0);
    assert REPLACEMENTS[0].0 != c && REPLACEMENTS[1].0 != c && REPLACEMENTS[2].0 != c && REPLACEMENTS[3].0 != c;
    assert REPLACEMENTS[4].0 != c && REPLACEMENTS[5].0 != c && REPLACEMENTS[6].0 != c && REPLACEMENTS[7].0 != c;
    assert REPLACEMENTS[8].0 != c && REPLACEMENTS[9].0 != c;
  }

  /** The replacements in sequence are one substitution. */
  lemma {:induction false} SequentialIsSimultaneous(s: string)
    ensures ReplaceFrom(REPLACEMENTS, s, 0) == Escape(s)
  {
    if s == [] {
      ReplaceFromAbsent(REPLACEMENTS, s, 0);
    } else {
      assert s == [s[0]] + s[1..];
      ReplaceFromConcat(REPLACEMENTS, [s[0]], s[1..], 0);
      CharacterCode(s[0]);
      SequentialIsSimultaneous(s[1..]);
    }
  }

  method Escaped(s: string) returns (result: string)
    ensures result == Escape(s)
  {
    result := s;
    for i := 0 to |REPLACEMENTS|
      invariant ReplaceFrom(REPLACEMENTS, result, i) == ReplaceFrom(REPLACEMENTS, s, 0)
    {
      result := ReplaceAll(result, REPLACEMENTS[i].0, REPLACEMENTS[i].1);
    }
    SequentialIsSimultaneous(s);
  }

  lemma {:induction false} EscapeConcat(a: string, b: string)
    ensures Escape(a + b) == Escape(a) + Escape(b)
  {
    if a == [] {
      assert a + b == b;
    } else {
      assert (a + b)[1..] == a[1..] + b;
      EscapeConcat(a[1..], b);
    }
  }

  /** No character's code begins another's. */
  lemma PrefixCode(c: char, d: char)
    requires Code(c) <= Code(d)
    ensures c == d
  {
    assert Code(c)[0] == Code(d)[0];
    if |Code(c)| == 1 {
    } else if |Code(c)| == 2 {
      assert Code(c)[1] == Code(d)[1];
    } else {
      assert Code(c)[1] == Code(d)[1] && Code(c)[5] == Code(d)[5] && Code(c)[10] == Code(d)[10];
    }
  }

  lemma CodesAgree(c: char, d: char, u: string, v: string)
    requires Code(c) + u == Code(d) + v
    ensures c == d && u == v
  {
    if |Code(c)| <= |Code(d)| {
      assert Code(c) == (Code(c) + u)[..|Code(c)|] == (Code(d) + v)[..|Code(c)|] == Code(d)[..|Code(c)|];
      PrefixCode(c, d);
    } else {
      assert Code(d) == (Code(d) + v)[..|Code(d)|] == (Code(c) + u)[..|Code(d)|] == Code(c)[..|Code(d)|];
      PrefixCode(d, c);
    }
    assert u == (Code(c) + u)[|Code(c)|..] && v == (Code(d) + v)[|Code(d)|..];
  }

  lemma EmptyEscape(s: string)
    ensures Escape(s) == [] ==> s == []
  {
    if s != [] { assert |Code(s[0])| >= 1; }
  }

  /** Different texts stay different. */
  lemma {:induction false} EscapeInjective(s: string, t: string)
    requires Escape(s) == Escape(t)
    ensures s == t
  {
    if s == [] || t == [] {
      EmptyEscape(s);
      EmptyEscape(t);
    } else {
      CodesAgree(s[0], t[0], Escape(s[1..]), Escape(t[1..]));
      EscapeInjective(s[1..], t[1..]);
      assert s == [s[0]] + s[1..] && t == [t[0]] + t[1..];
    }
  }

  /** Position i holds no character that LaTeX would act on there. */
  predicate Neutralised(r: string, i: nat) requires i < |r| {
    r[i] !in "~^" && (r[i] in "$&%#_" ==> i > 0 && r[i - 1] == '\\')
  }

  /** In the escaped text no tilde or circumflex is left, and the other five stand behind a backslash. */
  lemma {:induction false} NothingActiveLeft(s: string)
    ensures forall i :: 0 <= i < |Escape(s)| ==> Neutralised(Escape(s), i)
  {
    if s != [] {
      var head, tail := Code(s[0]), Escape(s[1..]);
      NothingActiveLeft(s[1..]);
      CodeNeutral(s[0]);
      forall i | 0 <= i < |Escape(s)| ensures Neutralised(Escape(s), i) {
        if i < |head| { assert Neutralised(head, i); } else { assert Neutralised(tail, i - |head|); }
      }
    }
  }

  lemma CodeNeutral(c: char)
    ensures forall i :: 0 <= i < |Code(c)| ==> Neutralised(Code(c), i)
  {
  }

  // ---- What LaTeX prints ---------------------------------------------------------------------------------------

  predicate IsLetter(c: char) { 'a' <= c <= 'z' || 'A' <= c <= 'Z' }

  /** The letters in front: the name of a command. */
  function Name(s: string): string { if s == [] || !IsLetter(s[0]) then [] else [s[0]] + Name(s[1..]) }

  lemma {:induction false} NameLength(s: string)
    ensures |Name(s)| <= |s|
  {
    if s != [] { NameLength(s[1..]); }
  }

  lemma {:induction false} NameIs(word: string, rest: string)
    requires forall i :: 0 <= i < |word| ==> IsLetter(word[i])
    requires rest != [] && !IsLetter(rest[0])
    ensures Name(word + rest) == word
  {
    if word == [] {
      assert word + rest == rest;
    } else {
      assert (word + rest)[1..] == word[1..] + rest;
      NameIs(word[1..], rest);
    }
  }

  /** The character that a command stands for. */
  function Symbol(name: string): string {
    if name == "textbackslash" then "\\"
    else if name == "textasciitilde" then "~"
    else if name == "textasciicircum" then "^"
    else ""
  }

  /** What is printed: a command prints its symbol; a backslash before another character prints that character; braces only group,
      and the other characters with a meaning of their own do not print as themselves. */
  function Render(r: string): string {
    if r == [] then []
    else if r[0] == '\\' then
      if |r| == 1 then []
      else if IsLetter(r[1]) then
        NameLength(r[1..]);
        Symbol(Name(r[1..])) + Render(r[1 + |Name(r[1..])|..])
      else [r[1]] + Render(r[2..])
    else (if r[0] in "{}$&%#_~^" then [] else [r[0]]) + Render(r[1..])
  }

  /** The text with every backslash followed by braces. */
  function WithBraces(s: string): string {
    if s == [] then [] else (if s[0] == '\\' then "\\{}" else [s[0]]) + WithBraces(s[1..])
  }

  lemma RenderCommand(word: string, rest: string)
    requires word != [] && (forall i :: 0 <= i < |word| ==> IsLetter(word[i])) && rest != [] && !IsLetter(rest[0])
    ensures Render(['\\'] + word + rest) == Symbol(word) + Render(rest)
  {
    var r := ['\\'] + word + rest;
    assert r[1..] == word + rest;
    NameIs(word, rest);
    assert r[1 + |word|..] == rest;
  }

  lemma RenderPair(c: char, rest: string)
    requires !IsLetter(c)
    ensures Render(['\\', c] + rest) == [c] + Render(rest)
  {
    assert (['\\', c] + rest)[2..] == rest;
  }

  lemma RenderGroup(rest: string)
    ensures Render("{}" + rest) == Render(rest)
  {
    assert ("{}" + rest)[1..] == ['}'] + rest && (['}'] + rest)[1..] == rest;
  }

  lemma RenderBraces(rest: string)
    ensures Render(['\\', '{', '\\', '}'] + rest) == "{}" + Render(rest)
  {
    hide Render;
    var close := ['\\', '}'] + rest;
    assert ['\\', '{', '\\', '}'] + rest == ['\\', '{'] + close;
    RenderPair('{', close);
    RenderPair('}', rest);
    assert ['{'] + (['}'] + Render(rest)) == "{}" + Render(rest);
  }

  lemma BackslashIs()
    ensures Code('\\') == ['\\'] + "textbackslash" + ['\\', '{', '\\', '}'] && Symbol("textbackslash") == "\\"
  {
  }

  lemma RenderBackslash(rest: string)
    ensures Render(Code('\\') + rest) == "\\{}" + Render(rest)
  {
    hide Render;
    hide Code;
    hide Symbol;
    var word, braces := "textbackslash", ['\\', '{', '\\', '}'];
    BackslashIs();
    assert ['\\'] + word + braces + rest == ['\\'] + word + (braces + rest);
    RenderCommand(word, braces + rest);
    RenderBraces(rest);
    assert "\\" + ("{}" + Render(rest)) == "\\{}" + Render(rest);
  }

  /** A command with an empty group behind it. */
  lemma RenderNamed(word: string, rest: string)
    requires word != [] && forall i :: 0 <= i < |word| ==> IsLetter(word[i])
    ensures Render(['\\'] + word + "{}" + rest) == Symbol(word) + Render(rest)
  {
    hide Render;
    RenderCommand(word, "{}" + rest);
    RenderGroup(rest);
    assert ['\\'] + word + "{}" + rest == ['\\'] + word + ("{}" + rest);
  }

  lemma RenderCode(c: char, rest: string)
    ensures Render(Code(c) + rest) == (if c == '\\' then "\\{}" else [c]) + Render(rest)
  {
    hide Render;
    if c == '\\' {
      RenderBackslash(rest);
    } else if c == '~' {
      RenderNamed("textasciitilde", rest);
      assert Code(c) == ['\\'] + "textasciitilde" + "{}";
    } else if c == '^' {
      RenderNamed("textasciicircum", rest);
      assert Code(c) == ['\\'] + "textasciicircum" + "{}";
    } else if c in "{}$&%#_" {
      RenderPair(c, rest);
    } else {
      RenderPlain(c, rest);
    }
  }

  lemma RenderPlain(c: char, rest: string)
    requires c !in "\\{}$&%#_~^"
    ensures Render([c] + rest) == [c] + Render(rest)
  {
    assert c != '\\' by { assert "\\{}$&%#_~^"[0] == '\\'; }
    assert c !in "{}$&%#_~^" by { assert "\\{}$&%#_~^" == "\\" + "{}$&%#_~^"; }
    assert ([c] + rest)[1..] == rest;
  }

  /** What LaTeX prints of the escaped text is the text with braces behind every backslash. */
  lemma {:induction false} RenderEscaped(s: string)
    ensures Render(Escape(s)) == WithBraces(s)
  {
    if s != [] {
      RenderCode(s[0], Escape(s[1..]));
      RenderEscaped(s[1..]);
    }
  }

  lemma {:induction false} WithBracesLength(s: string)
    ensures |WithBraces(s)| >= |s| && (|WithBraces(s)| == |s| <==> '\\' !in s)
    ensures '\\' !in s ==> WithBraces(s) == s
  {
    if s != [] { WithBracesLength(s[1..]); }
  }

  /** So the text prints as it is exactly if there is no backslash in it. */
  lemma PrintsExactly(s: string)
    ensures Render(Escape(s)) == s <==> '\\' !in s
  {
    RenderEscaped(s);
    WithBracesLength(s);
  }
}
