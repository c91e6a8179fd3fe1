/**
  internal/fuzzy/match.go: what the answer to a mistyped word is, in terms of the word and the candidates alone.
 */
module FuzzyAnswers {
  import opened GoText
  import opened Levenshtein
  import opened Lexicographic
  import opened Sorting
  import opened FuzzyMatch

  // ---- Which candidate is taken -------------------------------------------------------------------------

  /** For up to three bytes a candidate that starts with the input comes before one that does not; else the nearer one comes
      first, and of equally near ones the first in the order of texts. */
  ghost predicate Before(input: Text, a: Text, b: Text) {
    if |input| <= 3 && (input <= a) != (input <= b) then input <= a
    else
      DistanceSpec(input, a) < DistanceSpec(input, b) || (DistanceSpec(input, a) == DistanceSpec(input, b) && Leq(a, b))
  }

  ghost predicate Best(input: Text, candidates: seq<Text>, c: Text) {
    c in candidates && forall o :: o in candidates ==> Before(input, c, o)
  }

  function MaxLen(a: Text, b: Text): nat { if |a| < |b| then |b| else |a| }

  /** The similarity of input and c is at least t. */
  ghost predicate Similar(input: Text, c: Text, t: real) {
    (DistanceSpec(input, c) as real) <= (1.0 - t) * (MaxLen(input, c) as real)
  }

  lemma Scale(q: real, r: real, n: real)
    requires n > 0.0
    ensures q <= r <==> q * n <= r * n
  {
    if q <= r { assert (r - q) * n >= 0.0; } else { assert (q - r) * n > 0.0; }
  }

  lemma AtLeast(d: int, m: int, t: real)
    requires m > 0
    ensures 1.0 - (d as real) / (m as real) >= t <==> (d as real) <= (1.0 - t) * (m as real)
  {
    var q, n := (d as real) / (m as real), m as real;
    assert q * n == d as real;
    Scale(q, 1.0 - t, n);
  }

  lemma SimilarityAtLeast(input: Text, c: Text, t: real)
    requires input != []
    ensures Similarity(input, Score(c, DistanceSpec(input, c))) >= t <==> Similar(input, c, t)
  {
    hide DistanceSpec;
    AtLeast(DistanceSpec(input, c), MaxLen(input, c), t);
  }

  lemma BeforeIsOrder(input: Text, a: Text, b: Text)
    ensures ScoreLeq(input, Score(a, DistanceSpec(input, a)), Score(b, DistanceSpec(input, b))) <==> Before(input, a, b)
  {
    hide DistanceSpec;
    hide Leq;
  }

  /** There is exactly one best candidate. */
  lemma BestIsFirst(input: Text, candidates: seq<Text>, c: Text)
    requires candidates != []
    ensures Ranked(input, candidates) != []
    ensures Best(input, candidates, c) <==> Ranked(input, candidates)[0] == Score(c, DistanceSpec(input, c))
  {
    RankedMembers(input, candidates);
    OrderIsTotal(input);
    hide DistanceSpec;
    hide Before;
    hide ScoreLeq;
    var ranked := Ranked(input, candidates);
    hide Ranked;
    var first, mine := ranked[0], Score(c, DistanceSpec(input, c));
    assert first in ranked;
    if first == mine {
      forall o | o in candidates ensures Before(input, c, o) {
        var other := Score(o, DistanceSpec(input, o));
        LeastComesFirst(Order(input), ranked, other);
        BeforeIsOrder(input, c, o);
      }
    }
    if Best(input, candidates, c) {
      LeastComesFirst(Order(input), ranked, mine);
      BeforeIsOrder(input, c, first.candidate);
      assert Order(input)(first, mine) && Order(input)(mine, first);
    }
  }

  // ---- Suggestions -------------------------------------------------------------------------------------------

  /** At most three bytes more than the input has away, and similar enough. */
  ghost predicate Suggestible(input: Text, c: Text, threshold: real) {
    && DistanceSpec(input, c) <= |input| + 3
    && Similar(input, c, if threshold < 0.6 then 0.1 else threshold - 0.5)
  }

  lemma SuggestsExactly(input: Text, c: Text, threshold: real)
    requires input != []
    ensures Suggests(input, threshold, Score(c, DistanceSpec(input, c))) <==> Suggestible(input, c, threshold)
  {
    hide DistanceSpec;
    SimilarityAtLeast(input, c, SuggestionThreshold(threshold));
  }

  /** Scores that have the distances they should have. */
  ghost predicate RightScores(input: Text, scores: seq<Score>) {
    forall i :: 0 <= i < |scores| ==> scores[i].distance == DistanceSpec(input, scores[i].candidate)
  }

  lemma {:induction false} SuggestionsCount(input: Text, threshold: real, scores: seq<Score>, c: Text)
    requires input != [] && RightScores(input, scores)
    ensures multiset(Suggestions(input, threshold, scores))[c] ==
      if Suggestible(input, c, threshold) then multiset(scores)[Score(c, DistanceSpec(input, c))] else 0
  {
    hide DistanceSpec;
    hide Suggests;
    hide Suggestible;
    if scores != [] {
      var init, last := scores[..|scores| - 1], scores[|scores| - 1];
      assert scores == init + [last];
      SuggestionsCount(input, threshold, init, c);
      SuggestsExactly(input, c, threshold);
      SuggestsExactly(input, last.candidate, threshold);
    }
  }

  ghost predicate InOrder(input: Text, list: seq<Text>) {
    forall i, j :: 0 <= i < j < |list| ==> Before(input, list[i], list[j])
  }

  lemma {:induction false} SuggestionsInOrder(input: Text, threshold: real, scores: seq<Score>)
    requires input != [] && RightScores(input, scores) && Sorted(Order(input), scores)
    ensures InOrder(input, Suggestions(input, threshold, scores))
  {
    hide DistanceSpec;
    hide Suggests;
    hide ScoreLeq;
    hide Before;
    if scores != [] {
      var init, last := scores[..|scores| - 1], scores[|scores| - 1];
      SuggestionsInOrder(input, threshold, init);
      var list := Suggestions(input, threshold, init);
      forall i | 0 <= i < |list| ensures Before(input, list[i], last.candidate) {
        assert list[i] in multiset(list);
        SuggestionsCount(input, threshold, init, list[i]);
        var s := Score(list[i], DistanceSpec(input, list[i]));
        assert s in multiset(init);
        var k :| 0 <= k < |init| && init[k] == s;
        assert Order(input)(scores[k], scores[|scores| - 1]);
        BeforeIsOrder(input, list[i], last.candidate);
      }
    }
  }

  ghost predicate TwoStartWith(list: seq<Text>, input: Text) {
    exists i, j :: 0 <= i < j < |list| && input <= list[i] && input <= list[j]
  }

  lemma {:induction false} CountPrefixedExactly(list: seq<Text>, input: Text)
    ensures CountPrefixed(list, input) > 0 <==> exists i :: 0 <= i < |list| && input <= list[i]
    ensures CountPrefixed(list, input) > 1 <==> TwoStartWith(list, input)
  {
    if list != [] {
      var init, last := list[..|list| - 1], list[|list| - 1];
      CountPrefixedExactly(init, input);
      assert forall i :: 0 <= i < |init| ==> init[i] == list[i];
      if i :| 0 <= i < |init| && input <= init[i] {
        assert input <= list[i];
        if input <= last { assert TwoStartWith(list, input); }
      }
      if TwoStartWith(list, input) {
        var i, j :| 0 <= i < j < |list| && input <= list[i] && input <= list[j];
        assert input <= init[i];
        if j < |init| { assert TwoStartWith(init, input); }
      }
      if TwoStartWith(init, input) {
        var i, j :| 0 <= i < j < |init| && input <= init[i] && input <= init[j];
        assert input <= list[i] && input <= list[j];
      }
    }
  }

  // ---- The answer --------------------------------------------------------------------------------------------

  /** The whole answer. There is a match exactly if the best candidate starts with an input of up to three bytes, or has
      a similarity of at least 0.3. It is put in place of the input exactly if its similarity reaches the threshold, or it starts
      with such a short input and the threshold is at most one half; but never if two suggestions start with that short input. */
  lemma Answer(input: Text, candidates: seq<Text>, threshold: real, c: Text)
    requires input != [] && Best(input, candidates, c)
    ensures
      var r, starts := MatchSpec(input, candidates, threshold), |input| <= 3 && input <= c;
      if starts || Similar(input, c, 0.3) then
        && r.input == input && r.match_ == c && r.distance == DistanceSpec(input, c)
        && (r.autoCorrect <==>
              && (Similar(input, c, threshold) || (starts && threshold <= 0.5))
              && !(|input| <= 3 && TwoStartWith(r.suggestions, input)))
      else r == MatchResult(input, [], 0, false, [])
  {
    hide DistanceSpec;
    hide Similarity;
    hide Similar;
    BestIsFirst(input, candidates, c);
    hide Best;
    SimilarityAtLeast(input, c, 0.3);
    SimilarityAtLeast(input, c, threshold);
    var ranked := Ranked(input, candidates);
    hide Ranked;
    var suggestions := Suggestions(input, threshold, ranked);
    CountPrefixedExactly(suggestions, input);
    if |input| <= 3 && TwoStartWith(suggestions, input) { TwoStartSoDoesBest(input, candidates, threshold, c); }
  }

  /** Nothing is matched by nothing, or among no candidates. */
  lemma NothingToMatch(input: Text, candidates: seq<Text>, threshold: real)
    requires input == [] || candidates == []
    ensures MatchSpec(input, candidates, threshold) == MatchResult(input, [], 0, false, [])
  {
  }

  lemma TwoStartSoDoesBest(input: Text, candidates: seq<Text>, threshold: real, c: Text)
    requires input != [] && |input| <= 3 && Ranked(input, candidates) != []
    requires Ranked(input, candidates)[0] == Score(c, DistanceSpec(input, c))
    requires TwoStartWith(Suggestions(input, threshold, Ranked(input, candidates)), input)
    ensures input <= c
  {
    var ranked := Ranked(input, candidates);
    var list := Suggestions(input, threshold, ranked);
    var i, j :| 0 <= i < j < |list| && input <= list[i] && input <= list[j];
    RankedMembers(input, candidates);
    RankedIsRight(input, candidates);
    hide DistanceSpec;
    hide Ranked;
    assert list[i] in multiset(list);
    SuggestionsCount(input, threshold, ranked, list[i]);
    var s := Score(list[i], DistanceSpec(input, list[i]));
    assert s in multiset(ranked);
    OrderIsTotal(input);
    LeastComesFirst(Order(input), ranked, s);
  }

  lemma RankedIsRight(input: Text, candidates: seq<Text>)
    ensures RightScores(input, Ranked(input, candidates))
  {
    RankedMembers(input, candidates);
    hide DistanceSpec;
    var ranked := Ranked(input, candidates);
    forall i | 0 <= i < |ranked| ensures ranked[i].distance == DistanceSpec(input, ranked[i].candidate) {
      assert ranked[i] in ranked;
    }
  }

  lemma SomeBest(input: Text, candidates: seq<Text>) returns (c: Text)
    requires candidates != []
    ensures Best(input, candidates, c)
  {
    RankedMembers(input, candidates);
    RankedIsRight(input, candidates);
    hide DistanceSpec;
    c := Ranked(input, candidates)[0].candidate;
    BestIsFirst(input, candidates, c);
  }

  lemma EmptyIsUnlike(input: Text)
    requires input != []
    ensures !Similar(input, [], 0.3)
  {
  }

  /** For more than three bytes: put in place of the input exactly if there is a match and it is near enough. */
  lemma CorrectedExactly(input: Text, candidates: seq<Text>, threshold: real)
    requires |input| > 3
    ensures
      var r := MatchSpec(input, candidates, threshold);
      r.autoCorrect <==> r.match_ != [] && (r.distance as real) <= (1.0 - threshold) * (MaxLen(input, r.match_) as real)
  {
    hide DistanceSpec;
    if candidates != [] {
      hide MatchSpec;
      hide Best;
      var c := SomeBest(input, candidates);
      Answer(input, candidates, threshold, c);
      EmptyIsUnlike(input);
    }
  }

  lemma RankedCount(input: Text, candidates: seq<Text>, c: Text)
    ensures multiset(Ranked(input, candidates))[Score(c, DistanceSpec(input, c))] == multiset(candidates)[c]
  {
    hide DistanceSpec;
    hide Scores;
    hide Sort;
    ScoresCount(input, candidates, Score(c, DistanceSpec(input, c)));
    OrderIsTotal(input);
    SortIsSortedPermutation(Order(input), Scores(input, candidates));
  }

  lemma MatchSuggests(input: Text, candidates: seq<Text>, threshold: real)
    requires MatchSpec(input, candidates, threshold).match_ != []
    ensures input != []
    ensures MatchSpec(input, candidates, threshold).suggestions == Suggestions(input, threshold, Ranked(input, candidates))
  {
    hide DistanceSpec;
    hide Ranked;
    hide Suggestions;
    hide Similarity;
  }

  /** With a match, the suggestions are exactly the candidates near and similar enough, each as often as it was given, the best
      first. */
  lemma SuggestionsExactly(input: Text, candidates: seq<Text>, threshold: real, c: Text)
    requires MatchSpec(input, candidates, threshold).match_ != []
    ensures
      var list := MatchSpec(input, candidates, threshold).suggestions;
      && multiset(list)[c] == (if Suggestible(input, c, threshold) then multiset(candidates)[c] else 0)
      && InOrder(input, list)
  {
    hide *;
    MatchSuggests(input, candidates, threshold);
    RankedMembers(input, candidates);
    RankedIsRight(input, candidates);
    RankedCount(input, candidates, c);
    var ranked := Ranked(input, candidates);
    SuggestionsCount(input, threshold, ranked, c);
    SuggestionsInOrder(input, threshold, ranked);
  }

  /** An input of more than three bytes that is itself a candidate is put in its place at every threshold up to 1. */
  lemma ExactInputCorrected(input: Text, candidates: seq<Text>, threshold: real)
    requires |input| > 3 && input in candidates && threshold <= 1.0
    ensures MatchSpec(input, candidates, threshold).autoCorrect && MatchSpec(input, candidates, threshold).distance == 0
  {
    RankedMembers(input, candidates);
    RankedIsRight(input, candidates);
    DistanceLaws(input, input);
    hide DistanceSpec;
    hide Similar;
    var first := Ranked(input, candidates)[0];
    var c := first.candidate;
    BestIsFirst(input, candidates, c);
    DistanceLaws(input, c);
    assert Before(input, c, input);
    AlwaysSimilar(input, c, 0.3);
    AlwaysSimilar(input, c, threshold);
    Answer(input, candidates, threshold, c);
  }

  lemma NotNegative(a: real, b: real)
    requires a >= 0.0 && b >= 0.0
    ensures a * b >= 0.0
  {
  }

  lemma AlwaysSimilar(input: Text, c: Text, t: real)
    requires DistanceSpec(input, c) == 0 && t <= 1.0
    ensures Similar(input, c, t)
  {
    hide DistanceSpec;
    NotNegative(1.0 - t, MaxLen(input, c) as real);
  }
}
