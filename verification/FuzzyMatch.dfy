/**
  internal/fuzzy/match.go: the best match for a mistyped word among candidates. Similarities are real numbers.
 */
module FuzzyMatch {
  import opened GoText
  import opened Levenshtein
  import opened Lexicographic
  import opened Sorting

  datatype Score = Score(candidate: Text, distance: int)

  datatype MatchResult = MatchResult(input: Text, match_: Text, distance: int, autoCorrect: bool, suggestions: seq<Text>)

  // ---- The ranking ---------------------------------------------------------------------------------

  predicate HasPrefix(s: Text, prefix: Text) { prefix <= s }

  predicate IsShort(input: Text) { |input| <= 3 }

  /** For a short input, candidates that start with it come first. */
  function PrefixRank(input: Text, s: Score): int { if IsShort(input) && !HasPrefix(s.candidate, input) then 1 else 0 }

  /** The comparison of the sort, then distance, then the candidates' own order. */
  predicate ScoreLeq(input: Text, a: Score, b: Score) {
    if PrefixRank(input, a) != PrefixRank(input, b) then PrefixRank(input, a) < PrefixRank(input, b)
    else if a.distance != b.distance then a.distance < b.distance
    else Leq(a.candidate, b.candidate)
  }

  function Order(input: Text): (Score, Score) -> bool { (a, b) => ScoreLeq(input, a, b) }

  lemma OrderIsTotal(input: Text)
    ensures TotalOrder(Order(input))
  {
    hide PrefixRank;
    hide Leq;
    var leq := Order(input);
    forall a: Score, b: Score ensures leq(a, b) || leq(b, a) { LeqTotal(a.candidate, b.candidate); }
    forall a: Score, b: Score | leq(a, b) && leq(b, a) ensures a == b { LeqAntisymmetric(a.candidate, b.candidate); }
    forall a: Score, b: Score, c: Score | leq(a, b) && leq(b, c) ensures leq(a, c) {
      if Leq(a.candidate, b.candidate) && Leq(b.candidate, c.candidate) {
        LeqTransitive(a.candidate, b.candidate, c.candidate);
      }
    }
  }

  function Scores(input: Text, candidates: seq<Text>): seq<Score> {
    if candidates == [] then []
    else Scores(input, candidates[..|candidates| - 1])
         + [Score(candidates[|candidates| - 1], DistanceSpec(input, candidates[|candidates| - 1]))]
  }

  function Ranked(input: Text, candidates: seq<Text>): seq<Score> { Sort(Order(input), Scores(input, candidates)) }

  /** A score occurs as often as its candidate, with the distance of that candidate. */
  lemma {:induction false} ScoresCount(input: Text, candidates: seq<Text>, s: Score)
    ensures multiset(Scores(input, candidates))[s] ==
      if s.distance == DistanceSpec(input, s.candidate) then multiset(candidates)[s.candidate] else 0
  {
    hide DistanceSpec;
    if candidates != [] {
      var init, last := candidates[..|candidates| - 1], candidates[|candidates| - 1];
      assert candidates == init + [last];
      ScoresCount(input, init, s);
    }
  }

  lemma RankedMembers(input: Text, candidates: seq<Text>)
    ensures Sorted(Order(input), Ranked(input, candidates)) && |Ranked(input, candidates)| == |candidates|
    ensures forall s :: s in Ranked(input, candidates) <==>
      s.candidate in candidates && s.distance == DistanceSpec(input, s.candidate)
  {
    hide DistanceSpec;
    OrderIsTotal(input);
    SortIsSortedPermutation(Order(input), Scores(input, candidates));
    var ranked := Ranked(input, candidates);
    forall s ensures s in ranked <==> s.candidate in candidates && s.distance == DistanceSpec(input, s.candidate) {
      ScoresCount(input, candidates, s);
      assert s in ranked <==> multiset(ranked)[s] > 0;
      assert s.candidate in candidates <==> multiset(candidates)[s.candidate] > 0;
    }
    ScoresLength(input, candidates);
  }

  lemma {:induction false} ScoresLength(input: Text, candidates: seq<Text>)
    ensures |Scores(input, candidates)| == |candidates|
  {
    hide DistanceSpec;
    if candidates != [] { ScoresLength(input, candidates[..|candidates| - 1]); }
  }

  lemma RankedIgnoresOrder(input: Text, a: seq<Text>, b: seq<Text>)
    requires multiset(a) == multiset(b)
    ensures Ranked(input, a) == Ranked(input, b)
  {
    hide DistanceSpec;
    var sa, sb := Scores(input, a), Scores(input, b);
    forall s ensures multiset(sa)[s] == multiset(sb)[s] {
      ScoresCount(input, a, s);
      ScoresCount(input, b, s);
    }
    OrderIsTotal(input);
    SortEqualIffPermutation(Order(input), sa, sb);
  }

  // ---- The result --------------------------------------------------------------------------------------

  function Longer(input: Text, candidate: Text): int { if |candidate| > |input| then |candidate| else |input| }

  function Similarity(input: Text, s: Score): real
    requires input != []
  {
    1.0 - (s.distance as real) / (Longer(input, s.candidate) as real)
  }

  function SuggestionThreshold(threshold: real): real { if threshold - 0.5 < 0.1 then 0.1 else threshold - 0.5 }

  function MaxSuggestionDistance(input: Text): int { if |input| + 3 < 4 then 4 else |input| + 3 }

  predicate Suggests(input: Text, threshold: real, s: Score)
    requires input != []
  {
    s.distance <= MaxSuggestionDistance(input) && Similarity(input, s) >= SuggestionThreshold(threshold)
  }

  function Suggestions(input: Text, threshold: real, scores: seq<Score>): seq<Text>
    requires input != []
  {
    if scores == [] then []
    else
      var init, last := scores[..|scores| - 1], scores[|scores| - 1];
      Suggestions(input, threshold, init) + (if Suggests(input, threshold, last) then [last.candidate] else [])
  }

  function CountPrefixed(list: seq<Text>, prefix: Text): nat {
    if list == [] then 0
    else CountPrefixed(list[..|list| - 1], prefix) + (if HasPrefix(list[|list| - 1], prefix) then 1 else 0)
  }

  function NoMatch(input: Text): MatchResult { MatchResult(input, [], 0, false, []) }

  /** The result as a function of the ranking. */
  function FromRanking(input: Text, ranked: seq<Score>, threshold: real): MatchResult
    requires input != [] && ranked != []
  {
    var best := ranked[0];
    var isPrefixMatch := IsShort(input) && HasPrefix(best.candidate, input);
    if Similarity(input, best) < 0.3 && !isPrefixMatch then NoMatch(input)
    else
      var suggestions := Suggestions(input, threshold, ranked);
      var close := Similarity(input, best) >= threshold || (isPrefixMatch && threshold <= 0.5);
      var ambiguous := isPrefixMatch && |suggestions| > 1 && CountPrefixed(suggestions, input) > 1;
      MatchResult(input, best.candidate, best.distance, close && !ambiguous, suggestions)
  }

  function MatchSpec(input: Text, candidates: seq<Text>, threshold: real): MatchResult {
    RankedMembers(input, candidates);
    if input == [] || candidates == [] then NoMatch(input)
    else FromRanking(input, Ranked(input, candidates), threshold)
  }

  method ScoreAll(input: Text, candidates: seq<Text>) returns (scores: seq<Score>)
    ensures scores == Scores(input, candidates)
  {
    hide DistanceSpec;
    scores := [];
    for i := 0 to |candidates|
      invariant scores == Scores(input, candidates[..i])
    {
      var dist := Distance(input, candidates[i]);
      scores := scores + [Score(candidates[i], dist)];
      assert candidates[..i + 1][..i] == candidates[..i];
    }
    assert candidates[..|candidates|] == candidates;
  }

  method Suggest(input: Text, threshold: real, scores: seq<Score>) returns (suggestions: seq<Text>)
    requires input != []
    ensures suggestions == Suggestions(input, threshold, scores)
  {
    suggestions := [];
    for i := 0 to |scores|
      invariant suggestions == Suggestions(input, threshold, scores[..i])
    {
      assert scores[..i + 1][..i] == scores[..i];
      if Suggests(input, threshold, scores[i]) { suggestions := suggestions + [scores[i].candidate]; }
    }
    assert scores[..|scores|] == scores;
  }

  method CountPrefixMatches(list: seq<Text>, prefix: Text) returns (count: nat)
    ensures count == CountPrefixed(list, prefix)
  {
    count := 0;
    for i := 0 to |list|
      invariant count == CountPrefixed(list[..i], prefix)
    {
      assert list[..i + 1][..i] == list[..i];
      if HasPrefix(list[i], prefix) { count := count + 1; }
    }
    assert list[..|list|] == list;
  }

  method Match(input: Text, candidates: seq<Text>, threshold: real) returns (r: MatchResult)
    ensures r == MatchSpec(input, candidates, threshold)
  {
    hide DistanceSpec;
    hide Suggests;
    hide Suggestions;
    hide Similarity;
    if input == [] || |candidates| == 0 { return MatchResult(input, [], 0, false, []); }
    var scores := ScoreAll(input, candidates);
    RankedMembers(input, candidates);
    scores := Sort(Order(input), scores);
    var best := scores[0];
    var similarity := Similarity(input, best);
    var isPrefixMatch := |input| <= 3 && HasPrefix(best.candidate, input);
    var autoCorrect := similarity >= threshold || (isPrefixMatch && threshold <= 0.5);
    if similarity < 0.3 && !isPrefixMatch { return MatchResult(input, [], 0, false, []); }
    var suggestions := Suggest(input, threshold, scores);
    if autoCorrect && isPrefixMatch && |suggestions| > 1 {
      var prefixMatches := CountPrefixMatches(suggestions, input);
      if prefixMatches > 1 { autoCorrect := false; }
    }
    return MatchResult(input, best.candidate, best.distance, autoCorrect, suggestions);
  }

  // ---- What is promised ------------------------------------------------------------------------------------

  /** The order in which the candidates are given does not matter. */
  lemma MatchIgnoresOrder(input: Text, a: seq<Text>, b: seq<Text>, threshold: real)
    requires multiset(a) == multiset(b)
    ensures MatchSpec(input, a, threshold) == MatchSpec(input, b, threshold)
  {
    hide DistanceSpec;
    hide FromRanking;
    RankedIgnoresOrder(input, a, b);
    assert |multiset(a)| == |a| && |multiset(b)| == |b|;
  }

  lemma Ratio(d: int, m: int)
    requires 0 <= d <= m && m > 0
    ensures 0.0 <= (d as real) / (m as real) <= 1.0
    ensures (d as real) / (m as real) == 0.0 <==> d == 0
  {
    var q := (d as real) / (m as real);
    assert q * (m as real) == d as real;
  }

  /** Similarities lie between 0 and 1; 1 is the similarity of equal rune sequences only. */
  lemma SimilarityBounds(input: Text, candidates: seq<Text>, s: Score)
    requires input != [] && s in Ranked(input, candidates)
    ensures 0.0 <= Similarity(input, s) <= 1.0
    ensures Similarity(input, s) == 1.0 <==> Runes(s.candidate) == Runes(input)
  {
    hide DistanceSpec;
    hide Runes;
    hide Ranked;
    RankedMembers(input, candidates);
    DistanceLaws(input, s.candidate);
    Ratio(s.distance, Longer(input, s.candidate));
  }

  /** No candidate is nearer than the best one; for a short input only candidates of the same standing as to the prefix
      are compared, and a candidate with the prefix is taken if there is one. */
  lemma BestIsNearest(input: Text, candidates: seq<Text>, c: Text)
    requires input != [] && c in candidates
    ensures Ranked(input, candidates) != []
    ensures
      var best := Ranked(input, candidates)[0];
      && best.candidate in candidates && best.distance == DistanceSpec(input, best.candidate)
      && (IsShort(input) && HasPrefix(c, input) ==> HasPrefix(best.candidate, input))
      && ((IsShort(input) ==> HasPrefix(c, input) == HasPrefix(best.candidate, input)) ==>
            best.distance <= DistanceSpec(input, c))
  {
    hide DistanceSpec;
    RankedMembers(input, candidates);
    OrderIsTotal(input);
    var ranked, mine := Ranked(input, candidates), Score(c, DistanceSpec(input, c));
    hide Ranked;
    assert mine in ranked;
    LeastComesFirst(Order(input), ranked, mine);
    assert ranked[0] in ranked;
  }

  /** An input that is itself a candidate is returned at distance 0: the match has the same runes, and for valid text it
      is the input itself. */
  lemma ExactInputFound(input: Text, candidates: seq<Text>, threshold: real)
    requires input != [] && input in candidates
    ensures
      var r := MatchSpec(input, candidates, threshold);
      && r.distance == 0 && r.match_ in candidates && Runes(r.match_) == Runes(input)
      && (Valid(input) && (forall c :: c in candidates ==> Valid(c)) ==> r.match_ == input)
  {
    BestIsNearest(input, candidates, input);
    RankedMembers(input, candidates);
    var ranked := Ranked(input, candidates);
    var best := ranked[0];
    DistanceLaws(input, input);
    DistanceLaws(input, best.candidate);
    hide DistanceSpec;
    hide Ranked;
    hide Suggestions;
    hide Runes;
    assert best in ranked;
    SimilarityBounds(input, candidates, best);
    if Valid(input) && Valid(best.candidate) { RunesInjective(input, best.candidate); }
  }
}
