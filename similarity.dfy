/**
 * `SimilarityEngine` of similarity_engine.py: hobby overlap (Jaccard), the
 * weighted normalised distance, the 0..100 compatibility score with its
 * hobby bonus, the rule-based reasons, and the symmetric table of scores
 * for every pair of students. Scores are exact reals; the source's
 * `round(..., 2)` is not modelled.
 */
module Similarity {
  import opened Students
  import opened PairTable

  // ---------------------------------------------------------------------
  // Configuration (config.py)

  /** One weight per attribute (`Config.WEIGHTS`). */
  datatype Weights = Weights(
    sleepTime: real, studyTime: real, cleanliness: real,
    noiseTolerance: real, personality: real, hobbies: real)

  /** "Must sum to 1.0", with every weight non-negative. */
  predicate ValidWeights(w: Weights) {
    && w.sleepTime >= 0.0 && w.studyTime >= 0.0 && w.cleanliness >= 0.0
    && w.noiseTolerance >= 0.0 && w.personality >= 0.0 && w.hobbies >= 0.0
    && w.sleepTime + w.studyTime + w.cleanliness + w.noiseTolerance + w.personality + w.hobbies == 1.0
  }

  const DefaultWeights := Weights(0.25, 0.20, 0.20, 0.15, 0.10, 0.10)
  const HobbyOverlapBonus: real := 1.2

  lemma DefaultWeightsValid()
    ensures ValidWeights(DefaultWeights)
  {
  }

  // ---------------------------------------------------------------------
  // Sets of hobbies

  function Abs(x: int): nat {
    if x < 0 then -x else x
  }

  /** `set(hobbies)`. */
  function ElemSet(h: seq<string>): set<string> {
    set x | x in h
  }

  lemma ElemSetEmpty(h: seq<string>)
    ensures ElemSet(h) == {} <==> h == []
  {
    if h != [] { assert h[0] in ElemSet(h); }
  }

  lemma {:induction false} SubsetCard(a: set<string>, b: set<string>)
    requires a <= b
    ensures |a| <= |b|
    ensures |a| == |b| ==> a == b
  {
    if a != b {
      assert exists x :: x in b && x !in a;
      var x :| x in b && x !in a;
      SubsetCard(a, b - {x});
    }
  }

  // ---------------------------------------------------------------------
  // calculate_hobby_overlap

  /** Jaccard index of the two hobby sets, with the source's special cases for empty lists. */
  function HobbyOverlap(h1: seq<string>, h2: seq<string>): (r: real)
    ensures 0.0 <= r <= 1.0
    ensures h1 == [] && h2 == [] ==> r == 0.5
    ensures (h1 == []) != (h2 == []) ==> r == 0.0
  {
    ElemSetEmpty(h1);
    ElemSetEmpty(h2);
    SubsetCard(ElemSet(h1) * ElemSet(h2), ElemSet(h1) + ElemSet(h2));
    SubsetCard(ElemSet(h1), ElemSet(h1) + ElemSet(h2));
    if h1 == [] && h2 == [] then 0.5
    else
      var set1 := ElemSet(h1);
      var set2 := ElemSet(h2);
      if set1 == {} || set2 == {} then 0.0
      else
        var intersection := |set1 * set2|;
        var union := |set1 + set2|;
        if union > 0 then intersection as real / union as real else 0.0
  }

  /** For two non-empty lists the overlap is |A ∩ B| / |A ∪ B| over the de-duplicated sets. */
  lemma HobbyOverlapJaccard(h1: seq<string>, h2: seq<string>)
    requires h1 != [] && h2 != []
    ensures |ElemSet(h1) + ElemSet(h2)| > 0
    ensures HobbyOverlap(h1, h2) * (|ElemSet(h1) + ElemSet(h2)| as real) == |ElemSet(h1) * ElemSet(h2)| as real
  {
    ElemSetEmpty(h1);
    assert h1[0] in ElemSet(h1) + ElemSet(h2);
  }

  lemma HobbyOverlapSymmetric(h1: seq<string>, h2: seq<string>)
    ensures HobbyOverlap(h1, h2) == HobbyOverlap(h2, h1)
  {
    assert ElemSet(h1) * ElemSet(h2) == ElemSet(h2) * ElemSet(h1);
    assert ElemSet(h1) + ElemSet(h2) == ElemSet(h2) + ElemSet(h1);
  }

  /**
   * The overlap is 1 exactly for two non-empty lists with the same hobby set,
   * and positive exactly when both are empty or the sets share a hobby.
   */
  lemma {:induction false} HobbyOverlapExtremes(h1: seq<string>, h2: seq<string>)
    ensures HobbyOverlap(h1, h2) == 1.0 <==> h1 != [] && h2 != [] && ElemSet(h1) == ElemSet(h2)
    ensures HobbyOverlap(h1, h2) > 0.0 <==> (h1 == [] && h2 == []) || ElemSet(h1) * ElemSet(h2) != {}
  {
    ElemSetEmpty(h1);
    ElemSetEmpty(h2);
    var s1, s2 := ElemSet(h1), ElemSet(h2);
    if h1 != [] && h2 != [] {
      SubsetCard(s1 * s2, s1 + s2);
      SubsetCard(s1, s1 + s2);
      var i, u := |s1 * s2|, |s1 + s2|;
      assert u > 0;
      if i == u {
        assert s1 * s2 == s1 + s2;
        assert s1 == s2 by {
          forall x | x in s1 ensures x in s2 { assert x in s1 + s2; }
          forall x | x in s2 ensures x in s1 { assert x in s1 + s2; }
        }
      }
      if s1 == s2 {
        assert s1 * s2 == s1 + s2;
      }
      assert HobbyOverlap(h1, h2) == i as real / u as real;
      assert i as real / u as real == 1.0 <==> i == u;
      assert i as real / u as real > 0.0 <==> i > 0;
    }
  }

  // ---------------------------------------------------------------------
  // calculate_distance

  /** One weighted attribute term: the absolute difference normalised by the span of the range. */
  function Term(weight: real, a: int, b: int, span: real): real
    requires span > 0.0
  {
    Weighted(weight, Abs(a - b) as real / span)
  }

  /** A weight applied to a normalised difference. */
  function Weighted(weight: real, diff: real): real {
    weight * diff
  }

  /** The weighted hobby term, `1 - overlap`. */
  function HobbyTerm(weight: real, h1: seq<string>, h2: seq<string>): real {
    Weighted(weight, 1.0 - HobbyOverlap(h1, h2))
  }

  /** The weighted sum of range-normalised attribute differences plus the hobby distance. */
  function Distance(v1: StudentVector, v2: StudentVector, w: Weights): real {
    Term(w.sleepTime, v1.sleepTime, v2.sleepTime, 2.0)
    + Term(w.studyTime, v1.studyTime, v2.studyTime, 3.0)
    + Term(w.cleanliness, v1.cleanliness, v2.cleanliness, 4.0)
    + Term(w.noiseTolerance, v1.noiseTolerance, v2.noiseTolerance, 4.0)
    + Term(w.personality, v1.personality, v2.personality, 2.0)
    + HobbyTerm(w.hobbies, v1.hobbies, v2.hobbies)
  }

  /** `calculate_distance`, accumulating one weighted term at a time. */
  method CalculateDistance(v1: StudentVector, v2: StudentVector, w: Weights) returns (d: real)
    ensures d == Distance(v1, v2, w)
    ensures ValidWeights(w) && InRange(v1) && InRange(v2) ==> 0.0 <= d <= 1.0
  {
    var total := 0.0;
    // Sleep time: 0..2, normalised by 2
    var sleepDiff := Abs(v1.sleepTime - v2.sleepTime) as real / 2.0;
    total := total + Weighted(w.sleepTime, sleepDiff);
    assert total == Term(w.sleepTime, v1.sleepTime, v2.sleepTime, 2.0);
    // Study time: 0..3, normalised by 3
    var studyDiff := Abs(v1.studyTime - v2.studyTime) as real / 3.0;
    ghost var before := total;
    total := total + Weighted(w.studyTime, studyDiff);
    assert total == before + Term(w.studyTime, v1.studyTime, v2.studyTime, 3.0);
    // Cleanliness: 1..5, normalised by 4
    var cleanDiff := Abs(v1.cleanliness - v2.cleanliness) as real / 4.0;
    before := total;
    total := total + Weighted(w.cleanliness, cleanDiff);
    assert total == before + Term(w.cleanliness, v1.cleanliness, v2.cleanliness, 4.0);
    // Noise tolerance: 1..5, normalised by 4
    var noiseDiff := Abs(v1.noiseTolerance - v2.noiseTolerance) as real / 4.0;
    before := total;
    total := total + Weighted(w.noiseTolerance, noiseDiff);
    assert total == before + Term(w.noiseTolerance, v1.noiseTolerance, v2.noiseTolerance, 4.0);
    // Personality: 0..2, normalised by 2
    var personalityDiff := Abs(v1.personality - v2.personality) as real / 2.0;
    before := total;
    total := total + Weighted(w.personality, personalityDiff);
    assert total == before + Term(w.personality, v1.personality, v2.personality, 2.0);
    // Hobbies: 1 - overlap
    var hobbyOverlap := HobbyOverlap(v1.hobbies, v2.hobbies);
    var hobbyDistance := 1.0 - hobbyOverlap;
    before := total;
    total := total + Weighted(w.hobbies, hobbyDistance);
    assert total == before + HobbyTerm(w.hobbies, v1.hobbies, v2.hobbies);
    d := total;
    if ValidWeights(w) && InRange(v1) && InRange(v2) {
      DistanceBounds(v1, v2, w);
    }
  }

  /** A non-negative weight times a fraction in [0, 1] lies between 0 and the weight. */
  lemma WeightedFraction(weight: real, t: real)
    requires weight >= 0.0 && 0.0 <= t <= 1.0
    ensures 0.0 <= weight * t <= weight
  {
    assert weight * (1.0 - t) >= 0.0;
  }

  lemma TermBounds(weight: real, a: int, b: int, span: real)
    requires span > 0.0 && weight >= 0.0 && Abs(a - b) as real <= span
    ensures 0.0 <= Term(weight, a, b, span) <= weight
  {
    var t := Abs(a - b) as real / span;
    assert 0.0 <= t <= 1.0;
    WeightedFraction(weight, t);
  }

  lemma HobbyTermBounds(weight: real, h1: seq<string>, h2: seq<string>)
    requires weight >= 0.0
    ensures 0.0 <= HobbyTerm(weight, h1, h2) <= weight
  {
    WeightedFraction(weight, 1.0 - HobbyOverlap(h1, h2));
  }

  /** With valid weights and in-range attributes the distance lies in [0, 1]. */
  lemma DistanceBounds(v1: StudentVector, v2: StudentVector, w: Weights)
    requires ValidWeights(w) && InRange(v1) && InRange(v2)
    ensures 0.0 <= Distance(v1, v2, w) <= 1.0
  {
    TermBounds(w.sleepTime, v1.sleepTime, v2.sleepTime, 2.0);
    TermBounds(w.studyTime, v1.studyTime, v2.studyTime, 3.0);
    TermBounds(w.cleanliness, v1.cleanliness, v2.cleanliness, 4.0);
    TermBounds(w.noiseTolerance, v1.noiseTolerance, v2.noiseTolerance, 4.0);
    TermBounds(w.personality, v1.personality, v2.personality, 2.0);
    HobbyTermBounds(w.hobbies, v1.hobbies, v2.hobbies);
  }

  lemma TermSymmetric(weight: real, a: int, b: int, span: real)
    requires span > 0.0
    ensures Term(weight, a, b, span) == Term(weight, b, a, span)
  {
    assert Abs(a - b) == Abs(b - a);
  }

  lemma DistanceSymmetric(v1: StudentVector, v2: StudentVector, w: Weights)
    ensures Distance(v1, v2, w) == Distance(v2, v1, w)
  {
    HobbyOverlapSymmetric(v1.hobbies, v2.hobbies);
    TermSymmetric(w.sleepTime, v1.sleepTime, v2.sleepTime, 2.0);
    TermSymmetric(w.studyTime, v1.studyTime, v2.studyTime, 3.0);
    TermSymmetric(w.cleanliness, v1.cleanliness, v2.cleanliness, 4.0);
    TermSymmetric(w.noiseTolerance, v1.noiseTolerance, v2.noiseTolerance, 4.0);
    TermSymmetric(w.personality, v1.personality, v2.personality, 2.0);
  }

  // ---------------------------------------------------------------------
  // The score formula of calculate_similarity_score

  function RMin(a: real, b: real): real {
    if a <= b then a else b
  }

  /** `(1 - distance) * 100`, times the bonus and capped at 100 when the overlap exceeds 0.5. */
  function ScoreFrom(distance: real, overlap: real, bonus: real): real {
    var baseScore := (1.0 - distance) * 100.0;
    if overlap > 0.5 then RMin(baseScore * bonus, 100.0) else baseScore
  }

  /** The score of a pair: the score formula on their distance and hobby overlap. */
  function SimilarityScore(v1: StudentVector, v2: StudentVector, w: Weights, bonus: real): real {
    ScoreFrom(Distance(v1, v2, w), HobbyOverlap(v1.hobbies, v2.hobbies), bonus)
  }

  /**
   * The score lies in [0, 100] for valid weights and in-range attributes,
   * and differs from the plain `(1 - distance) * 100` only when the hobby
   * overlap exceeds 0.5.
   */
  lemma ScoreBounds(v1: StudentVector, v2: StudentVector, w: Weights, bonus: real)
    requires ValidWeights(w) && InRange(v1) && InRange(v2) && bonus >= 0.0
    ensures 0.0 <= SimilarityScore(v1, v2, w, bonus) <= 100.0
    ensures SimilarityScore(v1, v2, w, bonus) != (1.0 - Distance(v1, v2, w)) * 100.0 ==>
      HobbyOverlap(v1.hobbies, v2.hobbies) > 0.5
  {
    DistanceBounds(v1, v2, w);
    ScoreFromBounds(Distance(v1, v2, w), HobbyOverlap(v1.hobbies, v2.hobbies), bonus);
  }

  lemma ScoreFromBounds(distance: real, overlap: real, bonus: real)
    requires 0.0 <= distance <= 1.0 && bonus >= 0.0
    ensures 0.0 <= ScoreFrom(distance, overlap, bonus) <= 100.0
    ensures ScoreFrom(distance, overlap, bonus) != (1.0 - distance) * 100.0 ==> overlap > 0.5
  {
    var b := (1.0 - distance) * 100.0;
    assert 0.0 <= b <= 100.0;
    assert b * bonus >= 0.0;
  }

  lemma ScoreSymmetric(v1: StudentVector, v2: StudentVector, w: Weights, bonus: real)
    ensures SimilarityScore(v1, v2, w, bonus) == SimilarityScore(v2, v1, w, bonus)
  {
    DistanceSymmetric(v1, v2, w);
    HobbyOverlapSymmetric(v1.hobbies, v2.hobbies);
  }

  /** Equal attributes and the same non-empty hobby set score exactly 100 (bonus at least 1). */
  lemma IdenticalScore100(v1: StudentVector, v2: StudentVector, w: Weights, bonus: real)
    requires v1.sleepTime == v2.sleepTime && v1.studyTime == v2.studyTime
    requires v1.cleanliness == v2.cleanliness && v1.noiseTolerance == v2.noiseTolerance
    requires v1.personality == v2.personality
    requires v1.hobbies != [] && ElemSet(v1.hobbies) == ElemSet(v2.hobbies)
    requires bonus >= 1.0
    ensures SimilarityScore(v1, v2, w, bonus) == 100.0
  {
    ElemSetEmpty(v1.hobbies);
    ElemSetEmpty(v2.hobbies);
    HobbyOverlapExtremes(v1.hobbies, v2.hobbies);
    assert HobbyOverlap(v1.hobbies, v2.hobbies) == 1.0;
    assert HobbyTerm(w.hobbies, v1.hobbies, v2.hobbies) == 0.0;
    assert Distance(v1, v2, w) == 0.0;
    assert 100.0 * bonus >= 100.0;
  }

  /** With the configured weights and bonus, identical students score exactly 100. */
  lemma ConfiguredIdenticalScore100(v1: StudentVector, v2: StudentVector)
    requires v1.sleepTime == v2.sleepTime && v1.studyTime == v2.studyTime
    requires v1.cleanliness == v2.cleanliness && v1.noiseTolerance == v2.noiseTolerance
    requires v1.personality == v2.personality
    requires v1.hobbies != [] && ElemSet(v1.hobbies) == ElemSet(v2.hobbies)
    ensures SimilarityScore(v1, v2, DefaultWeights, HobbyOverlapBonus) == 100.0
  {
    IdenticalScore100(v1, v2, DefaultWeights, HobbyOverlapBonus);
  }

  // ---------------------------------------------------------------------
  // generate_match_reasons

  /** One reason rule that fired (the index of the rule is its `Rank`). */
  datatype Reason =
    | SleepMatch(sleepBucket: int)
    | StudyMatch(studyBucket: int)
    | CleanlinessMatch
    | NoiseMatch
    | PersonalityMatch(personalityBucket: int)
    | HobbyMatch(shared: seq<string>)
    | Balanced

  function Rank(r: Reason): nat {
    match r
    case SleepMatch(_) => 0
    case StudyMatch(_) => 1
    case CleanlinessMatch => 2
    case NoiseMatch => 3
    case PersonalityMatch(_) => 4
    case HobbyMatch(_) => 5
    case Balanced => 6
  }

  /** The condition of rule `k` (0 sleep, 1 study, 2 cleanliness, 3 noise, 4 personality, 5 hobbies). */
  predicate RuleHolds(k: nat, v1: StudentVector, v2: StudentVector) {
    if k == 0 then v1.sleepTime == v2.sleepTime
    else if k == 1 then v1.studyTime == v2.studyTime
    else if k == 2 then Abs(v1.cleanliness - v2.cleanliness) <= 1
    else if k == 3 then Abs(v1.noiseTolerance - v2.noiseTolerance) <= 1
    else if k == 4 then v1.personality == v2.personality
    else if k == 5 then ElemSet(v1.hobbies) * ElemSet(v2.hobbies) != {}
    else false
  }

  /**
   * The hobbies both students list, without duplicates, in the order they
   * first appear in the first student's list. (The source takes them from
   * a Python set, whose order is unspecified.)
   */
  function CommonHobbies(h1: seq<string>, h2: seq<string>): (r: seq<string>)
    ensures forall x :: x in r <==> x in h1 && x in h2
    ensures forall i, j :: 0 <= i < j < |r| ==> r[i] != r[j]
  {
    if h1 == [] then []
    else
      var rest := CommonHobbies(h1[..|h1| - 1], h2);
      var x := h1[|h1| - 1];
      assert h1 == h1[..|h1| - 1] + [x];
      if x in h2 && x !in rest then rest + [x] else rest
  }

  lemma CommonHobbiesSet(h1: seq<string>, h2: seq<string>)
    ensures ElemSet(CommonHobbies(h1, h2)) == ElemSet(h1) * ElemSet(h2)
  {
  }

  function Take(s: seq<string>, n: nat): (r: seq<string>)
    ensures |r| == if |s| < n then |s| else n
    ensures r == s[..|r|]
  {
    if |s| <= n then s else s[..n]
  }

  /** Whether rule `k` fires, with the guards exactly as the source writes them. */
  predicate Fires(k: nat, v1: StudentVector, v2: StudentVector) {
    if k < 5 then RuleHolds(k, v1, v2)
    else k == 5 && HobbyOverlap(v1.hobbies, v2.hobbies) > 0.0 && |CommonHobbies(v1.hobbies, v2.hobbies)| > 0
  }

  /** The reason rule `k` produces (the hobby rule names at most three shared hobbies). */
  function ReasonFor(k: nat, v1: StudentVector, v2: StudentVector): (r: Reason)
    requires k < 6
    ensures Rank(r) == k
  {
    if k == 0 then SleepMatch(v1.sleepTime)
    else if k == 1 then StudyMatch(v1.studyTime)
    else if k == 2 then CleanlinessMatch
    else if k == 3 then NoiseMatch
    else if k == 4 then PersonalityMatch(v1.personality)
    else HobbyMatch(Take(CommonHobbies(v1.hobbies, v2.hobbies), 3))
  }

  /** The reason each rule would produce, indexed by rule. */
  function Candidates(v1: StudentVector, v2: StudentVector): (c: seq<Reason>)
    ensures |c| == 6 && forall k :: 0 <= k < 6 ==> c[k] == ReasonFor(k, v1, v2)
  {
    [ReasonFor(0, v1, v2), ReasonFor(1, v1, v2), ReasonFor(2, v1, v2),
     ReasonFor(3, v1, v2), ReasonFor(4, v1, v2), ReasonFor(5, v1, v2)]
  }

  /** Which rules fire, indexed by rule. */
  function Flags(v1: StudentVector, v2: StudentVector): (f: seq<bool>)
    ensures |f| == 6 && forall k :: 0 <= k < 6 ==> f[k] == Fires(k, v1, v2)
  {
    [Fires(0, v1, v2), Fires(1, v1, v2), Fires(2, v1, v2),
     Fires(3, v1, v2), Fires(4, v1, v2), Fires(5, v1, v2)]
  }

  /** The candidates among the first `k` whose flag is set, in index order (appended one rule at a time). */
  function Prefix(flags: seq<bool>, cands: seq<Reason>, k: nat): seq<Reason>
    requires |flags| == |cands| && k <= |cands|
  {
    if k == 0 then []
    else Prefix(flags, cands, k - 1) + (if flags[k - 1] then [cands[k - 1]] else [])
  }

  /** The reasons fired by the first `k` rules; under defined labels each can be rendered. */
  function Fired(v1: StudentVector, v2: StudentVector, k: nat): (rs: seq<Reason>)
    requires k <= 6
    ensures LabelsDefined(v1, v2) ==> forall i :: 0 <= i < |rs| ==> Renderable(rs[i])
  {
    PrefixElems(Flags(v1, v2), Candidates(v1, v2), k);
    Prefix(Flags(v1, v2), Candidates(v1, v2), k)
  }

  /** `generate_match_reasons` as classified rules: the fired rules, or `Balanced` alone. */
  function MatchReasons(v1: StudentVector, v2: StudentVector): (rs: seq<Reason>)
    ensures LabelsDefined(v1, v2) ==> forall i :: 0 <= i < |rs| ==> Renderable(rs[i])
  {
    var fired := Fired(v1, v2, 6);
    if fired == [] then [Balanced] else fired
  }

  function Ranks(rs: seq<Reason>): set<nat> {
    set i | 0 <= i < |rs| :: Rank(rs[i])
  }

  /** The source's hobby guard (positive overlap and a non-empty intersection) is "they share a hobby". */
  lemma HobbyGuard(v1: StudentVector, v2: StudentVector)
    ensures Fires(5, v1, v2) <==> RuleHolds(5, v1, v2)
  {
    HobbyOverlapExtremes(v1.hobbies, v2.hobbies);
    CommonHobbiesSet(v1.hobbies, v2.hobbies);
    ElemSetEmpty(CommonHobbies(v1.hobbies, v2.hobbies));
  }

  /** Candidates whose rank is their index. */
  predicate RankedByIndex(cands: seq<Reason>) {
    forall k :: 0 <= k < |cands| ==> Rank(cands[k]) == k
  }

  /** The selected reasons are flagged candidates of rank below k, each at the index of its rank. */
  lemma {:induction false} PrefixElems(flags: seq<bool>, cands: seq<Reason>, k: nat)
    requires |flags| == |cands| && k <= |cands| && RankedByIndex(cands)
    ensures forall i :: 0 <= i < |Prefix(flags, cands, k)| ==>
      var x := Prefix(flags, cands, k)[i]; Rank(x) < k && flags[Rank(x)] && x == cands[Rank(x)]
  {
    if k > 0 {
      PrefixElems(flags, cands, k - 1);
      var rest := Prefix(flags, cands, k - 1);
      var rs := Prefix(flags, cands, k);
      forall i | 0 <= i < |rs| ensures Rank(rs[i]) < k && flags[Rank(rs[i])] && rs[i] == cands[Rank(rs[i])] {
        if i < |rest| {
          assert rs[i] == rest[i];
        } else {
          assert rs[i] == cands[k - 1];
        }
      }
    }
  }

  /** The selected reasons come in strictly increasing rank order. */
  lemma {:induction false} PrefixOrdered(flags: seq<bool>, cands: seq<Reason>, k: nat)
    requires |flags| == |cands| && k <= |cands| && RankedByIndex(cands)
    ensures forall i, j :: 0 <= i < j < |Prefix(flags, cands, k)| ==>
      Rank(Prefix(flags, cands, k)[i]) < Rank(Prefix(flags, cands, k)[j])
  {
    if k > 0 {
      PrefixOrdered(flags, cands, k - 1);
      PrefixElems(flags, cands, k - 1);
      var rest := Prefix(flags, cands, k - 1);
      var rs := Prefix(flags, cands, k);
      forall i, j | 0 <= i < j < |rs| ensures Rank(rs[i]) < Rank(rs[j]) {
        assert rs[i] == rest[i];
        if j < |rest| {
          assert rs[j] == rest[j];
        } else {
          assert rs[j] == cands[k - 1];
        }
      }
    }
  }

  /** Exactly the flagged ranks below k are selected. */
  lemma {:induction false} PrefixRanks(flags: seq<bool>, cands: seq<Reason>, k: nat)
    requires |flags| == |cands| && k <= |cands| && RankedByIndex(cands)
    ensures Ranks(Prefix(flags, cands, k)) == set r | 0 <= r < k && flags[r]
  {
    if k > 0 {
      PrefixRanks(flags, cands, k - 1);
      var rest := Prefix(flags, cands, k - 1);
      var rs := Prefix(flags, cands, k);
      if flags[k - 1] {
        assert rs == rest + [cands[k - 1]];
        assert Ranks(rs) == Ranks(rest) + {k - 1} by {
          forall i | 0 <= i < |rest| ensures Rank(rest[i]) in Ranks(rs) { assert rs[i] == rest[i]; }
          assert rs[|rest|] == cands[k - 1];
          forall x | x in Ranks(rs) ensures x in Ranks(rest) + {k - 1} {
            var i :| 0 <= i < |rs| && Rank(rs[i]) == x;
            if i < |rest| { assert rs[i] == rest[i]; }
          }
        }
      } else {
        assert rs == rest;
        assert forall i :: 0 <= i < |rest| ==> rs[i] == rest[i];
      }
    }
  }

  /** The reason list is never empty and its rules appear at most once each, in rule order. */
  lemma MatchReasonsOrdered(v1: StudentVector, v2: StudentVector)
    ensures var rs := MatchReasons(v1, v2);
      && |rs| >= 1
      && forall i, j :: 0 <= i < j < |rs| ==> Rank(rs[i]) < Rank(rs[j])
  {
    PrefixOrdered(Flags(v1, v2), Candidates(v1, v2), 6);
  }

  /**
   * Rule k is reported exactly when its condition holds (the cleanliness and
   * noise rules on a difference of at most 1, the hobby rule when the
   * students share a hobby); `Balanced` is reported exactly when no rule
   * holds, and then alone.
   */
  lemma MatchReasonsRules(v1: StudentVector, v2: StudentVector)
    ensures var rs := MatchReasons(v1, v2);
      && (forall k :: 0 <= k < 6 ==> (k in Ranks(rs) <==> RuleHolds(k, v1, v2)))
      && (rs == [Balanced] <==> forall k :: 0 <= k < 6 ==> !RuleHolds(k, v1, v2))
      && (6 in Ranks(rs) <==> rs == [Balanced])
  {
    FiredRanks(v1, v2);
    var fired := Fired(v1, v2, 6);
    var rs := MatchReasons(v1, v2);
    if fired == [] {
      assert Ranks(rs) == {6} by { assert rs[0] == Balanced; }
      forall k | 0 <= k < 6 ensures !RuleHolds(k, v1, v2) { assert k !in Ranks(fired); }
    } else {
      PrefixElems(Flags(v1, v2), Candidates(v1, v2), 6);
      assert rs == fired;
      assert 6 !in Ranks(rs);
      assert Rank(fired[0]) in Ranks(fired);
    }
  }

  /** The fired rules are exactly those whose condition holds. */
  lemma FiredRanks(v1: StudentVector, v2: StudentVector)
    ensures Ranks(Fired(v1, v2, 6)) == set k | 0 <= k < 6 && RuleHolds(k, v1, v2)
  {
    var flags := Flags(v1, v2);
    PrefixRanks(flags, Candidates(v1, v2), 6);
    HobbyGuard(v1, v2);
    assert forall k :: 0 <= k < 6 ==> (flags[k] <==> RuleHolds(k, v1, v2));
  }

  /** The sleep, study and personality reasons name the bucket both students share. */
  lemma MatchReasonsBuckets(v1: StudentVector, v2: StudentVector)
    ensures var rs := MatchReasons(v1, v2);
      && (forall i :: 0 <= i < |rs| && rs[i].SleepMatch? ==> rs[i].sleepBucket == v1.sleepTime == v2.sleepTime)
      && (forall i :: 0 <= i < |rs| && rs[i].StudyMatch? ==> rs[i].studyBucket == v1.studyTime == v2.studyTime)
      && (forall i :: 0 <= i < |rs| && rs[i].PersonalityMatch? ==> rs[i].personalityBucket == v1.personality == v2.personality)
  {
    PrefixElems(Flags(v1, v2), Candidates(v1, v2), 6);
  }

  /** The hobby reason names one to three distinct hobbies that both students list. */
  lemma MatchReasonsHobbies(v1: StudentVector, v2: StudentVector)
    ensures var rs := MatchReasons(v1, v2);
      forall i :: 0 <= i < |rs| && rs[i].HobbyMatch? ==>
        && 1 <= |rs[i].shared| <= 3
        && (forall a, b :: 0 <= a < b < |rs[i].shared| ==> rs[i].shared[a] != rs[i].shared[b])
        && (forall a :: 0 <= a < |rs[i].shared| ==> rs[i].shared[a] in v1.hobbies && rs[i].shared[a] in v2.hobbies)
  {
    var flags, cands := Flags(v1, v2), Candidates(v1, v2);
    PrefixElems(flags, cands, 6);
    var rs := MatchReasons(v1, v2);
    forall i | 0 <= i < |rs| && rs[i].HobbyMatch?
      ensures && 1 <= |rs[i].shared| <= 3
              && (forall a, b :: 0 <= a < b < |rs[i].shared| ==> rs[i].shared[a] != rs[i].shared[b])
              && (forall a :: 0 <= a < |rs[i].shared| ==> rs[i].shared[a] in v1.hobbies && rs[i].shared[a] in v2.hobbies)
    {
      var common := CommonHobbies(v1.hobbies, v2.hobbies);
      assert rs[i] == cands[5];
      var t := Take(common, 3);
      assert rs[i].shared == t;
      forall a | 0 <= a < |t| ensures t[a] in v1.hobbies && t[a] in v2.hobbies {
        assert t[a] == common[a];
      }
    }
  }

  // ---------------------------------------------------------------------
  // Reason texts

  function SleepLabel(k: int): string
    requires 0 <= k <= 2
  {
    if k == 0 then "early birds" else if k == 1 then "moderate sleepers" else "night owls"
  }

  function StudyLabel(k: int): string
    requires 0 <= k <= 3
  {
    if k == 0 then "morning studiers" else if k == 1 then "afternoon studiers"
    else if k == 2 then "evening studiers" else "night studiers"
  }

  function PersonalityLabel(k: int): string
    requires 0 <= k <= 2
  {
    if k == 0 then "introverted" else if k == 1 then "balanced" else "extroverted"
  }

  /** `', '.join(names)`. */
  function JoinComma(names: seq<string>): string {
    if names == [] then ""
    else if |names| == 1 then names[0]
    else names[0] + ", " + JoinComma(names[1..])
  }

  /** The label lookups of the source are defined (a bucket outside its dictionary raises `KeyError`). */
  predicate LabelsDefined(v1: StudentVector, v2: StudentVector) {
    && (v1.sleepTime == v2.sleepTime ==> 0 <= v1.sleepTime <= 2)
    && (v1.studyTime == v2.studyTime ==> 0 <= v1.studyTime <= 3)
    && (v1.personality == v2.personality ==> 0 <= v1.personality <= 2)
  }

  predicate Renderable(r: Reason) {
    match r
    case SleepMatch(k) => 0 <= k <= 2
    case StudyMatch(k) => 0 <= k <= 3
    case PersonalityMatch(k) => 0 <= k <= 2
    case _ => true
  }

  function Render(r: Reason): string
    requires Renderable(r)
  {
    match r
    case SleepMatch(k) => "Both are " + SleepLabel(k)
    case StudyMatch(k) => "Both prefer " + StudyLabel(k)
    case CleanlinessMatch => "Similar cleanliness standards"
    case NoiseMatch => "Compatible noise tolerance levels"
    case PersonalityMatch(k) => "Both have " + PersonalityLabel(k) + " personality"
    case HobbyMatch(names) => "Share hobbies: " + JoinComma(names)
    case Balanced => "Balanced overall compatibility"
  }

  function RenderAll(rs: seq<Reason>): (texts: seq<string>)
    requires forall i :: 0 <= i < |rs| ==> Renderable(rs[i])
    ensures |texts| == |rs|
  {
    if rs == [] then [] else [Render(rs[0])] + RenderAll(rs[1..])
  }

  /** Rendering distributes over appending one reason. */
  lemma {:induction false} RenderAppend(rs: seq<Reason>, r: Reason)
    requires forall i :: 0 <= i < |rs| ==> Renderable(rs[i])
    requires Renderable(r)
    ensures RenderAll(rs + [r]) == RenderAll(rs) + [Render(r)]
  {
    if rs != [] {
      assert (rs + [r])[1..] == rs[1..] + [r];
      RenderAppend(rs[1..], r);
    }
  }

  /** The text rule `k` appends, formatted as the source formats it. */
  function RuleText(k: nat, v1: StudentVector, v2: StudentVector): string
    requires k < 6 && LabelsDefined(v1, v2) && Fires(k, v1, v2)
  {
    if k == 0 then "Both are " + SleepLabel(v1.sleepTime)
    else if k == 1 then "Both prefer " + StudyLabel(v1.studyTime)
    else if k == 2 then "Similar cleanliness standards"
    else if k == 3 then "Compatible noise tolerance levels"
    else if k == 4 then "Both have " + PersonalityLabel(v1.personality) + " personality"
    else "Share hobbies: " + JoinComma(Take(CommonHobbies(v1.hobbies, v2.hobbies), 3))
  }

  /** The texts the first `k` rules append, in order. */
  function Texts(v1: StudentVector, v2: StudentVector, k: nat): seq<string>
    requires k <= 6 && LabelsDefined(v1, v2)
  {
    if k == 0 then []
    else Texts(v1, v2, k - 1) + if Fires(k - 1, v1, v2) then [RuleText(k - 1, v1, v2)] else []
  }

  /** `generate_match_reasons`' result: the appended texts, or the fallback text alone. */
  function ReasonTexts(v1: StudentVector, v2: StudentVector): seq<string>
    requires LabelsDefined(v1, v2)
  {
    if Texts(v1, v2, 6) == [] then ["Balanced overall compatibility"] else Texts(v1, v2, 6)
  }

  /** The texts of the first `k` rules are the rendered reasons they fire. */
  lemma {:induction false} TextsRender(v1: StudentVector, v2: StudentVector, k: nat)
    requires k <= 6 && LabelsDefined(v1, v2)
    ensures Texts(v1, v2, k) == RenderAll(Fired(v1, v2, k))
  {
    if k > 0 {
      TextsRender(v1, v2, k - 1);
      var prev := Fired(v1, v2, k - 1);
      var flags, cands := Flags(v1, v2), Candidates(v1, v2);
      assert Fired(v1, v2, k) == prev + if flags[k - 1] then [cands[k - 1]] else [];
      if Fires(k - 1, v1, v2) {
        assert Fired(v1, v2, k) == prev + [ReasonFor(k - 1, v1, v2)];
        RenderAppend(prev, ReasonFor(k - 1, v1, v2));
        assert RuleText(k - 1, v1, v2) == Render(ReasonFor(k - 1, v1, v2));
      } else {
        assert Fired(v1, v2, k) == prev;
        assert Texts(v1, v2, k) == Texts(v1, v2, k - 1);
      }
    }
  }

  /** The source's texts are exactly the rendered classified reasons. */
  lemma ReasonTextsRender(v1: StudentVector, v2: StudentVector)
    requires LabelsDefined(v1, v2)
    ensures ReasonTexts(v1, v2) == RenderAll(MatchReasons(v1, v2))
  {
    TextsRender(v1, v2, 6);
    if Fired(v1, v2, 6) == [] {
      assert RenderAll([Balanced]) == [Render(Balanced)] + RenderAll([]);
    }
  }

  /**
   * `generate_match_reasons`: each rule appends its text when its condition
   * holds (an append under a condition is written as appending a one- or
   * zero-element list); the fallback replaces an empty list. The shared
   * hobbies are computed only when the overlap is positive, as in the source.
   */
  method GenerateMatchReasons(v1: StudentVector, v2: StudentVector) returns (reasons: seq<string>)
    requires LabelsDefined(v1, v2)
    ensures reasons == ReasonTexts(v1, v2)
    ensures |reasons| >= 1
  {
    reasons := [];
    reasons := reasons + if v1.sleepTime == v2.sleepTime then ["Both are " + SleepLabel(v1.sleepTime)] else [];
    assert reasons == Texts(v1, v2, 1);
    reasons := reasons + if v1.studyTime == v2.studyTime then ["Both prefer " + StudyLabel(v1.studyTime)] else [];
    assert reasons == Texts(v1, v2, 2);
    var cleanDiff := Abs(v1.cleanliness - v2.cleanliness);
    reasons := reasons + if cleanDiff <= 1 then ["Similar cleanliness standards"] else [];
    assert reasons == Texts(v1, v2, 3);
    var noiseDiff := Abs(v1.noiseTolerance - v2.noiseTolerance);
    reasons := reasons + if noiseDiff <= 1 then ["Compatible noise tolerance levels"] else [];
    assert reasons == Texts(v1, v2, 4);
    reasons := reasons + if v1.personality == v2.personality then ["Both have " + PersonalityLabel(v1.personality) + " personality"] else [];
    assert reasons == Texts(v1, v2, 5);
    var hobbyOverlap := HobbyOverlap(v1.hobbies, v2.hobbies);
    var commonHobbies := if hobbyOverlap > 0.0 then CommonHobbies(v1.hobbies, v2.hobbies) else [];
    reasons := reasons + if hobbyOverlap > 0.0 && |commonHobbies| > 0 then ["Share hobbies: " + JoinComma(Take(commonHobbies, 3))] else [];
    assert reasons == Texts(v1, v2, 6);
    if reasons == [] {
      reasons := ["Balanced overall compatibility"];
    }
  }

  // ---------------------------------------------------------------------
  // calculate_similarity_score and calculate_all_similarities

  /** A table entry: `(score, reasons)`. */
  datatype Entry = Entry(score: real, reasons: seq<string>)

  /** `calculate_similarity_score`: the score and the reasons for one pair. */
  method CalculateSimilarityScore(v1: StudentVector, v2: StudentVector, w: Weights, bonus: real)
    returns (score: real, reasons: seq<string>)
    requires LabelsDefined(v1, v2)
    ensures score == SimilarityScore(v1, v2, w, bonus)
    ensures ValidWeights(w) && InRange(v1) && InRange(v2) && bonus >= 0.0 ==> 0.0 <= score <= 100.0
    ensures reasons == ReasonTexts(v1, v2)
  {
    var distance := CalculateDistance(v1, v2, w);
    var baseScore := (1.0 - distance) * 100.0;
    var hobbyOverlap := HobbyOverlap(v1.hobbies, v2.hobbies);
    if hobbyOverlap > 0.5 {
      baseScore := baseScore * bonus;
      baseScore := RMin(baseScore, 100.0);
    }
    assert baseScore == SimilarityScore(v1, v2, w, bonus);
    if ValidWeights(w) && InRange(v1) && InRange(v2) && bonus >= 0.0 {
      ScoreBounds(v1, v2, w, bonus);
    }
    reasons := GenerateMatchReasons(v1, v2);
    score := baseScore;
  }

  /** The entry the table holds for a pair (the value `calculate_similarity_score` returns). */
  function PairEntry(v1: StudentVector, v2: StudentVector, w: Weights, bonus: real): Entry
    requires LabelsDefined(v1, v2)
  {
    Entry(SimilarityScore(v1, v2, w, bonus), ReasonTexts(v1, v2))
  }

  /**
   * The entry function handed to the pairwise table. The table applies it
   * only to pairs whose labels are defined; the other branch is never used.
   */
  function PairEntryFn(w: Weights, bonus: real): (StudentVector, StudentVector) -> Entry {
    (x: StudentVector, y: StudentVector) => if LabelsDefined(x, y) then PairEntry(x, y, w, bonus) else Entry(0.0, [])
  }

  predicate AllLabelsDefined(vs: seq<StudentVector>) {
    forall a, b :: 0 <= a < b < |vs| ==> LabelsDefined(vs[a], vs[b])
  }

  /**
   * `calculate_all_similarities`: for every pair of positions `i < j` the
   * pair's entry is stored under both orientations of the ids. The table is
   * symmetric and has no other keys; `TableEntries` shows that with distinct
   * ids every key holds the entry of its own pair. (With repeated ids a later
   * pair overwrites an earlier one, as the source's dictionary does.)
   */
  method AllSimilarities(vs: seq<StudentVector>, w: Weights, bonus: real) returns (table: map<(int, int), Entry>)
    requires AllLabelsDefined(vs)
    ensures table == RowsTable(vs, PairEntryFn(w, bonus), |vs|)
    ensures table.Keys == AllPairKeys(vs)
    ensures Symmetric(table)
  {
    ghost var f := PairEntryFn(w, bonus);
    table := map[];
    var n := |vs|;
    for i := 0 to n
      invariant table == RowsTable(vs, f, i)
    {
      table := RowSimilarities(vs, w, bonus, i, table);
    }
    TableComplete(vs, f);
  }

  /**
   * The inner loop of `calculate_all_similarities` for row `i`: scores the
   * pairs `(i, j)` with `j > i` and stores each under both keys.
   */
  method RowSimilarities(vs: seq<StudentVector>, w: Weights, bonus: real, i: int, before: map<(int, int), Entry>)
    returns (table: map<(int, int), Entry>)
    requires AllLabelsDefined(vs) && 0 <= i < |vs|
    requires before == RowsTable(vs, PairEntryFn(w, bonus), i)
    ensures table == RowsTable(vs, PairEntryFn(w, bonus), i + 1)
  {
    ghost var f := PairEntryFn(w, bonus);
    table := before;
    for j := i + 1 to |vs|
      invariant table == RowTable(vs, f, i, j)
    {
      var student1, student2 := vs[i], vs[j];
      var score, reasons := CalculateSimilarityScore(student1, student2, w, bonus);
      assert Entry(score, reasons) == f(student1, student2);
      table := table[(student1.id, student2.id) := Entry(score, reasons)];
      table := table[(student2.id, student1.id) := Entry(score, reasons)];
    }
  }

  /** With distinct ids the complete table holds `calculate_similarity_score` of each pair, under both keys. */
  lemma TableEntries(vs: seq<StudentVector>, w: Weights, bonus: real)
    requires AllLabelsDefined(vs) && DistinctIds(vs)
    ensures var t := RowsTable(vs, PairEntryFn(w, bonus), |vs|);
      forall a, b :: 0 <= a < b < |vs| ==>
        && (vs[a].id, vs[b].id) in t && t[(vs[a].id, vs[b].id)] == PairEntry(vs[a], vs[b], w, bonus)
        && (vs[b].id, vs[a].id) in t && t[(vs[b].id, vs[a].id)] == PairEntry(vs[a], vs[b], w, bonus)
  {
    var f := PairEntryFn(w, bonus);
    var t := RowsTable(vs, f, |vs|);
    RowsTableHolds(vs, f, |vs|);
    forall a, b | 0 <= a < b < |vs|
      ensures && (vs[a].id, vs[b].id) in t && t[(vs[a].id, vs[b].id)] == PairEntry(vs[a], vs[b], w, bonus)
              && (vs[b].id, vs[a].id) in t && t[(vs[b].id, vs[a].id)] == PairEntry(vs[a], vs[b], w, bonus)
    {
      assert Visited(a, b, |vs|, |vs| + 1);
      assert LabelsDefined(vs[a], vs[b]);
      assert f(vs[a], vs[b]) == PairEntry(vs[a], vs[b], w, bonus);
    }
  }
}
