/**
 * The search space of `AStarMatcher`: a `MatchingState` records the pairs
 * fixed so far, the students still unmatched, the running total score and
 * the A* costs g = -total, h = heuristic of the unmatched set, f = g + h.
 * A successor pairs the anchor (the smallest unmatched id) with one other
 * unmatched student.
 */
module Matching {
  import opened Similarity
  import opened PairTable
  import opened Heuristic

  /** One matched pair `(student1_id, student2_id, score, reasons)`. */
  datatype Pair = Pair(first: int, second: int, score: real, reasons: seq<string>)

  datatype MatchingState = MatchingState(
    pairs: seq<Pair>,
    unmatched: set<int>,
    totalScore: real,
    gCost: real,
    hCost: real)
  {
    /** The priority by which the frontier is ordered. */
    function FCost(): real {
      gCost + hCost
    }
  }

  /** The pair the successor step builds from the table entry of `(a, b)`. */
  function MakePair(m: Matrix, a: int, b: int): Pair {
    var e := Lookup(m, a, b);
    Pair(a, b, e.score, e.reasons)
  }

  /** The sum of the pair scores, `sum(pair[2] for pair in pairs)`. */
  function SumScores(ps: seq<Pair>): real {
    if ps == [] then 0.0 else SumScores(ps[..|ps| - 1]) + ps[|ps| - 1].score
  }

  /** The ids of the pairs, in order, each pair contributing its two ids. */
  function Ids(ps: seq<Pair>): seq<int> {
    if ps == [] then [] else Ids(ps[..|ps| - 1]) + [ps[|ps| - 1].first, ps[|ps| - 1].second]
  }

  /** The id pairs alone: what identifies a state, together with the unmatched set. */
  function IdPairs(ps: seq<Pair>): (r: seq<(int, int)>)
    ensures |r| == |ps|
    ensures forall k :: 0 <= k < |ps| ==> r[k] == (ps[k].first, ps[k].second)
  {
    if ps == [] then [] else IdPairs(ps[..|ps| - 1]) + [(ps[|ps| - 1].first, ps[|ps| - 1].second)]
  }

  datatype StateKey = StateKey(idPairs: seq<(int, int)>, unmatched: set<int>)

  function Key(s: MatchingState): StateKey {
    StateKey(IdPairs(s.pairs), s.unmatched)
  }

  predicate Distinct(xs: seq<int>) {
    forall i, j :: 0 <= i < j < |xs| ==> xs[i] != xs[j]
  }

  /** `is_goal_state`: nobody is left unmatched. */
  predicate IsGoalState(s: MatchingState) {
    |s.unmatched| == 0
  }

  /** The smallest id of a non-empty set: the anchor of a successor step. */
  ghost function MinOf(s: set<int>): (x: int)
    requires s != {}
    ensures x in s && forall y :: y in s ==> x <= y
    decreases s
  {
    var p := Pick(s);
    assert forall y :: y in s ==> y == p || y in s - {p};
    if s - {p} == {} then p
    else
      var r := MinOf(s - {p});
      if p <= r then p else r
  }

  /** The start state: nothing matched, `h` the heuristic of all ids. */
  ghost function Initial(m: Matrix, ids: set<int>): MatchingState {
    MatchingState([], ids, 0.0, 0.0, HeuristicValue(m, ids))
  }

  /** The successor that pairs `a` with `b`. */
  ghost function Child(s: MatchingState, a: int, b: int, m: Matrix): MatchingState {
    var p := MakePair(m, a, b);
    var u := s.unmatched - {a, b};
    var total := s.totalScore + p.score;
    MatchingState(s.pairs + [p], u, total, -total, HeuristicValue(m, u))
  }

  /**
   * A state the search can reach over the ids `ids`: every pair carries its
   * table entry, the costs agree with the pairs and the unmatched set, and
   * the matched and unmatched students partition `ids`, each matched once.
   */
  ghost predicate Valid(s: MatchingState, m: Matrix, ids: set<int>) {
    && (forall k :: 0 <= k < |s.pairs| ==> s.pairs[k] == MakePair(m, s.pairs[k].first, s.pairs[k].second))
    && s.totalScore == SumScores(s.pairs)
    && s.gCost == -s.totalScore
    && s.hCost == HeuristicValue(m, s.unmatched)
    && Distinct(Ids(s.pairs))
    && s.unmatched <= ids
    && (forall x :: x in Ids(s.pairs) ==> x in ids && x !in s.unmatched)
    && (forall x :: x in ids ==> x in s.unmatched || x in Ids(s.pairs))
  }

  // ---------------------------------------------------------------------
  // Facts about states

  lemma AppendPair(ps: seq<Pair>, p: Pair)
    ensures SumScores(ps + [p]) == SumScores(ps) + p.score
    ensures Ids(ps + [p]) == Ids(ps) + [p.first, p.second]
    ensures IdPairs(ps + [p]) == IdPairs(ps) + [(p.first, p.second)]
  {
    assert (ps + [p])[..|ps|] == ps;
  }

  lemma InitialValid(m: Matrix, ids: set<int>)
    ensures Valid(Initial(m, ids), m, ids)
  {
  }

  /**
   * A successor of a valid state is valid: it removes exactly the anchor and
   * its partner from the unmatched set, appends that one pair and adds its
   * score to the total.
   */
  lemma ChildValid(s: MatchingState, a: int, b: int, m: Matrix, ids: set<int>)
    requires Valid(s, m, ids)
    requires a in s.unmatched && b in s.unmatched && a != b
    ensures Valid(Child(s, a, b, m), m, ids)
    ensures |Child(s, a, b, m).unmatched| == |s.unmatched| - 2
  {
    var c := Child(s, a, b, m);
    var p := MakePair(m, a, b);
    AppendPair(s.pairs, p);
    var xs := Ids(s.pairs);
    assert Ids(c.pairs) == xs + [a, b];
    assert a !in xs && b !in xs;
    DistinctAppend(xs, a, b);
    forall k | 0 <= k < |c.pairs| ensures c.pairs[k] == MakePair(m, c.pairs[k].first, c.pairs[k].second) {
      if k < |s.pairs| { assert c.pairs[k] == s.pairs[k]; }
    }
    forall x | x in Ids(c.pairs) ensures x in ids && x !in c.unmatched {
      if x in xs {} else { assert x == a || x == b; }
    }
    forall x | x in ids ensures x in c.unmatched || x in Ids(c.pairs) {
      if x in s.unmatched && x != a && x != b { assert x in c.unmatched; }
    }
    assert s.unmatched == c.unmatched + {a, b};
  }

  lemma DistinctAppend(xs: seq<int>, a: int, b: int)
    requires Distinct(xs) && a !in xs && b !in xs && a != b
    ensures Distinct(xs + [a, b])
  {
    forall i, j | 0 <= i < j < |xs + [a, b]| ensures (xs + [a, b])[i] != (xs + [a, b])[j] {
      if j < |xs| {
        assert (xs + [a, b])[i] == xs[i] && (xs + [a, b])[j] == xs[j];
      } else if i < |xs| {
        assert (xs + [a, b])[i] == xs[i];
      }
    }
  }

  /** Two valid states with the same key are the same state. */
  lemma ValidKeyInjective(s: MatchingState, t: MatchingState, m: Matrix, ids: set<int>)
    requires Valid(s, m, ids) && Valid(t, m, ids)
    requires Key(s) == Key(t)
    ensures s == t
  {
    assert |s.pairs| == |IdPairs(s.pairs)| == |t.pairs|;
    forall k | 0 <= k < |s.pairs| ensures s.pairs[k] == t.pairs[k] {
      assert IdPairs(s.pairs)[k] == IdPairs(t.pairs)[k];
    }
    assert s.pairs == t.pairs;
  }

  /**
   * A valid goal state matches every id exactly once, and its f cost is
   * the negated total of its pairs.
   */
  lemma GoalCovers(s: MatchingState, m: Matrix, ids: set<int>)
    requires Valid(s, m, ids) && IsGoalState(s)
    ensures Distinct(Ids(s.pairs))
    ensures forall x :: x in ids <==> x in Ids(s.pairs)
    ensures s.FCost() == -SumScores(s.pairs)
  {
    HeuristicRange(m, s.unmatched);
  }
}
