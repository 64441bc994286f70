/**
 * `AStarMatcher`: best-first search over partial matchings, the
 * `match_students` wrapper, and the bookkeeping fields `nodes_explored`
 * and `best_solution` that the search updates.
 */
module Matcher {
  import opened Wrappers
  import opened Students
  import opened PairTable
  import opened Similarity
  import opened Heuristic
  import opened Matching
  import opened AStar

  /** How a search run ended. */
  datatype SearchOutcome =
    | Found       // a goal state was popped
    | Exhausted   // the frontier ran empty
    | OutOfBudget // `maxNodes` states were popped without reaching a goal

  /** The dictionary `match_students` returns. */
  datatype MatchResult = MatchResult(
    matches: seq<Pair>,
    totalScore: real,
    averageScore: real,
    nodesExplored: int,
    unmatched: seq<int>)

  /** `{student['id'] for student in student_vectors}` */
  function IdSet(vs: seq<StudentVector>): set<int> {
    set i | 0 <= i < |vs| :: vs[i].id
  }

  /** With distinct ids there are as many ids as students. */
  lemma {:induction false} IdSetSize(vs: seq<StudentVector>)
    requires DistinctIds(vs)
    ensures |IdSet(vs)| == |vs|
  {
    if vs != [] {
      var init := vs[..|vs| - 1];
      assert DistinctIds(init);
      IdSetSize(init);
      assert IdSet(vs) == IdSet(init) + {vs[|vs| - 1].id};
      assert vs[|vs| - 1].id !in IdSet(init);
    }
  }

  /** With distinct ids, the even number of students the search receives can always be paired up. */
  lemma KeptPerfect(vs: seq<StudentVector>)
    requires DistinctIds(vs)
    ensures exists mate :: Perfect(mate, IdSet(Kept(vs)))
  {
    assert DistinctIds(Kept(vs));
    IdSetSize(Kept(vs));
    var mate := PerfectExists(IdSet(Kept(vs)));
  }

  /** `[s['id'] for s in student_vectors]` */
  function IdList(vs: seq<StudentVector>): (r: seq<int>)
    ensures |r| == |vs| && forall i :: 0 <= i < |vs| ==> r[i] == vs[i].id
  {
    seq(|vs|, i requires 0 <= i < |vs| => vs[i].id)
  }

  /** An odd count whose dropped last student has an unlabelled value shared with a kept one is accepted. */
  lemma DroppedStudentUnscored()
    ensures var vs := [StudentVector(1, "a", 7, 0, 1, 1, 0, []), StudentVector(2, "b", 0, 0, 1, 1, 0, []),
                       StudentVector(3, "c", 7, 0, 1, 1, 0, [])];
      AllLabelsDefined(Kept(vs)) && !AllLabelsDefined(vs)
  {
    var vs := [StudentVector(1, "a", 7, 0, 1, 1, 0, []), StudentVector(2, "b", 0, 0, 1, 1, 0, []),
               StudentVector(3, "c", 7, 0, 1, 1, 0, [])];
    assert Kept(vs) == vs[..2];
    assert !LabelsDefined(vs[0], vs[2]);
  }

  /** The students `match_students` hands to the search: the last one is left out of an odd count. */
  function Kept(vs: seq<StudentVector>): seq<StudentVector> {
    if |vs| % 2 == 1 then vs[..|vs| - 1] else vs
  }

  /** The table `calculate_all_similarities` builds for `vs`. */
  ghost function SimilarityMatrix(vs: seq<StudentVector>, w: Weights, bonus: real): Matrix {
    RowsTable(vs, PairEntryFn(w, bonus), |vs|)
  }

  /** The pairs of `pairs`, scored by `m`, form an optimal perfect matching of `ids`. */
  ghost predicate OptimalMatching(pairs: seq<Pair>, m: Matrix, ids: set<int>) {
    && Distinct(Ids(pairs))
    && (forall x :: x in ids <==> x in Ids(pairs))
    && (forall k :: 0 <= k < |pairs| ==> pairs[k] == MakePair(m, pairs[k].first, pairs[k].second))
    && forall mate :: Perfect(mate, ids) ==> SumScores(pairs) >= MatchingValue(m, mate, ids)
  }

  class AStarMatcher {
    /** The similarity engine's configuration. */
    const weights: Weights
    const bonus: real
    /** The node budget (`ASTAR_MAX_NODES`). */
    const maxNodes: nat
    var bestSolution: Option<MatchingState>
    var nodesExplored: nat

    constructor (weights: Weights, bonus: real, maxNodes: nat)
      ensures this.weights == weights && this.bonus == bonus && this.maxNodes == maxNodes
      ensures bestSolution == None && nodesExplored == 0
    {
      this.weights := weights;
      this.bonus := bonus;
      this.maxNodes := maxNodes;
      bestSolution := None;
      nodesExplored := 0;
    }

    /** `calculate_heuristic`: minus half the sum of every student's best partner score. */
    method CalculateHeuristic(unmatched: set<int>, m: Matrix) returns (h: real)
      ensures h == HeuristicValue(m, unmatched)
    {
      if |unmatched| <= 1 {
        return 0.0;
      }
      var maxPossibleScore := 0.0;
      var remaining := unmatched;
      while remaining != {}
        invariant remaining <= unmatched
        invariant maxPossibleScore + SumBest(m, remaining, unmatched) == SumBest(m, unmatched, unmatched)
        decreases |remaining|
      {
        ghost var some := Pick(remaining);
        var studentId :| studentId in remaining;
        var bestScore := BestPartnerScore(studentId, unmatched, m);
        SumBestRemove(m, remaining, unmatched, studentId);
        maxPossibleScore := maxPossibleScore + bestScore;
        remaining := remaining - {studentId};
      }
      maxPossibleScore := maxPossibleScore / 2.0;
      h := -maxPossibleScore;
    }

    /** The inner loop of `calculate_heuristic`: the best score of `studentId` with another unmatched student. */
    method BestPartnerScore(studentId: int, unmatched: set<int>, m: Matrix) returns (bestScore: real)
      ensures bestScore == BestOver(m, studentId, unmatched - {studentId})
    {
      bestScore := 0.0;
      var others := unmatched;
      BestOverBounds(m, studentId, unmatched - {studentId});
      while others != {}
        invariant bestScore >= 0.0
        invariant RMax(bestScore, BestOver(m, studentId, others - {studentId}))
               == BestOver(m, studentId, unmatched - {studentId})
        decreases |others|
      {
        ghost var some := Pick(others);
        var otherId :| otherId in others;
        ghost var rest := others - {studentId};
        if otherId != studentId {
          BestOverRemove(m, studentId, rest, otherId);
          assert rest - {otherId} == others - {otherId} - {studentId};
        } else {
          assert rest == others - {otherId} - {studentId};
        }
        if otherId != studentId && (studentId, otherId) in m {
          var score := m[(studentId, otherId)].score;
          bestScore := RMax(bestScore, score);
        }
        others := others - {otherId};
      }
    }

    /** `list(unmatched_students)`, with the smallest id first. */
    method UnmatchedList(u: set<int>) returns (xs: seq<int>)
      ensures |xs| == |u| && Distinct(xs)
      ensures forall x :: x in xs <==> x in u
      ensures u != {} ==> xs[0] == MinOf(u)
    {
      xs := [];
      if u == {} {
        return;
      }
      ghost var least := MinOf(u);
      var first :| first in u && forall y :: y in u ==> first <= y;
      assert first == least;
      xs := [first];
      var rest := u - {first};
      while rest != {}
        invariant rest <= u && |xs| + |rest| == |u| && Distinct(xs)
        invariant xs != [] && xs[0] == first
        invariant forall x :: x in u <==> x in xs || x in rest
        invariant forall x :: x in xs ==> x !in rest
        decreases |rest|
      {
        ghost var some := Pick(rest);
        var x :| x in rest;
        xs := xs + [x];
        rest := rest - {x};
      }
    }

    /** The body of the loop of `generate_successors`: the state after pairing `first` with `second`. */
    method Successor(state: MatchingState, first: int, second: int, m: Matrix) returns (newState: MatchingState)
      ensures newState == Child(state, first, second, m)
    {
      var score, reasons;
      if (first, second) in m {
        score, reasons := m[(first, second)].score, m[(first, second)].reasons;
      } else {
        score, reasons := 0.0, [];
      }
      var newMatchedPairs := state.pairs + [Pair(first, second, score, reasons)];
      var newUnmatched := state.unmatched - {first, second};
      var newTotalScore := state.totalScore + score;
      var newGCost := -newTotalScore;
      var newHCost := CalculateHeuristic(newUnmatched, m);
      newState := MatchingState(newMatchedPairs, newUnmatched, newTotalScore, newGCost, newHCost);
    }

    /** The loop of `generate_successors`: one successor per partner, in order. */
    method PairWithEach(state: MatchingState, firstStudent: int, partners: seq<int>, m: Matrix)
      returns (successors: seq<MatchingState>)
      ensures successors == Children(state, firstStudent, partners, m)
    {
      successors := [];
      for i := 0 to |partners|
        invariant successors == Children(state, firstStudent, partners[..i], m)
      {
        var secondStudent := partners[i];
        var newState := Successor(state, firstStudent, secondStudent, m);
        assert partners[..i + 1][..i] == partners[..i];
        successors := successors + [newState];
      }
      assert partners[..|partners|] == partners;
    }

    /**
     * `generate_successors`: the anchor (the smallest unmatched id) paired
     * with each other unmatched student, one successor each.
     */
    method GenerateSuccessors(state: MatchingState, m: Matrix) returns (successors: seq<MatchingState>)
      ensures |state.unmatched| < 2 ==> successors == []
      ensures |state.unmatched| >= 2 ==> |successors| == |state.unmatched| - 1
      ensures state.unmatched != {} ==> SuccessorsOf(state, m, successors)
    {
      successors := [];
      var unmatchedList := UnmatchedList(state.unmatched);
      if |unmatchedList| < 2 {
        if unmatchedList != [] {
          assert forall b :: b in state.unmatched ==> b == unmatchedList[0];
          assert SuccessorsOf(state, m, successors);
        }
        return;
      }
      var firstStudent := unmatchedList[0];
      ListTail(unmatchedList, state.unmatched);
      successors := PairWithEach(state, firstStudent, unmatchedList[1..], m);
      ChildrenCover(state, m, unmatchedList[1..]);
    }

    /**
     * `a_star_search`: pop a state of least f cost, stop at the first goal,
     * skip states whose key is closed, otherwise close the state and push
     * its successors that are not closed. `maxNodes` bounds the number of
     * pops.
     */
    method AStarSearch(vs: seq<StudentVector>) returns (pairs: seq<Pair>, outcome: SearchOutcome)
      requires AllLabelsDefined(vs)
      modifies this
      ensures nodesExplored <= maxNodes
      ensures outcome.Found? ==>
        && bestSolution.Some? && bestSolution.value.pairs == pairs && IsGoalState(bestSolution.value)
        && OptimalMatching(pairs, SimilarityMatrix(vs, weights, bonus), IdSet(vs))
      ensures outcome.Exhausted? ==>
        && pairs == [] && bestSolution == old(bestSolution)
        && forall mate :: !Perfect(mate, IdSet(vs))
      ensures outcome.OutOfBudget? ==>
        pairs == [] && bestSolution == old(bestSolution) && nodesExplored == maxNodes
    {
      nodesExplored := 0;
      var similarityMatrix := AllSimilarities(vs, weights, bonus);
      var allStudentIds := IdSet(vs);
      var h := CalculateHeuristic(allStudentIds, similarityMatrix);
      var initialState := MatchingState([], allStudentIds, 0.0, 0.0, h);
      var openList := multiset{initialState};
      var closedSet: set<StateKey> := {};
      SearchStart(similarityMatrix, allStudentIds);
      while openList != multiset{}
        invariant SearchInv(similarityMatrix, allStudentIds, openList, closedSet)
        invariant nodesExplored <= maxNodes
        invariant bestSolution == old(bestSolution)
        decreases maxNodes - nodesExplored
      {
        if nodesExplored == maxNodes {
          return [], OutOfBudget;
        }
        LeastCostExists(openList);
        var currentState :| currentState in openList && forall t :: t in openList ==> currentState.FCost() <= t.FCost();
        ghost var popped := openList;
        openList := openList - multiset{currentState};
        nodesExplored := nodesExplored + 1;
        if IsGoalState(currentState) {
          SearchFound(similarityMatrix, allStudentIds, popped, closedSet, currentState);
          bestSolution := Some(currentState);
          return currentState.pairs, Found;
        }
        if Key(currentState) in closedSet {
          SearchSkip(similarityMatrix, allStudentIds, popped, closedSet, currentState);
          continue;
        }
        ghost var closedBefore := closedSet;
        closedSet := closedSet + {Key(currentState)};
        var successors := GenerateSuccessors(currentState, similarityMatrix);
        openList := PushSuccessors(openList, closedSet, successors);
        ExpandStep(similarityMatrix, allStudentIds, popped, closedBefore, currentState, successors, openList);
      }
      SearchExhausted(similarityMatrix, allStudentIds, closedSet);
      return [], Exhausted;
    }

    /**
     * `match_students`: fewer than two students give an empty result with
     * everybody unmatched; an odd count leaves the last student out; the
     * rest are matched by `AStarSearch`, and the statistics are the total
     * and the mean of the pair scores.
     */
    method MatchStudents(vs: seq<StudentVector>) returns (r: MatchResult)
      requires AllLabelsDefined(Kept(vs))
      modifies this
      ensures |vs| < 2 ==>
        && r == MatchResult([], 0.0, 0.0, 0, IdList(vs))
        && nodesExplored == old(nodesExplored) && bestSolution == old(bestSolution)
      ensures |vs| >= 2 ==>
        && r.unmatched == (if |vs| % 2 == 1 then [vs[|vs| - 1].id] else [])
        && r.nodesExplored == nodesExplored <= maxNodes
      ensures r.totalScore == SumScores(r.matches)
      ensures r.averageScore == if r.matches == [] then 0.0 else r.totalScore / (|r.matches| as real)
      ensures r.matches != [] ==>
        && |vs| >= 2 && bestSolution.Some? && bestSolution.value.pairs == r.matches
        && OptimalMatching(r.matches, SimilarityMatrix(Kept(vs), weights, bonus), IdSet(Kept(vs)))
      ensures |vs| >= 2 && r.matches == [] ==>
        nodesExplored == maxNodes || forall mate :: !Perfect(mate, IdSet(Kept(vs)))
      ensures |vs| >= 2 && r.matches == [] && DistinctIds(vs) ==> nodesExplored == maxNodes
    {
      if |vs| < 2 {
        return MatchResult([], 0.0, 0.0, 0, IdList(vs));
      }
      var unmatchedStudents := [];
      var studentVectors := vs;
      if |vs| % 2 == 1 {
        unmatchedStudents := [vs[|vs| - 1].id];
        studentVectors := vs[..|vs| - 1];
      }
      assert studentVectors == Kept(vs);
      var matchedPairs, outcome := AStarSearch(studentVectors);
      if outcome.Found? {
        assert vs[0].id in IdSet(studentVectors);
      }
      if DistinctIds(vs) {
        KeptPerfect(vs);
      }
      var totalScore := SumScores(matchedPairs);
      var averageScore := if matchedPairs == [] then 0.0 else totalScore / (|matchedPairs| as real);
      r := MatchResult(matchedPairs, totalScore, averageScore, nodesExplored, unmatchedStudents);
    }

    /** The inner loop of `a_star_search`: push every successor whose key is not closed. */
    method PushSuccessors(openList: multiset<MatchingState>, closedSet: set<StateKey>, successors: seq<MatchingState>)
      returns (result: multiset<MatchingState>)
      ensures result == openList + Unvisited(successors, closedSet)
    {
      result := openList;
      for i := 0 to |successors|
        invariant result == openList + Unvisited(successors[..i], closedSet)
      {
        var successor := successors[i];
        assert successors[..i + 1][..i] == successors[..i];
        if Key(successor) !in closedSet {
          result := result + multiset{successor};
        }
      }
      assert successors[..|successors|] == successors;
    }
  }

  /** The successors whose key is not closed, as the frontier receives them. */
  function Unvisited(successors: seq<MatchingState>, closed: set<StateKey>): multiset<MatchingState> {
    if successors == [] then multiset{}
    else
      var last := successors[|successors| - 1];
      Unvisited(successors[..|successors| - 1], closed) + (if Key(last) in closed then multiset{} else multiset{last})
  }

  /** Every successor is pushed or closed, and only successors are pushed. */
  lemma {:induction false} UnvisitedSpec(successors: seq<MatchingState>, closed: set<StateKey>)
    ensures forall k :: 0 <= k < |successors| ==> successors[k] in Unvisited(successors, closed) || Key(successors[k]) in closed
    ensures forall s :: s in Unvisited(successors, closed) ==> s in successors && Key(s) !in closed
  {
    if successors != [] {
      var init := successors[..|successors| - 1];
      UnvisitedSpec(init, closed);
      forall k | 0 <= k < |successors|
        ensures successors[k] in Unvisited(successors, closed) || Key(successors[k]) in closed
      {
        if k < |init| { assert successors[k] == init[k]; }
      }
      forall s | s in Unvisited(successors, closed) ensures s in successors && Key(s) !in closed {
        if s in Unvisited(init, closed) { assert s in init; }
      }
    }
  }

  /** Successors of a valid state are valid. */
  lemma SuccessorsValid(cur: MatchingState, m: Matrix, ids: set<int>, successors: seq<MatchingState>)
    requires Valid(cur, m, ids) && cur.unmatched != {} && SuccessorsOf(cur, m, successors)
    ensures forall k :: 0 <= k < |successors| ==> Valid(successors[k], m, ids)
  {
    forall k | 0 <= k < |successors| ensures Valid(successors[k], m, ids) {
      var b := LastPartner(successors[k]);
      ChildValid(cur, MinOf(cur.unmatched), b, m, ids);
    }
  }

  /** One expansion of `a_star_search` keeps the search invariant. */
  lemma ExpandStep(m: Matrix, ids: set<int>, open: multiset<MatchingState>, closed: set<StateKey>,
                   cur: MatchingState, successors: seq<MatchingState>, open': multiset<MatchingState>)
    requires SearchInv(m, ids, open, closed)
    requires cur in open && !IsGoalState(cur) && Key(cur) !in closed
    requires SuccessorsOf(cur, m, successors)
    requires open' == open - multiset{cur} + Unvisited(successors, closed + {Key(cur)})
    ensures SearchInv(m, ids, open', closed + {Key(cur)})
  {
    var closed' := closed + {Key(cur)};
    UnvisitedSpec(successors, closed');
    ExpandedValid(m, ids, open - multiset{cur}, cur, successors, closed', open');
    ExpandedSeen(m, cur, successors, closed', open - multiset{cur}, open');
    SearchExpand(m, ids, open, closed, cur, open');
  }

  /** The frontier after an expansion holds valid states only. */
  lemma ExpandedValid(m: Matrix, ids: set<int>, rest: multiset<MatchingState>, cur: MatchingState,
                      successors: seq<MatchingState>, closed: set<StateKey>, open': multiset<MatchingState>)
    requires forall s :: s in rest ==> Valid(s, m, ids)
    requires Valid(cur, m, ids) && cur.unmatched != {} && SuccessorsOf(cur, m, successors)
    requires forall s :: s in Unvisited(successors, closed) ==> s in successors && Key(s) !in closed
    requires open' == rest + Unvisited(successors, closed)
    ensures forall s :: s in open' ==> Valid(s, m, ids)
  {
    SuccessorsValid(cur, m, ids, successors);
    forall s | s in open' ensures Valid(s, m, ids) {
      if s !in rest {
        assert s in Unvisited(successors, closed);
      }
    }
  }

  /** After an expansion, every successor is on the frontier or closed. */
  lemma ExpandedSeen(m: Matrix, cur: MatchingState, successors: seq<MatchingState>, closed: set<StateKey>,
                     rest: multiset<MatchingState>, open': multiset<MatchingState>)
    requires cur.unmatched != {} && SuccessorsOf(cur, m, successors)
    requires forall k :: 0 <= k < |successors| ==> successors[k] in Unvisited(successors, closed) || Key(successors[k]) in closed
    requires open' == rest + Unvisited(successors, closed)
    ensures forall b :: b in cur.unmatched && b != MinOf(cur.unmatched) ==>
      Seen(Child(cur, MinOf(cur.unmatched), b, m), open', closed)
  {
    var a := MinOf(cur.unmatched);
    forall b | b in cur.unmatched && b != a ensures Seen(Child(cur, a, b, m), open', closed) {
      var k :| 0 <= k < |successors| && successors[k] == Child(cur, a, b, m);
      assert successors[k] in Unvisited(successors, closed) || Key(successors[k]) in closed;
    }
  }

  /** The successors pairing `a` with each of `partners`, in order. */
  ghost function Children(state: MatchingState, a: int, partners: seq<int>, m: Matrix): (r: seq<MatchingState>)
    ensures |r| == |partners|
  {
    if partners == [] then []
    else Children(state, a, partners[..|partners| - 1], m) + [Child(state, a, partners[|partners| - 1], m)]
  }

  lemma {:induction false} ChildrenIndex(state: MatchingState, a: int, partners: seq<int>, m: Matrix)
    ensures forall k :: 0 <= k < |partners| ==> Children(state, a, partners, m)[k] == Child(state, a, partners[k], m)
  {
    if partners != [] {
      ChildrenIndex(state, a, partners[..|partners| - 1], m);
    }
  }

  /** The partner of the anchor in the pair a successor step appended last. */
  function LastPartner(s: MatchingState): int {
    if s.pairs == [] then 0 else s.pairs[|s.pairs| - 1].second
  }

  /**
   * `successors` pairs the anchor of `state` with each other unmatched
   * student: every successor is such a pairing, and every such pairing is
   * a successor.
   */
  ghost predicate SuccessorsOf(state: MatchingState, m: Matrix, successors: seq<MatchingState>)
    requires state.unmatched != {}
  {
    SuccessorsSound(state, MinOf(state.unmatched), m, successors)
    && SuccessorsComplete(state, MinOf(state.unmatched), m, successors)
  }

  ghost predicate SuccessorsSound(state: MatchingState, a: int, m: Matrix, successors: seq<MatchingState>) {
    forall k :: 0 <= k < |successors| ==>
      && LastPartner(successors[k]) in state.unmatched
      && LastPartner(successors[k]) != a
      && successors[k] == Child(state, a, LastPartner(successors[k]), m)
  }

  ghost predicate SuccessorsComplete(state: MatchingState, a: int, m: Matrix, successors: seq<MatchingState>) {
    forall b :: b in state.unmatched && b != a ==>
      exists k :: 0 <= k < |successors| && successors[k] == Child(state, a, b, m)
  }

  /** Pairing the anchor with each other unmatched student yields exactly the successors. */
  lemma ChildrenCover(state: MatchingState, m: Matrix, partners: seq<int>)
    requires state.unmatched != {}
    requires forall b :: b in partners <==> b in state.unmatched && b != MinOf(state.unmatched)
    ensures SuccessorsOf(state, m, Children(state, MinOf(state.unmatched), partners, m))
  {
    var a := MinOf(state.unmatched);
    ChildrenIndex(state, a, partners, m);
    ChildrenSound(state, a, partners, m);
    ChildrenComplete(state, a, partners, m);
  }

  lemma ChildrenSound(state: MatchingState, a: int, partners: seq<int>, m: Matrix)
    requires forall k :: 0 <= k < |partners| ==> partners[k] in state.unmatched && partners[k] != a
    requires forall k :: 0 <= k < |partners| ==> Children(state, a, partners, m)[k] == Child(state, a, partners[k], m)
    ensures SuccessorsSound(state, a, m, Children(state, a, partners, m))
  {
    var successors := Children(state, a, partners, m);
    forall k | 0 <= k < |successors|
      ensures LastPartner(successors[k]) == partners[k]
    {
      assert successors[k] == Child(state, a, partners[k], m);
    }
  }

  lemma ChildrenComplete(state: MatchingState, a: int, partners: seq<int>, m: Matrix)
    requires forall b :: b in state.unmatched && b != a ==> b in partners
    requires forall k :: 0 <= k < |partners| ==> Children(state, a, partners, m)[k] == Child(state, a, partners[k], m)
    ensures SuccessorsComplete(state, a, m, Children(state, a, partners, m))
  {
    var successors := Children(state, a, partners, m);
    forall b | b in state.unmatched && b != a
      ensures exists k :: 0 <= k < |successors| && successors[k] == Child(state, a, b, m)
    {
      var i :| 0 <= i < |partners| && partners[i] == b;
      assert successors[i] == Child(state, a, b, m);
    }
  }

  /** Behind its first element, a list of the distinct elements of `u` holds the rest of `u`. */
  lemma ListTail(xs: seq<int>, u: set<int>)
    requires xs != [] && Distinct(xs)
    requires forall x :: x in xs <==> x in u
    ensures forall b :: b in xs[1..] <==> b in u && b != xs[0]
  {
    forall b | b in u && b != xs[0] ensures b in xs[1..] {
      var i :| 0 <= i < |xs| && xs[i] == b;
      assert xs[1..][i - 1] == b;
    }
    forall b | b in xs[1..] ensures b in u && b != xs[0] {
      var i :| 0 <= i < |xs[1..]| && xs[1..][i] == b;
      assert xs[i + 1] == b;
    }
  }
}
