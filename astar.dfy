/**
 * Why the first goal `a_star_search` pops is an optimal perfect matching.
 *
 * Fix any perfect matching `mate` of the ids. Its path is the sequence of
 * states the successor step produces when every anchor is paired with its
 * partner under `mate`. The search keeps this invariant: the start of the
 * path is on the frontier or closed, and once a state of the path is
 * closed, the next one is on the frontier or closed. Goals are never
 * closed, so some state of the path is always on the frontier, and its f
 * cost is at most -value(mate) by admissibility. The popped goal has the
 * least f cost, which is its negated total.
 */
module AStar {
  import opened PairTable
  import opened Heuristic
  import opened Matching

  /** State `j` of the path of `mate`; it stays at the goal once reached. */
  ghost function PathState(m: Matrix, ids: set<int>, mate: map<int, int>, j: nat): MatchingState
    decreases j
  {
    if j == 0 then Initial(m, ids)
    else
      var s := PathState(m, ids, mate, j - 1);
      if s.unmatched == {} then s
      else
        var a := MinOf(s.unmatched);
        if a in mate then Child(s, a, mate[a], m) else s
  }

  /**
   * Every state of the path of a perfect matching is valid, its unmatched
   * students are matched among themselves by `mate`, and two students leave
   * the unmatched set per step until it is empty.
   */
  lemma {:induction false} PathValid(m: Matrix, ids: set<int>, mate: map<int, int>, j: nat)
    requires Perfect(mate, ids)
    ensures Valid(PathState(m, ids, mate, j), m, ids)
    ensures Perfect(mate, PathState(m, ids, mate, j).unmatched)
    ensures PathState(m, ids, mate, j).unmatched == {}
         || |PathState(m, ids, mate, j).unmatched| + 2 * j == |ids|
    decreases j
  {
    if j == 0 {
      InitialValid(m, ids);
    } else {
      PathValid(m, ids, mate, j - 1);
      var s := PathState(m, ids, mate, j - 1);
      if s.unmatched != {} {
        var a := MinOf(s.unmatched);
        var b := mate[a];
        ChildValid(s, a, b, m, ids);
        assert Child(s, a, b, m) == PathState(m, ids, mate, j);
        PerfectWithout(mate, s.unmatched, a);
      }
    }
  }

  /** Taking one matched pair out of a perfectly matched set leaves it perfectly matched. */
  lemma PerfectWithout(mate: map<int, int>, u: set<int>, a: int)
    requires Perfect(mate, u) && a in u
    ensures Perfect(mate, u - {a, mate[a]})
  {
    var b := mate[a];
    forall x | x in u - {a, b}
      ensures x in mate && mate[x] in u - {a, b} && mate[x] != x && mate[x] in mate && mate[mate[x]] == x
    {
      assert x in u && x != a && x != b;
    }
  }

  /** The path of `mate` reaches the goal within `|ids|` steps. */
  lemma PathGoal(m: Matrix, ids: set<int>, mate: map<int, int>)
    requires Perfect(mate, ids)
    ensures IsGoalState(PathState(m, ids, mate, |ids|))
  {
    PathValid(m, ids, mate, |ids|);
  }

  /** Along the path, the total so far plus the value of the rest of `mate` is the value of `mate`. */
  lemma {:induction false} PathValue(m: Matrix, ids: set<int>, mate: map<int, int>, j: nat)
    requires Perfect(mate, ids) && Symmetric(m)
    ensures PathState(m, ids, mate, j).totalScore + MatchingValue(m, mate, PathState(m, ids, mate, j).unmatched)
         == MatchingValue(m, mate, ids)
    decreases j
  {
    if j > 0 {
      PathValue(m, ids, mate, j - 1);
      PathValid(m, ids, mate, j - 1);
      var s := PathState(m, ids, mate, j - 1);
      if s.unmatched != {} {
        var u := s.unmatched;
        var a := MinOf(u);
        var b := mate[a];
        MateSumRemove(m, mate, u, a);
        MateSumRemove(m, mate, u - {a}, b);
        assert u - {a} - {b} == u - {a, b};
        ScSymmetric(m, b, a);
      }
    }
  }

  /** Every state of the path has f cost at most the negated value of `mate`. */
  lemma PathCost(m: Matrix, ids: set<int>, mate: map<int, int>, j: nat)
    requires Perfect(mate, ids) && Symmetric(m)
    ensures PathState(m, ids, mate, j).FCost() <= -MatchingValue(m, mate, ids)
  {
    PathValid(m, ids, mate, j);
    PathValue(m, ids, mate, j);
    HeuristicAdmissible(m, mate, PathState(m, ids, mate, j).unmatched);
  }

  // ---------------------------------------------------------------------
  // The search invariant

  /** `s` waits on the frontier or its key is closed. */
  ghost predicate Seen(s: MatchingState, open: multiset<MatchingState>, closed: set<StateKey>) {
    s in open || Key(s) in closed
  }

  /** The path of `mate` is seen up to its first state that is not closed. */
  ghost predicate PathCovered(m: Matrix, ids: set<int>, mate: map<int, int>,
                              open: multiset<MatchingState>, closed: set<StateKey>) {
    && Seen(PathState(m, ids, mate, 0), open, closed)
    && forall j: nat :: Key(PathState(m, ids, mate, j)) in closed ==>
         Seen(PathState(m, ids, mate, j + 1), open, closed)
  }

  ghost predicate SearchInv(m: Matrix, ids: set<int>, open: multiset<MatchingState>, closed: set<StateKey>) {
    && (forall s :: s in open ==> Valid(s, m, ids))
    && (forall k :: k in closed ==> k.unmatched != {})
    && (forall mate :: Perfect(mate, ids) ==> PathCovered(m, ids, mate, open, closed))
  }

  /** The start: only the initial state on the frontier, nothing closed. */
  lemma SearchStart(m: Matrix, ids: set<int>)
    ensures SearchInv(m, ids, multiset{Initial(m, ids)}, {})
  {
    InitialValid(m, ids);
  }

  /** Popping a state whose key is already closed keeps the invariant. */
  lemma SearchSkip(m: Matrix, ids: set<int>, open: multiset<MatchingState>, closed: set<StateKey>,
                   cur: MatchingState)
    requires SearchInv(m, ids, open, closed)
    requires cur in open && Key(cur) in closed
    ensures SearchInv(m, ids, open - multiset{cur}, closed)
  {
    var open' := open - multiset{cur};
    forall mate | Perfect(mate, ids) ensures PathCovered(m, ids, mate, open', closed) {
      assert PathCovered(m, ids, mate, open, closed);
      SeenAfterPop(PathState(m, ids, mate, 0), open, closed, cur, open', closed);
      forall j: nat | Key(PathState(m, ids, mate, j)) in closed
        ensures Seen(PathState(m, ids, mate, j + 1), open', closed)
      {
        SeenAfterPop(PathState(m, ids, mate, j + 1), open, closed, cur, open', closed);
      }
    }
  }

  /** A state seen before `cur` is popped (and closed) is still seen. */
  lemma SeenAfterPop(s: MatchingState, open: multiset<MatchingState>, closed: set<StateKey>,
                     cur: MatchingState, open': multiset<MatchingState>, closed': set<StateKey>)
    requires Seen(s, open, closed)
    requires open - multiset{cur} <= open' && closed <= closed' && Key(cur) in closed'
    ensures Seen(s, open', closed')
  {
    if s != cur && s in open {
      assert s in open - multiset{cur};
    }
  }

  /**
   * Expanding a non-goal state `cur` keeps the invariant, when its key is
   * closed and every successor is afterwards on the frontier or closed.
   */
  lemma SearchExpand(m: Matrix, ids: set<int>, open: multiset<MatchingState>, closed: set<StateKey>,
                     cur: MatchingState, open': multiset<MatchingState>)
    requires SearchInv(m, ids, open, closed)
    requires cur in open && !IsGoalState(cur) && Key(cur) !in closed
    requires open - multiset{cur} <= open'
    requires forall s :: s in open' ==> Valid(s, m, ids)
    requires forall b :: b in cur.unmatched && b != MinOf(cur.unmatched) ==>
      Seen(Child(cur, MinOf(cur.unmatched), b, m), open', closed + {Key(cur)})
    ensures SearchInv(m, ids, open', closed + {Key(cur)})
  {
    var closed' := closed + {Key(cur)};
    forall mate | Perfect(mate, ids) ensures PathCovered(m, ids, mate, open', closed') {
      assert PathCovered(m, ids, mate, open, closed);
      SeenAfterPop(PathState(m, ids, mate, 0), open, closed, cur, open', closed');
      forall j: nat | Key(PathState(m, ids, mate, j)) in closed'
        ensures Seen(PathState(m, ids, mate, j + 1), open', closed')
      {
        if Key(PathState(m, ids, mate, j)) in closed {
          SeenAfterPop(PathState(m, ids, mate, j + 1), open, closed, cur, open', closed');
        } else {
          ExpandedOnPath(m, ids, mate, j, cur);
        }
      }
    }
  }

  /** If `cur` is state `j` of the path, state `j + 1` is one of its successors. */
  lemma ExpandedOnPath(m: Matrix, ids: set<int>, mate: map<int, int>, j: nat, cur: MatchingState)
    requires Perfect(mate, ids) && Valid(cur, m, ids) && !IsGoalState(cur)
    requires Key(PathState(m, ids, mate, j)) == Key(cur)
    ensures cur.unmatched != {}
    ensures mate[MinOf(cur.unmatched)] in cur.unmatched && mate[MinOf(cur.unmatched)] != MinOf(cur.unmatched)
    ensures PathState(m, ids, mate, j + 1) == Child(cur, MinOf(cur.unmatched), mate[MinOf(cur.unmatched)], m)
  {
    PathValid(m, ids, mate, j);
    ValidKeyInjective(PathState(m, ids, mate, j), cur, m, ids);
  }

  /** Some state on the frontier has f cost at most the negated value of any perfect matching. */
  lemma SearchWitness(m: Matrix, ids: set<int>, open: multiset<MatchingState>, closed: set<StateKey>,
                      mate: map<int, int>)
    requires SearchInv(m, ids, open, closed) && Symmetric(m) && Perfect(mate, ids)
    ensures exists s :: s in open && s.FCost() <= -MatchingValue(m, mate, ids)
  {
    assert PathCovered(m, ids, mate, open, closed);
    PathGoal(m, ids, mate);
    WitnessFrom(m, ids, open, closed, mate, 0);
  }

  lemma {:induction false} WitnessFrom(m: Matrix, ids: set<int>, open: multiset<MatchingState>,
                                       closed: set<StateKey>, mate: map<int, int>, j: nat)
    requires SearchInv(m, ids, open, closed) && Symmetric(m) && Perfect(mate, ids)
    requires PathCovered(m, ids, mate, open, closed)
    requires IsGoalState(PathState(m, ids, mate, |ids|))
    requires j <= |ids| && Seen(PathState(m, ids, mate, j), open, closed)
    ensures exists s :: s in open && s.FCost() <= -MatchingValue(m, mate, ids)
    decreases |ids| - j
  {
    var s := PathState(m, ids, mate, j);
    if s in open {
      PathCost(m, ids, mate, j);
    } else {
      assert Key(s) in closed;
      assert Key(s).unmatched != {};
      assert j != |ids|;
      WitnessFrom(m, ids, open, closed, mate, j + 1);
    }
  }

  /**
   * A goal popped with the least f cost is an optimal perfect matching: its
   * pairs match every id once, and their total is at least the value of any
   * perfect matching of the ids.
   */
  lemma SearchFound(m: Matrix, ids: set<int>, open: multiset<MatchingState>, closed: set<StateKey>,
                    cur: MatchingState)
    requires SearchInv(m, ids, open, closed) && Symmetric(m)
    requires cur in open && IsGoalState(cur)
    requires forall t :: t in open ==> cur.FCost() <= t.FCost()
    ensures Distinct(Ids(cur.pairs))
    ensures forall x :: x in ids <==> x in Ids(cur.pairs)
    ensures forall mate :: Perfect(mate, ids) ==> SumScores(cur.pairs) >= MatchingValue(m, mate, ids)
  {
    GoalCovers(cur, m, ids);
    forall mate | Perfect(mate, ids) ensures SumScores(cur.pairs) >= MatchingValue(m, mate, ids) {
      SearchWitness(m, ids, open, closed, mate);
    }
  }

  /** An empty frontier means the ids have no perfect matching. */
  lemma SearchExhausted(m: Matrix, ids: set<int>, closed: set<StateKey>)
    requires SearchInv(m, ids, multiset{}, closed) && Symmetric(m)
    ensures forall mate :: !Perfect(mate, ids)
  {
    forall mate | Perfect(mate, ids) ensures false {
      SearchWitness(m, ids, multiset{}, closed, mate);
    }
  }

  /** Some element of a non-empty multiset. */
  ghost function PickState(ms: multiset<MatchingState>): (s: MatchingState)
    requires ms != multiset{}
    ensures s in ms
  {
    assert |ms| != 0;
    var s :| s in ms; s
  }

  /** A non-empty frontier has a state of least f cost (what `heappop` returns). */
  lemma {:induction false} LeastCostExists(open: multiset<MatchingState>)
    requires open != multiset{}
    ensures exists s :: s in open && forall t :: t in open ==> s.FCost() <= t.FCost()
    decreases |open|
  {
    var x := PickState(open);
    var rest := open - multiset{x};
    assert forall t :: t in open ==> t == x || t in rest;
    if rest != multiset{} {
      LeastCostExists(rest);
      var y :| y in rest && forall t :: t in rest ==> y.FCost() <= t.FCost();
      assert y in open;
    }
  }
}
