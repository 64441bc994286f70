/**
 * The relaxation behind `AStarMatcher.calculate_heuristic`: every
 * unmatched student is credited with its best partner among the other
 * unmatched students, the credits are summed and halved, and the result is
 * negated (the search minimises cost = -score).
 *
 * Sums over a set are defined by removing one chosen element at a time;
 * the `...Remove` lemmas show that the choice does not matter.
 */
module Heuristic {
  import opened Similarity
  import opened PairTable

  /** The pairwise table: `(id1, id2)` to the pair's score and reasons. */
  type Matrix = map<(int, int), Entry>

  /** The table entry of an ordered pair, `(0.0, [])` when it is absent. */
  function Lookup(m: Matrix, a: int, b: int): Entry {
    if (a, b) in m then m[(a, b)] else Entry(0.0, [])
  }

  /** The score the search credits to the ordered pair `(a, b)`. */
  function Sc(m: Matrix, a: int, b: int): real {
    Lookup(m, a, b).score
  }

  function RMax(a: real, b: real): real {
    if a >= b then a else b
  }

  /** Some element of a non-empty set: the one the set sums below remove first. */
  ghost function Pick<T>(s: set<T>): (x: T)
    requires s != {}
    ensures x in s
  {
    assert |s| != 0;
    var x :| x in s; x
  }

  // ---------------------------------------------------------------------
  // Best partner of one student

  /** max(0, the best score of `u` with any of `others`). */
  ghost function BestOver(m: Matrix, u: int, others: set<int>): real
    decreases others
  {
    if others == {} then 0.0
    else
      var o := Pick(others);
      RMax(Sc(m, u, o), BestOver(m, u, others - {o}))
  }

  lemma {:induction false} BestOverRemove(m: Matrix, u: int, others: set<int>, x: int)
    requires x in others
    ensures BestOver(m, u, others) == RMax(Sc(m, u, x), BestOver(m, u, others - {x}))
    decreases others
  {
    var o := Pick(others);
    if o != x {
      BestOverRemove(m, u, others - {o}, x);
      BestOverRemove(m, u, others - {x}, o);
      assert others - {o} - {x} == others - {x} - {o};
    }
  }

  /** The best score is non-negative and at least the score with every candidate. */
  lemma {:induction false} BestOverBounds(m: Matrix, u: int, others: set<int>)
    ensures BestOver(m, u, others) >= 0.0
    ensures forall x :: x in others ==> Sc(m, u, x) <= BestOver(m, u, others)
    decreases others
  {
    if others != {} {
      var o := Pick(others);
      BestOverBounds(m, u, others - {o});
      forall x | x in others ensures Sc(m, u, x) <= BestOver(m, u, others) {
        if x != o {
          assert x in others - {o};
        }
      }
    }
  }

  /** ... and it is attained: it is 0 or the score with some candidate. */
  lemma {:induction false} BestOverAttained(m: Matrix, u: int, others: set<int>)
    ensures BestOver(m, u, others) == 0.0
         || exists x :: x in others && BestOver(m, u, others) == Sc(m, u, x)
    decreases others
  {
    if others != {} {
      var o := Pick(others);
      BestOverAttained(m, u, others - {o});
    }
  }

  // ---------------------------------------------------------------------
  // Sum of best partners, and the heuristic

  /** The sum, over `s`, of each student's best partner among `u` minus itself. */
  ghost function SumBest(m: Matrix, s: set<int>, u: set<int>): real
    decreases s
  {
    if s == {} then 0.0
    else
      var x := Pick(s);
      BestOver(m, x, u - {x}) + SumBest(m, s - {x}, u)
  }

  lemma {:induction false} SumBestRemove(m: Matrix, s: set<int>, u: set<int>, x: int)
    requires x in s
    ensures SumBest(m, s, u) == BestOver(m, x, u - {x}) + SumBest(m, s - {x}, u)
    decreases s
  {
    var y := Pick(s);
    if y != x {
      SumBestRemove(m, s - {y}, u, x);
      SumBestRemove(m, s - {x}, u, y);
      assert s - {y} - {x} == s - {x} - {y};
    }
  }

  lemma {:induction false} SumBestNonNegative(m: Matrix, s: set<int>, u: set<int>)
    ensures SumBest(m, s, u) >= 0.0
    decreases s
  {
    if s != {} {
      var x := Pick(s);
      BestOverBounds(m, x, u - {x});
      SumBestNonNegative(m, s - {x}, u);
    }
  }

  /** The value `calculate_heuristic` returns for the unmatched set `u`. */
  ghost function HeuristicValue(m: Matrix, u: set<int>): real {
    if |u| <= 1 then 0.0 else -(SumBest(m, u, u) / 2.0)
  }

  /** The heuristic is 0 with at most one student unmatched and never positive. */
  lemma HeuristicRange(m: Matrix, u: set<int>)
    ensures |u| <= 1 ==> HeuristicValue(m, u) == 0.0
    ensures HeuristicValue(m, u) <= 0.0
  {
    SumBestNonNegative(m, u, u);
  }

  // ---------------------------------------------------------------------
  // Perfect matchings and admissibility

  /**
   * `mate` pairs up the students of `u`: each has a partner in `u` other
   * than itself, and partnership is mutual.
   */
  ghost predicate Perfect(mate: map<int, int>, u: set<int>) {
    forall x :: x in u ==>
      x in mate && mate[x] in u && mate[x] != x && mate[x] in mate && mate[mate[x]] == x
  }

  /** The sum over `s` of each student's score with its partner. */
  ghost function MateSum(m: Matrix, mate: map<int, int>, s: set<int>): real
    decreases s
  {
    if s == {} then 0.0
    else
      var x := Pick(s);
      (if x in mate then Sc(m, x, mate[x]) else 0.0) + MateSum(m, mate, s - {x})
  }

  /** The total score of a perfect matching of `u`: every pair is counted from both ends. */
  ghost function MatchingValue(m: Matrix, mate: map<int, int>, u: set<int>): real {
    MateSum(m, mate, u) / 2.0
  }

  lemma {:induction false} MateSumRemove(m: Matrix, mate: map<int, int>, s: set<int>, x: int)
    requires x in s
    ensures MateSum(m, mate, s) == (if x in mate then Sc(m, x, mate[x]) else 0.0) + MateSum(m, mate, s - {x})
    decreases s
  {
    var y := Pick(s);
    if y != x {
      MateSumRemove(m, mate, s - {y}, x);
      MateSumRemove(m, mate, s - {x}, y);
      assert s - {y} - {x} == s - {x} - {y};
    }
  }

  /** Each student's score with its partner is at most its best partner's; so is the sum. */
  lemma {:induction false} MateSumAtMostSumBest(m: Matrix, mate: map<int, int>, s: set<int>, u: set<int>)
    requires s <= u
    requires forall x :: x in s ==> x in mate && mate[x] in u && mate[x] != x
    ensures MateSum(m, mate, s) <= SumBest(m, s, u)
    decreases s
  {
    if s != {} {
      var x := Pick(s);
      BestOverBounds(m, x, u - {x});
      assert mate[x] in u - {x};
      MateSumAtMostSumBest(m, mate, s - {x}, u);
    }
  }

  /**
   * Admissibility: the negated heuristic of `u` is at least the total score
   * of every perfect matching of `u`.
   */
  lemma HeuristicAdmissible(m: Matrix, mate: map<int, int>, u: set<int>)
    requires Perfect(mate, u)
    ensures -HeuristicValue(m, u) >= MatchingValue(m, mate, u)
  {
    MateSumAtMostSumBest(m, mate, u, u);
    if u != {} {
      PerfectHasTwo(mate, u);
    } else {
      assert MateSum(m, mate, u) == 0.0;
    }
  }

  /** A non-empty set with a perfect matching has at least two students. */
  lemma PerfectHasTwo(mate: map<int, int>, u: set<int>)
    requires Perfect(mate, u) && u != {}
    ensures |u| >= 2
  {
    var x := Pick(u);
    var y := mate[x];
    assert y in u && y != x;
    assert {x, y} <= u;
    assert |{x, y}| == 2;
    assert |u - {x, y}| + 2 == |u|;
  }

  /** Every even-sized set of students can be paired up. */
  lemma {:induction false} PerfectExists(u: set<int>) returns (mate: map<int, int>)
    requires |u| % 2 == 0
    ensures Perfect(mate, u)
    decreases u
  {
    if u == {} {
      return map[];
    }
    var x := Pick(u);
    assert |u - {x}| == |u| - 1;
    var y := Pick(u - {x});
    var rest := u - {x, y};
    assert |rest| == |u| - 2;
    var inner := PerfectExists(rest);
    mate := inner[x := y][y := x];
    forall z | z in u
      ensures z in mate && mate[z] in u && mate[z] != z && mate[z] in mate && mate[mate[z]] == z
    {
      if z != x && z != y {
        assert z in rest && inner[z] in rest;
      }
    }
  }

  /** Symmetric table entries give symmetric pair scores. */
  lemma ScSymmetric(m: Matrix, a: int, b: int)
    requires Symmetric(m)
    ensures Sc(m, a, b) == Sc(m, b, a)
  {
    if (b, a) in m {
      assert (a, b) in m;
    }
  }
}
