/**
 * The pairwise table of `calculate_all_similarities`, independent of what is
 * stored: the nested loops over positions `i < j` write the entry of each
 * pair under both orientations of the two ids. `f` is the entry of a pair.
 */
module PairTable {
  import opened Students

  /** The keys written for row `i` once its pairs with `i < b < j` are done. */
  function RowKeys(vs: seq<StudentVector>, i: int, j: int): set<(int, int)>
    requires 0 <= i < j <= |vs|
    decreases j
  {
    if j == i + 1 then {}
    else RowKeys(vs, i, j - 1) + {(vs[i].id, vs[j - 1].id), (vs[j - 1].id, vs[i].id)}
  }

  /** The keys written by the rows before `i`. */
  function KeysBefore(vs: seq<StudentVector>, i: int): set<(int, int)>
    requires 0 <= i <= |vs|
  {
    if i == 0 then {} else KeysBefore(vs, i - 1) + RowKeys(vs, i - 1, |vs|)
  }

  /** The keys of the complete table: both orientations of every pair of positions. */
  function AllPairKeys(vs: seq<StudentVector>): set<(int, int)> {
    (set a, b | 0 <= a < b < |vs| :: (vs[a].id, vs[b].id))
    + (set a, b | 0 <= a < b < |vs| :: (vs[b].id, vs[a].id))
  }

  /** Both keys of pair `(a, b)`. */
  predicate IsPairKey(vs: seq<StudentVector>, k: (int, int), a: int, b: int)
    requires 0 <= a < b < |vs|
  {
    k == (vs[a].id, vs[b].id) || k == (vs[b].id, vs[a].id)
  }

  /** Row `i` up to `j` holds both keys of every pair `(i, b)` with `b < j`. */
  lemma {:induction false} RowKeysHas(vs: seq<StudentVector>, i: int, j: int)
    requires 0 <= i < j <= |vs|
    ensures forall b :: i < b < j ==> (vs[i].id, vs[b].id) in RowKeys(vs, i, j) && (vs[b].id, vs[i].id) in RowKeys(vs, i, j)
    decreases j
  {
    if j > i + 1 {
      RowKeysHas(vs, i, j - 1);
      forall b | i < b < j ensures (vs[i].id, vs[b].id) in RowKeys(vs, i, j) && (vs[b].id, vs[i].id) in RowKeys(vs, i, j) {
        if b < j - 1 {
          assert (vs[i].id, vs[b].id) in RowKeys(vs, i, j - 1);
        }
      }
    }
  }
  /** ... and no other key. */
  lemma {:induction false} RowKeysOnly(vs: seq<StudentVector>, i: int, j: int)
    requires 0 <= i < j <= |vs|
    ensures forall k :: k in RowKeys(vs, i, j) ==> exists b :: i < b < j && IsPairKey(vs, k, i, b)
    decreases j
  {
    if j > i + 1 {
      RowKeysOnly(vs, i, j - 1);
      forall k | k in RowKeys(vs, i, j) ensures exists b :: i < b < j && IsPairKey(vs, k, i, b) {
        if k in RowKeys(vs, i, j - 1) {
          var b :| i < b < j - 1 && IsPairKey(vs, k, i, b);
          assert i < b < j && IsPairKey(vs, k, i, b);
        } else {
          assert IsPairKey(vs, k, i, j - 1);
        }
      }
    }
  }
  /** The rows before `i` hold both keys of every pair `(a, b)` with `a < i`. */
  lemma {:induction false} KeysBeforeHas(vs: seq<StudentVector>, i: int)
    requires 0 <= i <= |vs|
    ensures forall a, b :: 0 <= a < b < |vs| && a < i ==> (vs[a].id, vs[b].id) in KeysBefore(vs, i) && (vs[b].id, vs[a].id) in KeysBefore(vs, i)
  {
    if i > 0 {
      KeysBeforeHas(vs, i - 1);
      RowKeysHas(vs, i - 1, |vs|);
      forall a, b | 0 <= a < b < |vs| && a < i
        ensures (vs[a].id, vs[b].id) in KeysBefore(vs, i) && (vs[b].id, vs[a].id) in KeysBefore(vs, i)
      {
        if a < i - 1 {
          assert (vs[a].id, vs[b].id) in KeysBefore(vs, i - 1);
          assert (vs[b].id, vs[a].id) in KeysBefore(vs, i - 1);
        } else {
          assert (vs[a].id, vs[b].id) in RowKeys(vs, i - 1, |vs|);
          assert (vs[b].id, vs[a].id) in RowKeys(vs, i - 1, |vs|);
        }
      }
    }
  }
  /** ... and no other key. */
  lemma {:induction false} KeysBeforeOnly(vs: seq<StudentVector>, i: int)
    requires 0 <= i <= |vs|
    ensures forall k :: k in KeysBefore(vs, i) ==> exists a, b :: 0 <= a < b < |vs| && a < i && IsPairKey(vs, k, a, b)
  {
    if i > 0 {
      KeysBeforeOnly(vs, i - 1);
      RowKeysOnly(vs, i - 1, |vs|);
      forall k | k in KeysBefore(vs, i) ensures exists a, b :: 0 <= a < b < |vs| && a < i && IsPairKey(vs, k, a, b) {
        if k in KeysBefore(vs, i - 1) {
          var a, b :| 0 <= a < b < |vs| && a < i - 1 && IsPairKey(vs, k, a, b);
          assert a < i;
        } else {
          var b :| i - 1 < b < |vs| && IsPairKey(vs, k, i - 1, b);
          assert 0 <= i - 1 < b < |vs| && i - 1 < i && IsPairKey(vs, k, i - 1, b);
        }
      }
    }
  }
  /** After the last row the keys are those of every pair. */
  lemma KeysComplete(vs: seq<StudentVector>)
    ensures KeysBefore(vs, |vs|) == AllPairKeys(vs)
  {
    KeysWritten(vs);
    KeysNeeded(vs);
  }
  lemma KeysWritten(vs: seq<StudentVector>)
    ensures KeysBefore(vs, |vs|) <= AllPairKeys(vs)
  {
    KeysBeforeOnly(vs, |vs|);
    var fwd := set a, b | 0 <= a < b < |vs| :: (vs[a].id, vs[b].id);
    var bwd := set a, b | 0 <= a < b < |vs| :: (vs[b].id, vs[a].id);
    forall k | k in KeysBefore(vs, |vs|) ensures k in fwd + bwd {
      var a, b :| 0 <= a < b < |vs| && a < |vs| && IsPairKey(vs, k, a, b);
      if k == (vs[a].id, vs[b].id) {
        assert k in fwd;
      } else {
        assert k in bwd;
      }
    }
  }
  lemma KeysNeeded(vs: seq<StudentVector>)
    ensures AllPairKeys(vs) <= KeysBefore(vs, |vs|)
  {
    KeysBeforeHas(vs, |vs|);
    var fwd := set a, b | 0 <= a < b < |vs| :: (vs[a].id, vs[b].id);
    var bwd := set a, b | 0 <= a < b < |vs| :: (vs[b].id, vs[a].id);
    forall k | k in fwd ensures k in KeysBefore(vs, |vs|) {
      var a, b :| 0 <= a < b < |vs| && k == (vs[a].id, vs[b].id);
    }
    forall k | k in bwd ensures k in KeysBefore(vs, |vs|) {
      var a, b :| 0 <= a < b < |vs| && k == (vs[b].id, vs[a].id);
    }
  }

  /** Every key of the table has its mirror key, holding the same entry. */
  ghost predicate Symmetric<E>(table: map<(int, int), E>) {
    forall k :: k in table ==> (k.1, k.0) in table && table[(k.1, k.0)] == table[k]
  }

  predicate DistinctIds(vs: seq<StudentVector>) {
    forall a, b :: 0 <= a < b < |vs| ==> vs[a].id != vs[b].id
  }

  /** Writing one entry under a key and its mirror keeps the table symmetric. */
  lemma SymmetricUpdate<E>(table: map<(int, int), E>, x: int, y: int, e: E)
    requires Symmetric(table)
    ensures Symmetric(table[(x, y) := e][(y, x) := e])
  {
    var t := table[(x, y) := e][(y, x) := e];
    forall k | k in t ensures (k.1, k.0) in t && t[(k.1, k.0)] == t[k] {
      if k != (x, y) && k != (y, x) {
        assert k in table && (k.1, k.0) != (x, y) && (k.1, k.0) != (y, x);
      }
    }
  }

  /** The table after the rows before `i` (the state of the outer loop). */
  function RowsTable<E>(vs: seq<StudentVector>, f: (StudentVector, StudentVector) -> E, i: int): map<(int, int), E>
    requires 0 <= i <= |vs|
    decreases i, 0
  {
    if i == 0 then map[] else RowTable(vs, f, i - 1, |vs|)
  }

  /** The table after the rows before `i` and the pairs `(i, b)` with `b < j` (the inner loop). */
  function RowTable<E>(vs: seq<StudentVector>, f: (StudentVector, StudentVector) -> E, i: int, j: int): map<(int, int), E>
    requires 0 <= i < j <= |vs|
    decreases i, j
  {
    if j == i + 1 then RowsTable(vs, f, i)
    else
      var e := f(vs[i], vs[j - 1]);
      RowTable(vs, f, i, j - 1)[(vs[i].id, vs[j - 1].id) := e][(vs[j - 1].id, vs[i].id) := e]
  }

  /** The complete table has the keys of every pair, is symmetric and, with distinct ids, holds each pair's entry. */
  lemma TableComplete<E>(vs: seq<StudentVector>, f: (StudentVector, StudentVector) -> E)
    ensures RowsTable(vs, f, |vs|).Keys == AllPairKeys(vs)
    ensures Symmetric(RowsTable(vs, f, |vs|))
    ensures DistinctIds(vs) ==> forall a, b :: 0 <= a < b < |vs| ==>
      && RowsTable(vs, f, |vs|)[(vs[a].id, vs[b].id)] == f(vs[a], vs[b])
      && RowsTable(vs, f, |vs|)[(vs[b].id, vs[a].id)] == f(vs[a], vs[b])
  {
    RowsTableKeys(vs, f, |vs|);
    KeysComplete(vs);
    RowsTableSymmetric(vs, f, |vs|);
    if DistinctIds(vs) {
      RowsTableHolds(vs, f, |vs|);
      HoldsComplete(RowsTable(vs, f, |vs|), vs, f);
    }
  }

  lemma {:induction false} RowsTableKeys<E>(vs: seq<StudentVector>, f: (StudentVector, StudentVector) -> E, i: int)
    requires 0 <= i <= |vs|
    ensures RowsTable(vs, f, i).Keys == KeysBefore(vs, i)
    decreases i, 0
  {
    if i > 0 {
      RowTableKeys(vs, f, i - 1, |vs|);
    }
  }

  lemma {:induction false} RowTableKeys<E>(vs: seq<StudentVector>, f: (StudentVector, StudentVector) -> E, i: int, j: int)
    requires 0 <= i < j <= |vs|
    ensures RowTable(vs, f, i, j).Keys == KeysBefore(vs, i) + RowKeys(vs, i, j)
    decreases i, j
  {
    if j == i + 1 {
      RowsTableKeys(vs, f, i);
    } else {
      RowTableKeys(vs, f, i, j - 1);
    }
  }

  lemma {:induction false} RowsTableSymmetric<E>(vs: seq<StudentVector>, f: (StudentVector, StudentVector) -> E, i: int)
    requires 0 <= i <= |vs|
    ensures Symmetric(RowsTable(vs, f, i))
    decreases i, 0
  {
    if i > 0 {
      RowTableSymmetric(vs, f, i - 1, |vs|);
    }
  }

  lemma {:induction false} RowTableSymmetric<E>(vs: seq<StudentVector>, f: (StudentVector, StudentVector) -> E, i: int, j: int)
    requires 0 <= i < j <= |vs|
    ensures Symmetric(RowTable(vs, f, i, j))
    decreases i, j
  {
    if j == i + 1 {
      RowsTableSymmetric(vs, f, i);
    } else {
      RowTableSymmetric(vs, f, i, j - 1);
      SymmetricUpdate(RowTable(vs, f, i, j - 1), vs[i].id, vs[j - 1].id, f(vs[i], vs[j - 1]));
    }
  }

  /** Pairs `a < b` already visited by the nested loops when they stand at `(i, j)`. */
  predicate Visited(a: int, b: int, i: int, j: int) {
    a < i || (a == i && b < j)
  }

  /** Every visited pair's two keys hold the pair's entry. */
  ghost predicate Holds<E>(table: map<(int, int), E>, vs: seq<StudentVector>, f: (StudentVector, StudentVector) -> E, i: int, j: int) {
    forall a, b :: 0 <= a < b < |vs| && Visited(a, b, i, j) ==>
      && (vs[a].id, vs[b].id) in table && table[(vs[a].id, vs[b].id)] == f(vs[a], vs[b])
      && (vs[b].id, vs[a].id) in table && table[(vs[b].id, vs[a].id)] == f(vs[a], vs[b])
  }

  lemma {:induction false} RowsTableHolds<E>(vs: seq<StudentVector>, f: (StudentVector, StudentVector) -> E, i: int)
    requires DistinctIds(vs) && 0 <= i <= |vs|
    ensures Holds(RowsTable(vs, f, i), vs, f, i, i + 1)
    decreases i, 0
  {
    if i > 0 {
      RowTableHolds(vs, f, i - 1, |vs|);
      HoldsNextRow(RowsTable(vs, f, i), vs, f, i - 1);
    }
  }

  lemma {:induction false} RowTableHolds<E>(vs: seq<StudentVector>, f: (StudentVector, StudentVector) -> E, i: int, j: int)
    requires DistinctIds(vs) && 0 <= i < j <= |vs|
    ensures Holds(RowTable(vs, f, i, j), vs, f, i, j)
    decreases i, j
  {
    if j == i + 1 {
      RowsTableHolds(vs, f, i);
    } else {
      RowTableHolds(vs, f, i, j - 1);
      HoldsStep(RowTable(vs, f, i, j - 1), vs, f, i, j - 1);
    }
  }

  /** With distinct ids, writing pair `(i, j)` leaves the other pairs' keys alone. */
  lemma HoldsStep<E>(table: map<(int, int), E>, vs: seq<StudentVector>, f: (StudentVector, StudentVector) -> E, i: int, j: int)
    requires DistinctIds(vs) && 0 <= i < j < |vs|
    requires Holds(table, vs, f, i, j)
    ensures var e := f(vs[i], vs[j]);
      Holds(table[(vs[i].id, vs[j].id) := e][(vs[j].id, vs[i].id) := e], vs, f, i, j + 1)
  {
    var e := f(vs[i], vs[j]);
    var t := table[(vs[i].id, vs[j].id) := e][(vs[j].id, vs[i].id) := e];
    forall a, b | 0 <= a < b < |vs| && Visited(a, b, i, j + 1)
      ensures && (vs[a].id, vs[b].id) in t && t[(vs[a].id, vs[b].id)] == f(vs[a], vs[b])
              && (vs[b].id, vs[a].id) in t && t[(vs[b].id, vs[a].id)] == f(vs[a], vs[b])
    {
      if !(a == i && b == j) {
        assert Visited(a, b, i, j);
        assert (vs[a].id, vs[b].id) != (vs[i].id, vs[j].id) && (vs[a].id, vs[b].id) != (vs[j].id, vs[i].id);
        assert (vs[b].id, vs[a].id) != (vs[i].id, vs[j].id) && (vs[b].id, vs[a].id) != (vs[j].id, vs[i].id);
      }
    }
  }

  lemma HoldsNextRow<E>(table: map<(int, int), E>, vs: seq<StudentVector>, f: (StudentVector, StudentVector) -> E, i: int)
    requires 0 <= i
    requires Holds(table, vs, f, i, |vs|)
    ensures Holds(table, vs, f, i + 1, i + 2)
  {
    forall a, b | 0 <= a < b < |vs| ensures Visited(a, b, i, |vs|) == Visited(a, b, i + 1, i + 2) {
    }
  }

  lemma HoldsComplete<E>(table: map<(int, int), E>, vs: seq<StudentVector>, f: (StudentVector, StudentVector) -> E)
    requires Holds(table, vs, f, |vs|, |vs| + 1)
    ensures forall a, b :: 0 <= a < b < |vs| ==>
      && table[(vs[a].id, vs[b].id)] == f(vs[a], vs[b])
      && table[(vs[b].id, vs[a].id)] == f(vs[a], vs[b])
  {
    forall a, b | 0 <= a < b < |vs|
      ensures && table[(vs[a].id, vs[b].id)] == f(vs[a], vs[b])
              && table[(vs[b].id, vs[a].id)] == f(vs[a], vs[b])
    {
      assert Visited(a, b, |vs|, |vs| + 1);
    }
  }
}
