/**
 * How `MatchingState.__hash__` behaves as written: it hashes the tuple
 * `(frozenset(matched_pairs), frozenset(unmatched_students))`, and building
 * `frozenset(matched_pairs)` hashes every pair tuple
 * `(student1_id, student2_id, score, reasons)`, whose `reasons` is a list.
 * Lists are unhashable, so hashing any state that holds a pair raises
 * `TypeError`; the membership test on the closed set does so for the first
 * successor. `Matching.Key` is the identity the search uses instead.
 */
module PyHash {
  import opened Heuristic
  import opened Matching

  /** The values that take part in hashing a state. */
  datatype PyValue =
    | PyInt(i: int)
    | PyFloat(r: real)
    | PyStr(s: string)
    | PyList(items: seq<PyValue>)
    | PyTuple(items: seq<PyValue>)
    | PyFrozenSet(items: seq<PyValue>)
    | PyIntSet(ints: set<int>)

  /** `hash(v)` returns rather than raising: no list occurs in `v`. */
  predicate Hashable(v: PyValue) {
    match v
    case PyList(_) => false
    case PyTuple(items) => forall i :: 0 <= i < |items| ==> Hashable(items[i])
    case PyFrozenSet(items) => forall i :: 0 <= i < |items| ==> Hashable(items[i])
    case _ => true
  }

  /** The pair tuple `(student1_id, student2_id, score, reasons)`. */
  function PairValue(p: Pair): PyValue {
    PyTuple([PyInt(p.first), PyInt(p.second), PyFloat(p.score),
             PyList(seq(|p.reasons|, i requires 0 <= i < |p.reasons| => PyStr(p.reasons[i])))])
  }

  /** What `__hash__` hashes: the pairs as a frozenset, the unmatched ids as a frozenset. */
  function SourceHashKey(s: MatchingState): PyValue {
    PyTuple([PyFrozenSet(seq(|s.pairs|, i requires 0 <= i < |s.pairs| => PairValue(s.pairs[i]))),
             PyIntSet(s.unmatched)])
  }

  /** A state can be hashed exactly when it holds no pair. */
  lemma SourceHashableIff(s: MatchingState)
    ensures Hashable(SourceHashKey(s)) <==> s.pairs == []
  {
    var items := seq(|s.pairs|, i requires 0 <= i < |s.pairs| => PairValue(s.pairs[i]));
    if s.pairs != [] {
      var pv := PairValue(s.pairs[0]);
      assert pv.items[3].PyList? && !Hashable(pv.items[3]);
      assert !Hashable(pv);
      assert !Hashable(items[0]);
      assert !Hashable(PyFrozenSet(items));
      assert !Hashable(SourceHashKey(s).items[0]);
    }
  }

  /**
   * With two or more students, the start state can be tested against and
   * added to the closed set, but every successor of it pairs two students,
   * so the test `successor not in closed_set` raises for each of them, and
   * there is at least one.
   */
  lemma FirstExpansionRaises(m: Matrix, ids: set<int>)
    requires |ids| >= 2
    ensures Hashable(SourceHashKey(Initial(m, ids)))
    ensures exists b :: b in ids && b != MinOf(ids)
    ensures forall b :: b in ids && b != MinOf(ids) ==>
      !Hashable(SourceHashKey(Child(Initial(m, ids), MinOf(ids), b, m)))
  {
    SourceHashableIff(Initial(m, ids));
    var a := MinOf(ids);
    assert |ids - {a}| == |ids| - 1;
    var c := Pick(ids - {a});
    assert c in ids && c != a;
    forall b | b in ids && b != a ensures !Hashable(SourceHashKey(Child(Initial(m, ids), a, b, m))) {
      SourceHashableIff(Child(Initial(m, ids), a, b, m));
    }
  }
}
