# Roommate matcher: similarity engine and A* matching, in Dafny

This project models the core of an AI roommate matcher. Each student is
reduced to an attribute vector: sleep time, study time, cleanliness, noise
tolerance, personality, and a list of hobbies.

- `SimilarityEngine` turns two vectors into a weighted distance, then into a
  compatibility score from 0 to 100 with a hobby bonus, plus a list of
  human-readable reasons.
- It builds the score table for every pair of students, stored under both
  orientations of the pair.
- `AStarMatcher` pairs the students up by A* search over partial matchings.
  The cost is the negated total score, and the heuristic is an optimistic
  bound on the score still to be gained.
- `match_students` wraps the search. It handles fewer than two students and
  odd counts, and computes the total and mean pair score.
- From models.py, the two pure conversions the engine consumes are modelled:
  `get_hobbies_list` and `to_vector`.

Modules, in dependency order:

| file | module | models |
|---|---|---|
| wrappers.dfy | `Wrappers` | `Option` (a nullable column) |
| students.dfy | `Students` | student record and vector, `get_hobbies_list`, `to_vector` |
| pairtable.dfy | `PairTable` | the shape of the pairwise table: keys, symmetry, entries |
| similarity.dfy | `Similarity` | weights, overlap, distance, score, reasons, the pairwise table |
| heuristic.dfy | `Heuristic` | the heuristic's value, perfect matchings, admissibility |
| matching.dfy | `Matching` | `MatchingState`, successors, goal, state validity and identity |
| astar.dfy | `AStar` | the invariant of the search loop and why it yields an optimum |
| matcher.dfy | `Matcher` | class `AStarMatcher` with its fields and methods |
| pyhash.dfy | `PyHash` | how `MatchingState.__hash__` behaves as written (see Findings) |

Modelling choices:

- **Numbers.** Scores and distances are exact reals; `round(..., 2)` is not
  applied. Attribute values are unbounded integers, and `InRange` states
  their documented ranges where a bound needs them.
- **The anchor.** `generate_successors` pairs `list(unmatched)[0]` with
  every other unmatched student. Python's set order is unspecified, so the
  model picks the anchor deterministically as the smallest unmatched id
  (`MinOf`).
- **Other set orders.** The loops of `calculate_heuristic` visit the set in
  any order. Their specifications (`BestOver`, `SumBest`) are proved not to
  depend on that order.
- **The frontier.** The heap is a multiset of states, and each pop takes some
  state of least f cost. `heapq` ties are not modelled.
- **The node budget.** The loop of `a_star_search` has no bound, and
  `ASTAR_MAX_NODES` is defined but never read. To make the search loop
  terminate, the model gives the class a node budget `maxNodes`. When the
  budget is spent, the search stops with the outcome `OutOfBudget`. This is a
  modelling device, not source behaviour.
- **State identity.** The closed set holds `Key(state)`, the id pairs plus the
  unmatched set. The source hashes whole pairs instead, which fails (see
  Findings). `Key` keeps the id pairs as a sequence, while the source's
  `frozenset` ignores their order. With the smallest-id anchor, every
  reachable state lists its pairs in increasing order of their first ids, so
  both notions of identity agree on reachable states.
- **Label lookups.** `generate_match_reasons` indexes its label dictionaries
  by the attribute values, which raises `KeyError` outside the labelled range.
  Callers therefore require `LabelsDefined` / `AllLabelsDefined`: any
  attribute value equal in both students must be a labelled value.
  `MatchStudents` asks this only of the students it keeps, since an odd
  count's last student is dropped before any scoring.

## Model

| member | source | states |
|---|---|---|
| Students.HobbiesList | models.py:36-40 | a missing or empty hobby string gives `[]`; otherwise one entry per comma-separated piece, in order, duplicates kept, each piece stripped and lower-cased |
| Students.HobbiesListSpec | models.py:38-39 | a non-empty string gives exactly (number of commas + 1) entries, each equal to the stripped, lower-cased piece and normalised (no edge whitespace, no upper case) |
| Students.SplitCommasCount | models.py:39 | `split(',')` yields one piece more than there are commas |
| Students.SplitCommasNoComma | models.py:39 | no piece of `split(',')` contains a comma |
| Students.SplitCommasJoin | models.py:39 | joining the pieces with commas gives back the original string |
| Students.LowerChar | models.py:39 | lower-casing one character leaves no upper-case letter, keeps whitespace as whitespace and leaves every non-upper-case character unchanged |
| Students.Lower | models.py:39 | `lower()` keeps the length and lower-cases each character in place |
| Students.StripSpec | models.py:39 | `strip()` returns a contiguous slice of its input holding everything but leading and trailing whitespace, and that result neither starts nor ends with whitespace |
| Students.HobbiesNormalized | models.py:36-40 | every entry of the hobby list is normalised |
| Students.ToVector | models.py:42-53 | the vector copies id, name and the five attributes, and its hobbies are the hobby list |
| Similarity.DefaultWeightsValid | config.py:19-26 | the configured weights are non-negative and sum to 1 |
| Similarity.HobbyOverlap | similarity_engine.py:54-71 | the overlap is in [0, 1]; it is 0.5 when both lists are empty and 0 when exactly one is |
| Similarity.HobbyOverlapJaccard | similarity_engine.py:62-71 | for two non-empty lists, the overlap is the intersection size over the union size of their sets |
| Similarity.HobbyOverlapSymmetric | similarity_engine.py:54-71 | the overlap does not depend on the order of the two students |
| Similarity.HobbyOverlapExtremes | similarity_engine.py:54-71 | the overlap is 1 iff both lists are non-empty and have the same set; it is positive iff both are empty or they share a hobby |
| Similarity.CalculateDistance | similarity_engine.py:17-52 | the accumulated distance is the weighted sum of the five normalised differences and (1 - overlap); under valid weights and in-range vectors it is in [0, 1] |
| Similarity.DistanceBounds | similarity_engine.py:17-52 | under valid weights and in-range attributes, the distance is in [0, 1] |
| Similarity.DistanceSymmetric | similarity_engine.py:17-52 | the distance does not depend on the order of the two students |
| Similarity.ScoreBounds | similarity_engine.py:78-92 | the score is in [0, 100], and it differs from (1 - distance) * 100 only when the overlap exceeds 0.5 |
| Similarity.ScoreFromBounds | similarity_engine.py:82-92 | boosting and capping keeps any base score with distance in [0, 1] within [0, 100]; the bonus applies only above overlap 0.5 |
| Similarity.ScoreSymmetric | similarity_engine.py:73-92 | the score does not depend on the order of the two students |
| Similarity.IdenticalScore100 | similarity_engine.py:78-92 | two students with equal attributes and the same non-empty hobby set score exactly 100 (bonus at least 1) |
| Similarity.ConfiguredIdenticalScore100 | config.py:19-29 | with the configured weights and the configured bonus 1.2, identical students with the same non-empty hobby set score exactly 100 |
| Similarity.CalculateSimilarityScore | similarity_engine.py:73-97 | returns the model's score and reasons for the pair, the score within [0, 100] under valid weights and ranges |
| Similarity.CommonHobbies | similarity_engine.py:135-137 | the shared hobbies are exactly those in both lists, each once |
| Similarity.HobbyGuard | similarity_engine.py:134-138 | the guard "overlap > 0 and some hobby in common" holds exactly when the two hobby sets intersect |
| Similarity.MatchReasonsOrdered | similarity_engine.py:99-141 | the reasons are never empty and appear in the fixed rule order sleep, study, cleanliness, noise, personality, hobbies |
| Similarity.MatchReasonsRules | similarity_engine.py:99-141 | each rule's reason is present iff its condition holds (equal sleep, equal study, cleanliness within 1, noise within 1, equal personality, a shared hobby); the fallback "Balanced" is the only reason exactly when no rule holds |
| Similarity.FiredRanks | similarity_engine.py:103-139 | the fired rules are exactly the rules whose conditions hold |
| Similarity.MatchReasonsBuckets | similarity_engine.py:104-127 | the sleep, study and personality reasons name the value both students share |
| Similarity.MatchReasonsHobbies | similarity_engine.py:134-139 | the hobby reason names 1 to 3 distinct hobbies, each in both students' lists |
| Similarity.ReasonTextsRender | similarity_engine.py:99-141 | the texts are the rendering of the fired reasons, one text per reason, with the source's labels |
| Similarity.GenerateMatchReasons | similarity_engine.py:99-141 | the method builds exactly those texts, at least one |
| Similarity.AllSimilarities | similarity_engine.py:143-162 | the table's keys are exactly the two orientations of every pair of positions, and the table is symmetric |
| Similarity.RowSimilarities | similarity_engine.py:152-160 | the inner loop adds row `i`: both orientations of every pair `(i, j)` with `j > i`, on top of the earlier rows |
| Similarity.TableEntries | similarity_engine.py:151-160 | with distinct ids, both orientations of every pair hold that pair's score and reasons |
| PairTable.TableComplete | similarity_engine.py:151-160 | the filled table has exactly the pair keys, is symmetric, and with distinct ids holds each pair's entry under both orientations |
| PairTable.KeysComplete | similarity_engine.py:151-160 | the keys written by the double loop are exactly both orientations of all pairs |
| PairTable.SymmetricUpdate | similarity_engine.py:159-160 | storing one entry under a key and its mirror keeps the table symmetric |
| Heuristic.BestOverBounds | similarity_engine.py:215-220 | a student's best score is non-negative and at least its score with every other unmatched student |
| Heuristic.BestOverAttained | similarity_engine.py:215-220 | the best score is 0 or the score with some other unmatched student |
| Heuristic.BestOverRemove | similarity_engine.py:216-220 | the best score does not depend on the order in which partners are visited |
| Heuristic.SumBestRemove | similarity_engine.py:214-221 | the sum of best scores does not depend on the order in which students are visited |
| Heuristic.HeuristicRange | similarity_engine.py:204-228 | the heuristic is 0 with at most one student unmatched, and never positive |
| Heuristic.HeuristicAdmissible | similarity_engine.py:204-228 | the negated heuristic is at least the total score of every perfect matching of the unmatched students |
| Heuristic.PerfectHasTwo | similarity_engine.py:235-236 | a non-empty set that can be paired up holds at least two students |
| Heuristic.PerfectExists | similarity_engine.py:329 | every even-sized set of students can be paired up |
| Heuristic.ScSymmetric | similarity_engine.py:159-160 | a symmetric table gives the same score to both orientations of a pair |
| Matching.MinOf | similarity_engine.py:239 | the anchor is an unmatched student no larger than any other |
| Matching.AppendPair | similarity_engine.py:251-253 | appending a pair adds its score to the sum and its two ids to the matched ids |
| Matching.InitialValid | similarity_engine.py:289-296 | the start state (no pairs, all ids unmatched, zero costs, h the heuristic of all ids) is valid |
| Matching.ChildValid | similarity_engine.py:239-265 | a successor of a valid state is valid: it removes exactly the anchor and its partner (two fewer unmatched), appends that pair, adds its score to the total, sets g = -total and h to the heuristic of the rest |
| Matching.ValidKeyInjective | similarity_engine.py:195-202 | two valid states with the same id pairs and unmatched set are the same state |
| Matching.GoalCovers | similarity_engine.py:269-271 | a valid goal state matches every id exactly once, and its f cost is minus its total |
| AStar.PathValid | similarity_engine.py:230-267 | following any perfect matching from the start state, every state on the way is valid and loses two unmatched students per step |
| AStar.PathCost | similarity_engine.py:204-228 | along that path, f never exceeds minus the matching's total (the heuristic never underestimates what is left) |
| AStar.SearchStart | similarity_engine.py:288-303 | the start of the loop satisfies the search invariant |
| AStar.SearchSkip | similarity_engine.py:316-318 | skipping a state whose key is closed keeps the invariant |
| AStar.SearchExpand | similarity_engine.py:320-327 | closing a state and pushing its successors that are not closed keeps the invariant |
| AStar.SearchFound | similarity_engine.py:309-314 | the first goal popped with least f covers every id exactly once, and its total is at least that of every perfect matching |
| AStar.SearchExhausted | similarity_engine.py:329-330 | if the frontier runs empty, the ids have no perfect matching |
| AStar.LeastCostExists | similarity_engine.py:308 | a non-empty frontier has a state of least f cost |
| Matcher.AStarMatcher.constructor | similarity_engine.py:175-179 | a new matcher has no best solution and has explored no nodes |
| Matcher.AStarMatcher.CalculateHeuristic | similarity_engine.py:204-228 | the loop computes minus half the sum of every unmatched student's best score |
| Matcher.AStarMatcher.BestPartnerScore | similarity_engine.py:215-220 | the inner loop computes the student's best score among the other unmatched students |
| Matcher.AStarMatcher.UnmatchedList | similarity_engine.py:233-239 | the list holds every unmatched id exactly once, with the anchor first |
| Matcher.AStarMatcher.Successor | similarity_engine.py:242-265 | the loop body builds the successor that pairs the anchor with this partner, using the table entry or `(0.0, [])` for a missing key |
| Matcher.AStarMatcher.PairWithEach | similarity_engine.py:239-265 | one successor per partner, in the list's order |
| Matcher.AStarMatcher.GenerateSuccessors | similarity_engine.py:230-267 | no successors with fewer than two unmatched students; otherwise exactly one per other unmatched student, each pairing it with the anchor |
| Matcher.AStarMatcher.PushSuccessors | similarity_engine.py:325-327 | the frontier gains exactly the successors whose key is not closed |
| Matcher.AStarMatcher.AStarSearch | similarity_engine.py:273-330 | a found result is stored as the best solution, is a goal, and is an optimal perfect matching of the ids, with each pair scored from the table; an empty frontier returns `[]` and means no perfect matching exists; at most `maxNodes` states are popped |
| Matcher.AStarMatcher.MatchStudents | similarity_engine.py:332-371 | fewer than two students give no matches, zero statistics, zero nodes and every id unmatched; an odd count leaves exactly the last student out and reports it; the total is the sum of pair scores and the average is total / #pairs (0 with no pairs); the matches are optimal for the students kept; with distinct ids, an empty result means the node budget ran out |
| Matcher.DroppedStudentUnscored | similarity_engine.py:353-359 | three students with sleep values 7, 0, 7 meet the requirement of `MatchStudents`, although the dropped third shares the unlabelled value 7 with the first |
| Matcher.UnvisitedSpec | similarity_engine.py:325-327 | every successor is pushed or already closed, and only unclosed successors are pushed |
| Matcher.ChildrenCover | similarity_engine.py:238-265 | pairing the anchor with each other unmatched student yields exactly the successors |
| Matcher.SuccessorsValid | similarity_engine.py:242-265 | the successors of a valid state are valid |
| Matcher.ExpandStep | similarity_engine.py:320-327 | one expansion of the loop keeps the search invariant |
| Matcher.IdSetSize | similarity_engine.py:289 | with distinct ids, there are as many ids as students |
| Matcher.KeptPerfect | similarity_engine.py:352-356 | with distinct ids, the even set of students handed to the search can be paired up |
| PyHash.SourceHashableIff | similarity_engine.py:200-202 | hashing a state succeeds exactly when it holds no pair |
| PyHash.FirstExpansionRaises | similarity_engine.py:317-326 | with two or more students, the start state hashes, but every successor of it, and there is at least one, fails to hash |

## Left out

- The Flask application (app.py), the database models beyond the two conversions, persistence of matches, and configuration loading. They are I/O around the core.
- `round(..., 2)` on the score and on the statistics (similarity_engine.py:97, 367-368): scores are exact reals, with no floating point.
- Python's Unicode-aware `strip()` and `lower()`: only ASCII whitespace and ASCII upper case are modelled.
- The order of Python sets. It is replaced by the smallest-id anchor, order-independent specifications of the heuristic loops, and the shared hobbies in first-occurrence order of the first student's list.
- `heapq` tie-breaking between states of equal f cost: any least-cost state may be popped.
- The `KeyError` that `generate_match_reasons` raises for an unlabelled attribute value: callers require `LabelsDefined` of every pair that is scored (for `MatchStudents`, the pairs among the students kept).
- Repeated student ids: with repeated ids the later pair overwrites the table entry, and `TableEntries` and the statement about empty results require distinct ids.
- Matcher.AStarMatcher.AStarSearch: the node count is stated only as bounded (at most `maxNodes`, equal to it when the budget runs out), not as the exact number of pops. The budget itself is a modelling device, because the source's loop has none.
- Matcher.AStarMatcher.AStarSearch: uses `Key` for the closed set. The source's hashing of whole states is modelled separately in `PyHash`.
- Matcher.AStarMatcher.MatchStudents: the score bound on matches (0 to 100 per pair) is stated per pair in `Similarity`, not restated for the result.

## Findings

| source | as written | input that shows it | evidently intended | confidence | as-written member | corrected member |
|---|---|---|---|---|---|---|
| similarity_engine.py:200-202 | `__hash__` builds `frozenset(self.matched_pairs)`, whose elements are tuples `(id1, id2, score, reasons)` with `reasons` a list, so hashing any state with a pair raises `TypeError: unhashable type: 'list'`; the test `successor not in closed_set` (line 326) does so for the first successor | any two students, e.g. ids 1 and 2: the start state is closed, its one successor holds the pair `(1, 2, score, reasons)` and the membership test raises | identify a state by its matched id pairs and its unmatched set, which for reachable states determines the whole state | not executed | PyHash.FirstExpansionRaises | Matching.ValidKeyInjective |
