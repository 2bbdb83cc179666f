# Dispersed city selection

A Dafny model of the two selection algorithms in `src/city_selector.py`.

- `select_dispersed_cities` validates a city table, drops rows without coordinates and lowers the target to the number of rows left. It runs a greedy max-min ("farthest point") loop over the coordinates, reads the picked positions out of the population-sorted table, and hands that selection to the repair.
- `post_process_city_selection` is a local-repair loop. Each round:
  - finds the first closest pair;
  - if that pair is closer than the floor `min_distance_km`, picks its less populous member as the removal target;
  - searches the candidate table for the non-excluded city farthest from the remaining members;
  - swaps that city in only when it beats the violating distance.

Files:

- `wrappers.dfy`: `Option` and `Result`.
- `cities.dfy` (module `Cities`): city records, table entries and error kinds. Also the distance, given as a function parameter, and the minimum distance from a point to a sequence of points.
- `greedy.dfy` (module `Greedy`): the greedy loop, working on positions into a point sequence.
- `repair.dfy` (module `Repair`): the repair loop. The selection is an `array` that is overwritten slot by slot. The exclusion set is an explicit `set` of labels. The loop's run is a ghost trace of states (selection and exclusion set), each obtained from the one before by the swap that round decides.
- `city_selector.dfy` (module `CitySelector`): the whole pipeline.

The model keeps two behaviours of the code as written:

- **Greedy positions.** The greedy loop scores positions in the coordinate array, which is built before the population sort. The cities are then read at those positions from the sorted table. So the first selected city is the most populous one, but the greedy measured distances from the coordinates of the first valid row in table order. The greedy's guarantees are stated about positions in the unsorted coordinate sequence.
- **Exclusion set.** The exclusion set starts as the selection's own labels `0..k-1`, because the pipeline resets the index before calling the repair. A swap removes the replaced slot's label and adds the newcomer's label from the candidate table, and nothing else changes the set. Two consequences follow:
  - Candidates whose table label is in the current set (initially `0..k-1`) are skipped.
  - A swap raises `KeyError` at `set.remove` when its target slot's label is not in the set: an earlier swap at that slot removed it, and no newcomer with that table label has added it back. This is modelled as the error `LabelNotInSet`. The slot has already been overwritten when the error is raised, as in the source.

Other edge cases the model follows:

- When there are no valid rows, the greedy still returns `[0]` and the row lookup fails. This is the error `PositionOutOfBounds`.
- A target of at most one still yields one city.
- The best-candidate search starts its running best at 0 and accepts only strictly larger scores. So a pool whose eligible candidates all score 0 yields no replacement.

The `while improvements_made` loop of the repair has no bound in the source. The model proves that it terminates whenever the distance is symmetric, using a lexicographic measure:

- whether another round is due;
- how far the minimum pairwise distance falls short of the floor;
- how many pairs sit at that minimum.

Every swap keeps the minimum pairwise distance from dropping. It either raises that distance or lowers the number of pairs at it (`Repair.SwapMakesProgress`).

## Model

| member | source | states |
|---|---|---|
| Cities.MinDistTo | src/city_selector.py:204-212 | the minimum distance from a point to the picked points is at most each such distance and equals one of them |
| Greedy.FirstArgMax | src/city_selector.py:215 | `np.argmax`: the result position holds a largest value and every earlier position holds a strictly smaller one |
| Greedy.SomePositionUnpicked | src/city_selector.py:194-202 | while fewer than n positions are picked, some position below n is still unpicked, so the -1 sentinel never wins |
| Greedy.FarthestPickIsUnique | src/city_selector.py:199-216 | the pick rule (largest minimum distance, first on ties) determines the pick uniquely |
| Greedy.NextPick | src/city_selector.py:195-216 | one round returns an unpicked position whose minimum distance to the picks is largest, the lowest such position on ties |
| Greedy.SelectPositions | src/city_selector.py:191-216 | the list holds max(n, 1) pairwise distinct positions, starts with 0, and each later entry is the farthest pick given the entries before it |
| CitySelector.DropMissing | src/city_selector.py:179 | exactly the rows with both coordinates are kept, and the result is no longer than the table |
| CitySelector.DropMissingAppend | src/city_selector.py:179 | the filter keeps row order: filtering a concatenation is the concatenation of the filtered parts, so together with the one-row case the kept rows are the rows with coordinates in table order, each once |
| CitySelector.RowsAt | src/city_selector.py:219 | the selection holds, slot by slot, the records of the sorted table at the picked positions |
| CitySelector.GreedyPhase | src/city_selector.py:182-216 | the target is lowered to the number of valid rows, and the greedy guarantees hold for the coordinates of the valid rows in their unsorted order |
| CitySelector.RepairPhase | src/city_selector.py:219-226 | the selection handed to the repair is the sorted table read at the picked positions; the repair's run starts from it with the labels 0..k-1, and its outcome (last state, or the swap whose label removal fails) is returned with cities drawn from the sorted table |
| CitySelector.SelectDispersedCities | src/city_selector.py:160-226 | a missing coordinate column is exactly the first error; the row lookup fails exactly when no valid row is left; on success or `LabelNotInSet` the greedy's max(min(n, valid), 1) positions are farthest picks and the initial selection is the sorted table read at them; on success the result has that many cities drawn from the sorted table, and the repair's run from that selection with the labels 0..k-1 ends in the result, which respects the floor or is stalled under that run's exclusion set, or in the swap whose label removal raises the error; a selection that already respects the floor is returned unchanged and the minimum pairwise distance never drops |
| Repair.MinPairDist | src/city_selector.py:84-102 | the minimum pairwise distance is at most the distance of every pair i < j and equals that of one of them |
| Repair.ClosestPair | src/city_selector.py:84-102 | no pair exactly when there are fewer than two members; otherwise a closest pair i < j that is strictly closer than every pair before it in row-major order |
| Repair.FirstClosestPairIsUnique | src/city_selector.py:89-102 | the strict comparison makes the scan's pair unique |
| Repair.CandidateScoreBelowDistances | src/city_selector.py:126-136 | a candidate's score is at most its distance to every member other than the removal target |
| Repair.CandidateScoreIsMinimum | src/city_selector.py:126-136 | a distance to some other member that is at most all of them is the candidate's score |
| Repair.ScoreCandidate | src/city_selector.py:126-136 | the running minimum over the members other than the target is the candidate's score |
| Repair.BestReplacement | src/city_selector.py:118-142 | when no candidate is found, every non-excluded candidate scores 0; otherwise the non-excluded candidate with the highest positive score, the first on ties |
| Repair.BestCandidateIsUnique | src/city_selector.py:122-142 | the strict comparison makes the search's pick unique |
| Repair.Decide | src/city_selector.py:84-145 | converged exactly when there are fewer than two members or the minimum pairwise distance reaches the floor; otherwise the first closest pair violates the floor and the target is its first member if strictly less populous, else its second; a swap has the best candidate with a score above the violating distance, so that candidate is farther than the violating distance from every other member; a stall means no candidate scores above it |
| Repair.SwapKeepsPairsApart | src/city_selector.py:145-147 | after the swap every pair is still at least the old minimum apart, and any pair at that minimum avoids the replaced slot |
| Repair.FewerClosePairs | src/city_selector.py:145-147 | losing the swapped closest pair, and gaining none, leaves strictly fewer pairs at the minimum |
| Repair.SwapSpreadsPairs | src/city_selector.py:145-147 | the swap does not lower the minimum pairwise distance and lowers the number of pairs at it |
| Repair.SwapMakesProgress | src/city_selector.py:80-150 | a swap lowers the repair loop's termination measure |
| Repair.ViolationSwapImproves | src/city_selector.py:105-150 | replacing the target of the first closest pair that violates the floor by a city farther than the violating distance from every other member keeps the length, does not lower the minimum pairwise distance, lowers the termination measure and keeps distinct points distinct |
| Repair.SwapKeepsPointsDistinct | src/city_selector.py:145-147 | if the distance is zero between equal points, the swap keeps all members at distinct points |
| Repair.SwapKeepsDrawn | src/city_selector.py:147 | after the swap every slot still holds its original record or a record of the candidate table |
| Repair.SlotLabels | src/city_selector.py:72 | the exclusion set starts as exactly the labels 0..k-1 of the reset selection |
| Repair.SwapDecisionRulesOutStop | src/city_selector.py:84-145 | a round that decides on a swap (first closest pair under the floor, population-chosen target, best candidate scoring above the violating distance) is neither converged nor stalled |
| Repair.RunExtends | src/city_selector.py:80-150 | appending one decided swap round to a run yields a run that starts from the same state |
| Repair.SwapRoundImproves | src/city_selector.py:105-150 | a decided swap round replaces only the target's slot by the best candidate and improves the selection: same length, minimum pairwise distance not lower, termination measure lower, distinct points kept |
| Repair.RunKeepsLength | src/city_selector.py:80-150 | every state of a run has as many cities as the first |
| Repair.RunStaysDrawn | src/city_selector.py:80-150 | every slot of every state of a run holds its first record or a record of the candidate table |
| Repair.RunNeverCloser | src/city_selector.py:80-150 | no state of a run has a smaller minimum pairwise distance than the first |
| Repair.RunKeepsDistinct | src/city_selector.py:80-150 | with zero distance between equal points, a run that starts with distinct points keeps them distinct |
| Repair.RunEnd | src/city_selector.py:80-157 | the last state of a run keeps the first state's length, is drawn from it and the candidate table, is no closer together, and keeps distinct points distinct |
| Repair.RepairRound | src/city_selector.py:81-155 | one pass either stops (converged), keeps the selection (stalled), or performs exactly the decided swap: the first closest pair under the floor, its population-chosen target, and the best non-excluded candidate scoring above the violating distance replaces the target's slot while the exclusion set trades the target's label for the newcomer's; it fails exactly on that decided swap when the target's label is no longer in the set, after the target's slot has been overwritten and with the set unchanged; a stop or a keep leaves both the selection and the set as they were |
| Repair.RunRounds | src/city_selector.py:71-155 | the loop produces a run of decided swap rounds from the selection with the labels 0..k-1; it ends with the array holding the last state, converged or stalled under that state's exclusion set, or on the decided swap whose label removal fails; an already converged selection is left unchanged with no rounds |
| Repair.Repair | src/city_selector.py:68-158 | the loop terminates and its run of decided swap rounds starts from the selection with the labels 0..k-1; on success the result is the run's last state, converged or stalled under that state's exclusion set, keeps its length, holds only original or candidate records, never has a smaller minimum pairwise distance, and is unchanged when already converged; the only error is `LabelNotInSet` for the target of the decided swap in the last state, whose label the exclusion set no longer holds |

## Left out

- `load_city_data` (src/city_selector.py:16-36) reads a CSV file. This is file I/O, and its population filter belongs to that reading.
- The haversine formula is floating-point trigonometry, and the code also calls a library for it. This covers both the local function and the vectorised call with its radian and earth-radius scaling. The distance is a parameter `(Point, Point) -> nat`, and the properties the proofs need are preconditions: symmetry for the repair's progress, and zero distance between equal points for keeping points distinct. Distances are whole numbers, so the `-1` sentinel, the starting best of 0 and the strict comparisons carry over exactly, but rounding does not.
- The logging calls only write messages, provided the table has a `city` column. The messages at src/city_selector.py:106, :115 and :146 read `['city']` while they are formatted, which happens whatever the log level.
- Tables without a `population` column or without a `city` column are not modelled: every row carries a population and a name. The source raises `KeyError` for them, at the sort (src/city_selector.py:190) when `population` is missing, and at the first violation's log message (src/city_selector.py:106) when `city` is missing. Only the `lat` and `lng` columns are checked by the model.
- The default arguments (`n_cities=200` and `min_distance_km=500` at src/city_selector.py:160, `min_distance_km=500` at src/city_selector.py:38) are not modelled: the model always takes both values explicitly.
- The pandas mechanics (`copy`, `iterrows`, `loc`, `iloc`, `reset_index`, `dropna`) become sequences of records and an array indexed by slot. The infinite starting minima are `Option` values, or a scan that starts with nothing found.
- The population sort is a library call, and its order among equal populations is not fixed. Its result is the parameter `sorted`, required to be a permutation of the valid rows in non-increasing population order.
- Repair.Repair: only selections whose index labels are their slot numbers 0..k-1 are modelled. The source's `i >= j` test (src/city_selector.py:91) and its exclusion set compare index labels, and its only caller resets the index (src/city_selector.py:219) before the call, so other labellings do not arise in this program.
- One distance parameter stands for both haversine implementations: the vectorised library call in the greedy (src/city_selector.py:206) and the local function in the repair (src/city_selector.py:52-66). The model treats them as the same function.
- Repair.Repair: on a `KeyError` the partly updated selection is discarded with the error, as the exception discards it in the source.
- Termination of the repair loop is proved only for a symmetric distance. For an arbitrary distance function the loop is not shown to stop.
