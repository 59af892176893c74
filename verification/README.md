# 2-opt route solver — a Dafny model

This project models the 2-opt travelling-salesman solver of
`solve_coding_challenge/utils/tsp.py` (class `solvetsp`). The solver is built
over a square distance table with one row per location. Location 0 is the
depot, and `num` is the number of locations plus one. A tour is the depot,
every other location once, and the depot again, so it has `num` stops.

- **Construction and `set_init`.** The constructor draws a random initial tour.
  `set_init` either draws a random one or accepts an explicit list and wraps
  it between two depot stops.
- **`_get_fulldist`.** Tour cost is the sum of the frame lookups between
  consecutive stops.
- **One restart of 2-opt.** A sweep visits every pair `(start, stop)` with
  `1 <= start < stop <= num - 2` in lexicographic order. For each pair it
  builds the candidate with the three-slice concatenation, including Python's
  negative-step slice. It records the candidate and adopts it at once if its
  cost is strictly lower. Sweeps repeat while `1 - dist / dist_prev` exceeds
  the threshold.
- **`solve_opt2`.** It runs `iterations` restarts. The first starts from the
  solver's initial tour; each later one starts from a fresh shuffle. It then
  records the final cost and tour of every restart and reports the first
  restart whose final cost is the minimum, together with every candidate that
  restart evaluated.
- **`get_result` / `get_best_sequences`.** These return the reported tour and
  cost, and the winning restart's candidate costs and tours.

The three modules follow the program's structure:

- `Tours` (`tours.dfy`): the table, the lookup, cost, shuffles and valid tours.
- `TwoOpt` (`two_opt.dfy`): the reversal candidate, the order of a sweep, the sweep, and convergence.
- `Solver` (`solver.dfy`): the solver record, `set_init`, the restarts, the choice of the best restart, and the accessors.

**Randomness is a parameter.** Wherever the source calls `random.shuffle(list(range(1, num - 1)))`,
the model receives the shuffled list. That list must be a permutation of
`1 .. num - 2` (`Tours.IsShuffle`). `solve_opt2` draws one shuffle after every
restart, so `SolveOpt2` receives `iterations` shuffles. Restart `i >= 1` starts
from shuffle `i - 1`, and the last shuffle becomes the new initial tour.

**The lookup.** `dist_frame[a][b]` on a pandas frame selects column `a` and
then row `b`. The model therefore reads `m[b][a]` (`Tours.Entry`), where `m` is
the table row by row.

**Threshold edge cases.**

- **Threshold 1 or more.** The score starts at `1` and the loop test is strict
  (`score > scorethresh`). So with a threshold of 1 or more no sweep runs at
  all (`TwoOpt.TwoOptNoSweep`, `TwoOpt.RunTwoOpt`).
- **Threshold 0.** Sweeps go on as long as each one strictly lowers the cost
  (`TwoOpt.KeepGoingIsScore`).

## Model

| member | source | states |
|---|---|---|
| Tours.Range | solve_coding_challenge/utils/tsp.py:108 | `range(lo, hi)`: `hi - lo` integers (none when `hi <= lo`), the `i`-th being `lo + i` |
| Tours.ShuffleMeans | solve_coding_challenge/utils/tsp.py:107-109 | a shuffle of `range(1, num - 1)` has `num - 2` entries, all in `1 .. num - 2`, each value exactly once, pairwise distinct |
| Tours.WrapShuffle | solve_coding_challenge/utils/tsp.py:106-118 | a shuffle placed between two depot stops is a valid tour of length `num`, and its interior is the shuffle itself |
| Tours.ValidTourInRange | solve_coding_challenge/utils/tsp.py:132-134 | every stop of a valid tour names a row of the table, so costing it never fails a lookup |
| Tours.Entry | solve_coding_challenge/utils/tsp.py:134 | the frame lookup `dist_frame[a][b]`, column `a` then row `b`; the laws of the cost built from it are stated by Tours.CostAppend, Tours.CostSplit3 and Tours.CostReverse |
| Tours.Cost | solve_coding_challenge/utils/tsp.py:120-136 | the total distance of a tour, the sum of the lookups over consecutive stops; Tours.GetFullDist proves it equal to the source's loop and `sum` |
| Tours.GetFullDist | solve_coding_challenge/utils/tsp.py:132-136 | `_get_fulldist`: one leg per pair of consecutive stops (none for a tour of at most one stop), leg `i` the lookup from stop `i` to stop `i + 1`, and the total equal to `Cost` |
| Tours.CostAppend | solve_coding_challenge/utils/tsp.py:132-135 | the sum of lookups over a concatenation is the sum over each part plus the lookup joining them |
| Tours.CostSplit3 | solve_coding_challenge/utils/tsp.py:132-135 | the cost of three consecutive parts is their three costs plus the two joining lookups |
| Tours.CostReverse | solve_coding_challenge/utils/tsp.py:132-135 | over a symmetric table a tour and its reverse have the same cost |
| TwoOpt.BackBound | solve_coding_challenge/utils/tsp.py:60 | a slice bound under a negative step is normalised into `-1 .. len - 1` |
| TwoOpt.DownSlice | solve_coding_challenge/utils/tsp.py:60 | `s[hi:lo:-1]` has `hi - lo` elements, the `k`-th being `s[hi - k]` |
| TwoOpt.Reversal | solve_coding_challenge/utils/tsp.py:59-61 | the candidate has the tour's length, keeps every stop outside `start .. stop`, and mirrors the stops inside |
| TwoOpt.ReversalSplit | solve_coding_challenge/utils/tsp.py:59-61 | the candidate equals the prefix, then the reversed segment, then the suffix |
| TwoOpt.ReversalInvolution | solve_coding_challenge/utils/tsp.py:59-61 | reversing the same segment twice gives back the original tour |
| TwoOpt.ReversalInRange | solve_coding_challenge/utils/tsp.py:59-63 | a candidate holds exactly the stops of its tour, each as often (equal multisets), so it stays inside the table and can be costed |
| TwoOpt.ReversalKeepsTour | solve_coding_challenge/utils/tsp.py:56-61 | the candidate of an interior pair of a valid tour is again a valid tour |
| TwoOpt.InteriorReversal | solve_coding_challenge/utils/tsp.py:59-61 | the candidate's interior is the tour's interior with the segment reversed |
| TwoOpt.ReversalCostDelta | solve_coding_challenge/utils/tsp.py:59-63 | over a symmetric table the candidate's cost differs from the tour's only by swapping the two legs at the segment ends |
| TwoOpt.SweepPairsExact | solve_coding_challenge/utils/tsp.py:56-57 | a sweep evaluates `(start, stop)` if and only if `1 <= start < stop <= num - 2` |
| TwoOpt.SweepPairsOrdered | solve_coding_challenge/utils/tsp.py:56-57 | a sweep evaluates its pairs in strictly increasing lexicographic order |
| TwoOpt.SweepPairsCount | solve_coding_challenge/utils/tsp.py:56-57 | one sweep evaluates `(num - 2)(num - 3)/2` candidates, none when `num <= 3` |
| TwoOpt.SweepPairsFit | solve_coding_challenge/utils/tsp.py:56-61 | every pair of a sweep is an interior segment of any tour with at least `num - 1` stops |
| TwoOpt.Step | solve_coding_challenge/utils/tsp.py:59-71 | the body of the inner loop for one pair: build the candidate, cost it, record it, adopt it when strictly cheaper; its contract is stated by TwoOpt.StepAdvances |
| TwoOpt.StepAdvances | solve_coding_challenge/utils/tsp.py:63-71 | evaluating one pair appends exactly one candidate; the tour changes only to a strictly cheaper candidate and otherwise keeps its tour and cost |
| TwoOpt.SweepOver | solve_coding_challenge/utils/tsp.py:56-71 | evaluating pairs keeps the tour's length and range, never raises the cost, and appends one candidate per pair after the earlier ones |
| TwoOpt.SweepKeepsCost | solve_coding_challenge/utils/tsp.py:63-71 | the carried cost stays the true cost of the carried tour, and every recorded candidate carries its own true cost |
| TwoOpt.SweepKeepsTour | solve_coding_challenge/utils/tsp.py:56-71 | from a valid tour, the tour and every recorded candidate stay valid tours |
| TwoOpt.SweepAdoptsFirstBest | solve_coding_challenge/utils/tsp.py:63-71 | strict adoption: the cost never rises; it is at most every candidate's cost; an unchanged cost means an unchanged tour; a lower one is the first recorded candidate of that cost |
| TwoOpt.AdoptsFirstBestTrans | solve_coding_challenge/utils/tsp.py:53-74 | the first-best property of two consecutive stretches of search holds for the whole stretch |
| TwoOpt.RunRow | solve_coding_challenge/utils/tsp.py:57-71 | the inner `for stop` loop evaluates exactly the next row of pairs |
| TwoOpt.RunSweep | solve_coding_challenge/utils/tsp.py:56-71 | the two nested `for` loops compute exactly one sweep over the lexicographic pair order |
| TwoOpt.KeepGoing | solve_coding_challenge/utils/tsp.py:53-74 | the test `score > scorethresh` with `score = 1 - dist / dist_prev`, failing when `dist_prev` is zero; TwoOpt.KeepGoingIsScore proves it equal to the quotient form |
| TwoOpt.KeepGoingIsScore | solve_coding_challenge/utils/tsp.py:53-74 | for a non-zero previous cost, the model's test holds if and only if `1 - cur / prev > thresh` |
| TwoOpt.KeepGoingDecreases | solve_coding_challenge/utils/tsp.py:53-74 | with a non-negative threshold another sweep runs only after a strict improvement |
| TwoOpt.Sweeps | solve_coding_challenge/utils/tsp.py:53-74 | repeated sweeps keep the tour's length and range and never raise the cost |
| TwoOpt.SweepsKeepCost | solve_coding_challenge/utils/tsp.py:53-74 | across all sweeps the carried cost stays the true cost of the tour, and so does every candidate's |
| TwoOpt.SweepsKeepTour | solve_coding_challenge/utils/tsp.py:53-74 | across all sweeps a valid starting tour yields only valid tours and candidates |
| TwoOpt.SweepsAdoptFirstBest | solve_coding_challenge/utils/tsp.py:53-74 | the first-best property holds across all sweeps of a restart, and earlier candidates are kept |
| TwoOpt.TwoOptRun | solve_coding_challenge/utils/tsp.py:50-74 | one restart: cost the start, then sweep while the score exceeds the threshold, starting from `score = 1`; stated by TwoOpt.TwoOptRunFacts, TwoOpt.TwoOptNoSweep and TwoOpt.RunTwoOpt |
| TwoOpt.TwoOptRunFacts | solve_coding_challenge/utils/tsp.py:50-74 | a restart ends with its true cost, at most its starting cost and every candidate's cost, on the first candidate of that cost (or on its start), and on a valid tour when it starts from one |
| TwoOpt.TwoOptNoSweep | solve_coding_challenge/utils/tsp.py:50-53 | with a threshold of 1 or more a restart returns its start tour and cost with no candidates |
| TwoOpt.RunTwoOpt | solve_coding_challenge/utils/tsp.py:50-74 | the `while` loop computes the restart; it records `sweeps` times the sweep size candidates; at least one sweep runs if and only if `1 > thresh` |
| TwoOpt.SweepAndScore | solve_coding_challenge/utils/tsp.py:54-74 | one pass of the loop body records one sweep's candidates, and the loop continues only after a strict cost decrease |
| Solver.NewSolver | solve_coding_challenge/utils/tsp.py:7-26 | a new solver has `num` one more than the table size, no restart results, and a valid initial tour whose interior is the shuffle |
| Solver.SetInit | solve_coding_challenge/utils/tsp.py:98-118 | `ValueError` exactly when the list is explicit and its length is not `num`; otherwise only the initial tour changes, and it starts and ends at the depot |
| Solver.SetInitRandom | solve_coding_challenge/utils/tsp.py:106-109 | in random mode the new initial tour is valid and its interior is the shuffle |
| Solver.SetInitExplicit | solve_coding_challenge/utils/tsp.py:110-118 | an accepted explicit list is stored between two depot stops, so the tour has `num + 2` stops |
| Solver.SetInitExplicitMismatch | solve_coding_challenge/utils/tsp.py:110-116 | an explicit permutation of the locations is refused, and no accepted explicit list yields a valid tour |
| Solver.SetInitExplicitExample | solve_coding_challenge/utils/tsp.py:110-116 | with three locations `[1, 2]` is refused and `[1, 2, 1, 2]` is stored as `[0, 1, 2, 1, 2, 0]` |
| Solver.SetInitChecked | solve_coding_challenge/utils/tsp.py:110-113 | corrected check: `ValueError` exactly when the explicit list is not a permutation; otherwise only the initial tour changes |
| Solver.SetInitCheckedValid | solve_coding_challenge/utils/tsp.py:106-118 | with the corrected check every initial tour is valid, and an explicit permutation becomes the tour's interior |
| Solver.StartsAreSetInit | solve_coding_challenge/utils/tsp.py:82-85 | restart `k >= 1` starts from exactly the initial tour that `set_init(rand=True)` builds from the shuffle drawn after restart `k - 1` |
| Solver.StartTourValid | solve_coding_challenge/utils/tsp.py:83-85 | every restart after the first starts from a valid tour whose stops are in the table |
| Solver.StartsRunnable | solve_coding_challenge/utils/tsp.py:41-85 | once the initial tour can be costed, every starting tour can be costed and is long enough to sweep |
| Solver.OutcomeAt | solve_coding_challenge/utils/tsp.py:49-79 | entry `i` of the recorded outcomes is the result of restart `i` |
| Solver.MinOf | solve_coding_challenge/utils/tsp.py:88 | `np.min`: an element of the list that is at most every element |
| Solver.FirstIndexOf | solve_coding_challenge/utils/tsp.py:90 | `np.where(...)[0][0]`: a position holding the value with no earlier position holding it |
| Solver.BestIndex | solve_coding_challenge/utils/tsp.py:88-90 | the chosen restart's final cost is at most every restart's, and every earlier restart's is strictly greater |
| Solver.Finish | solve_coding_challenge/utils/tsp.py:76-95 | the solver after the restarts: one final cost and tour per restart in order; the reported cost is at most every one of them, and the reported tour and cost come from the first restart reaching that minimum; the initial tour is the last shuffle between depot stops |
| Solver.SolveOpt2 | solve_coding_challenge/utils/tsp.py:28-96 | `KeyError` if the initial tour names a location outside the table, leaving `sequence` set to the initial tour; otherwise `ValueError` if there is no restart, leaving `sequence` and `dist` set to the initial tour and its cost; otherwise the solver after the restarts |
| Solver.RestartFacts | solve_coding_challenge/utils/tsp.py:49-80 | a restart's final cost is its tour's true cost, at most its starting cost and every candidate's cost; a valid start gives a valid final tour |
| Solver.GetResult | solve_coding_challenge/utils/tsp.py:138-148 | returns the reported tour and cost; what they are after `solve_opt2` is stated by Solver.SolveOpt2Best |
| Solver.GetBestSequences | solve_coding_challenge/utils/tsp.py:150-151 | returns the winning restart's candidate costs and tours; stated by Solver.SolveOpt2Best |
| Solver.SolveOpt2Best | solve_coding_challenge/utils/tsp.py:76-95 | one final cost and tour per restart in order; `get_result` and `get_best_sequences` report the first restart of minimum cost, with its candidates; the reported cost is the reported tour's true cost |
| Solver.SolveOpt2Minimal | solve_coding_challenge/utils/tsp.py:49-95 | the reported cost is at most every restart's final cost, every starting tour's cost, and every candidate any restart evaluated |
| Solver.SolveOpt2Valid | solve_coding_challenge/utils/tsp.py:83-93 | a valid initial tour gives a valid reported tour |

## Left out

- Loading the CSV, the haversine distances, plotting, the command-line entry point and packaging. They lie outside the solver class.
- Logging calls: they only write messages.
- `sequence_dists` and `sequence_dist` (lines 21, 42, 64 and 85): lists of per-leg and per-candidate distances that nothing reads back.
- Floating-point distances: the model's table holds natural numbers, and its sums and comparisons are exact.
- Randomness: every `random.shuffle` is a parameter that must be a permutation, as a real shuffle of `range(1, num - 1)` is.
- The `except ValueError` fallback at lines 91-92: once `np.min` has succeeded the list holds its minimum, so `[0][0]` cannot fail.
- TwoOpt.KeepGoing: a zero previous cost makes `0 / 0` a NaN for numpy scalars, and then the test fails and the loop stops. The model stops there too. A plain Python zero would raise `ZeroDivisionError`, which is not modelled.
- TwoOpt.Sweeps: requires a non-negative threshold. With a negative one the score test passes after every sweep that leaves the cost non-zero, so the source's `while` loop does not stop while the cost stays non-zero.
- Solver.SolveOpt2: models a solver on which `solve_opt2` has not yet run. A second call appends to the same `iterated_dists` and `iterated_sequences`, so its minimum and the index `ind` (line 90) range over both calls' restarts. The candidate lists `all_sequences` and `all_dists` (lines 46-47) are fresh locals holding only this call's restarts, so `all_sequences[ind]` and `all_dists[ind]` (lines 94-95) then belong to the wrong restart, or raise `IndexError` when `ind` is at least this call's `iterations`. The model does not track this accumulation.
- Solver.SolveOpt2: requires a non-negative threshold, for the same reason as TwoOpt.Sweeps.
- Solver.SolveOpt2: an explicit initial tour of length `num + 2` is swept only over the pairs `1 <= start < stop <= num - 2`. This is what the source does, and the model follows it; the model does not describe the longer tour further.
- `get_result` and `get_best_sequences` (lines 138-151) return fields of the solver. They are modelled as `Solver.GetResult` and `Solver.GetBestSequences`, and their contents after `solve_opt2` are stated by Solver.SolveOpt2Best.

## Findings

| source | as written | input that shows it | evidently intended | confidence | as-written member | corrected member |
|---|---|---|---|---|---|---|
| solve_coding_challenge/utils/tsp.py:110-116 | the explicit list is accepted when its length equals `num`, the length of a whole tour, and is then wrapped between two depot stops | three locations (`num` is 4): the permutation `[1, 2]` raises `ValueError`; `[1, 2, 1, 2]` is accepted and stored as `[0, 1, 2, 1, 2, 0]` | accept exactly the permutations of `1 .. num - 2`, which wrap into a valid tour | high, not executed | Solver.SetInitExplicitMismatch | Solver.SetInitCheckedValid |
