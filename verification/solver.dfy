/** The solver object: its initial tour, the restarts of the 2-opt search, the
    choice of the best restart, and the accessors for the result.

    Randomness is a parameter: wherever the solver shuffles the locations, the
    model receives the shuffled list, which must be a permutation of
    `1 .. num - 2` as a shuffle of `range(1, num - 1)` is.
 */
module Solver {
  import opened Tours
  import opened TwoOpt

  /** The two exceptions the modelled code can raise. */
  datatype Error = KeyError | ValueError

  datatype Result<T> = Ok(value: T) | Err(error: Error)

  datatype Option<T> = None | Some(value: T)

  /** The state of a solver. `iteratedDists` and `iteratedSequences` hold the
      final cost and tour of every restart; `bestIteratedSequences` and
      `bestIteratedDist` hold every candidate (tour and cost) evaluated by the
      winning restart. */
  datatype Solver = Solver(
    table: Matrix,
    num: int,
    init: Tour,
    sequence: Tour,
    dist: nat,
    iteratedDists: seq<nat>,
    iteratedSequences: seq<Tour>,
    bestIteratedSequences: seq<Tour>,
    bestIteratedDist: seq<nat>)

  /** What every solver satisfies: a square table, `num` one more than the
      number of locations, and an initial tour at least `num` long (`set_init`
      only ever stores tours of length `num` or `num + 2`). */
  predicate Consistent(s: Solver)
  {
    IsSquare(s.table) && s.num == |s.table| + 1 && |s.init| >= s.num
  }

  /** No restart has been run on the solver yet. */
  predicate Fresh(s: Solver)
  {
    s.iteratedDists == [] && s.iteratedSequences == []
  }

  // ---------------------------------------------------------------------------
  // Construction and the initial tour

  /** A new solver over `table`, with a random initial tour built from `shuffle`. */
  function NewSolver(table: Matrix, shuffle: seq<int>): (s: Solver)
    requires IsSquare(table)
    requires IsShuffle(shuffle, |table| + 1)
    ensures Consistent(s) && Fresh(s)
    ensures s.num == |table| + 1 && s.table == table
    ensures |table| >= 1 ==> ValidTour(s.init, s.num) && s.init[1..s.num - 1] == shuffle
  {
    ShuffleMeans(shuffle, |table| + 1);
    if |table| >= 1 then WrapShuffle(shuffle, |table| + 1); Build(table, shuffle)
    else Build(table, shuffle)
  }

  function Build(table: Matrix, shuffle: seq<int>): Solver
  {
    Solver(table, |table| + 1, [0] + shuffle + [0], [], 0, [], [], [], [])
  }

  /** `set_init` as written. A random tour is chosen when `rand` is set or no
      list is given; otherwise the list is accepted when its length equals
      `num` and is wrapped in the depot without further checks. Only the
      initial tour changes. */
  function SetInit(s: Solver, rand: bool, initList: Option<seq<int>>, shuffle: seq<int>): (r: Result<Solver>)
    requires Consistent(s)
    requires IsShuffle(shuffle, s.num)
    ensures r.Err? <==> !rand && initList.Some? && |initList.value| != s.num
    ensures r.Err? ==> r.error == ValueError
    ensures r.Ok? ==> Consistent(r.value) && r.value.(init := s.init) == s
    ensures r.Ok? ==> r.value.init[0] == 0 && r.value.init[|r.value.init| - 1] == 0
  {
    ShuffleMeans(shuffle, s.num);
    if rand || initList.None? then Ok(s.(init := [0] + shuffle + [0]))
    else if |initList.value| == s.num then Ok(s.(init := [0] + initList.value + [0]))
    else Err(ValueError)
  }

  /** In random mode the new initial tour is a depot-anchored permutation whose
      interior is the shuffle. */
  lemma SetInitRandom(s: Solver, rand: bool, initList: Option<seq<int>>, shuffle: seq<int>)
    requires Consistent(s) && IsShuffle(shuffle, s.num) && s.num >= 2
    requires rand || initList.None?
    ensures SetInit(s, rand, initList, shuffle).Ok?
    ensures ValidTour(SetInit(s, rand, initList, shuffle).value.init, s.num)
    ensures SetInit(s, rand, initList, shuffle).value.init[1..s.num - 1] == shuffle
  {
    WrapShuffle(shuffle, s.num);
  }

  /** In explicit mode an accepted list is stored exactly as given, between two
      depot stops, and so the tour is two stops longer than `num`. */
  lemma SetInitExplicit(s: Solver, xs: seq<int>, shuffle: seq<int>)
    requires Consistent(s) && IsShuffle(shuffle, s.num)
    requires |xs| == s.num
    ensures SetInit(s, false, Some(xs), shuffle) == Ok(s.(init := [0] + xs + [0]))
    ensures |SetInit(s, false, Some(xs), shuffle).value.init| == s.num + 2
  {
  }

  /** The explicit branch never yields a valid tour: a permutation of the
      locations (what a caller means to pass) is refused, and every list that
      is accepted gives a tour of the wrong length. */
  lemma SetInitExplicitMismatch(s: Solver, xs: seq<int>, shuffle: seq<int>)
    requires Consistent(s) && IsShuffle(shuffle, s.num) && s.num >= 2
    ensures IsShuffle(xs, s.num) ==> SetInit(s, false, Some(xs), shuffle) == Err(ValueError)
    ensures SetInit(s, false, Some(xs), shuffle).Ok? ==> !ValidTour(SetInit(s, false, Some(xs), shuffle).value.init, s.num)
  {
    if IsShuffle(xs, s.num) {
      ShuffleMeans(xs, s.num);
    }
  }

  /** The smallest instance of the mismatch: three locations, so `num` is 4.
      The permutation `[1, 2]` is refused and `[1, 2, 1, 2]` is accepted. */
  lemma SetInitExplicitExample(shuffle: seq<int>)
    requires IsShuffle(shuffle, 4)
    ensures var s := NewSolver([[0, 1, 2], [1, 0, 3], [2, 3, 0]], shuffle);
      && SetInit(s, false, Some([1, 2]), shuffle) == Err(ValueError)
      && SetInit(s, false, Some([1, 2, 1, 2]), shuffle).Ok?
      && SetInit(s, false, Some([1, 2, 1, 2]), shuffle).value.init == [0, 1, 2, 1, 2, 0]
  {
    var s := NewSolver([[0, 1, 2], [1, 0, 3], [2, 3, 0]], shuffle);
    assert s.num == 4;
    assert [0] + [1, 2, 1, 2] + [0] == [0, 1, 2, 1, 2, 0];
  }

  /** The explicit branch as it is evidently meant: the list must be a
      permutation of `1 .. num - 2`. */
  function SetInitChecked(s: Solver, rand: bool, initList: Option<seq<int>>, shuffle: seq<int>): (r: Result<Solver>)
    requires Consistent(s)
    requires IsShuffle(shuffle, s.num)
    ensures r.Err? <==> !rand && initList.Some? && !IsShuffle(initList.value, s.num)
    ensures r.Err? ==> r.error == ValueError
    ensures r.Ok? ==> Consistent(r.value) && r.value.(init := s.init) == s
  {
    ShuffleMeans(shuffle, s.num);
    if rand || initList.None? then Ok(s.(init := [0] + shuffle + [0]))
    else if IsShuffle(initList.value, s.num) then
      ShuffleMeans(initList.value, s.num);
      Ok(s.(init := [0] + initList.value + [0]))
    else Err(ValueError)
  }

  /** With the corrected check every accepted initial tour is valid, and an
      explicit list is accepted exactly when it is a permutation; its tour is
      then the list between two depot stops. */
  lemma SetInitCheckedValid(s: Solver, rand: bool, initList: Option<seq<int>>, shuffle: seq<int>)
    requires Consistent(s) && IsShuffle(shuffle, s.num) && s.num >= 2
    ensures SetInitChecked(s, rand, initList, shuffle).Ok? ==>
      ValidTour(SetInitChecked(s, rand, initList, shuffle).value.init, s.num)
    ensures !rand && initList.Some? && IsShuffle(initList.value, s.num) ==>
      SetInitChecked(s, rand, initList, shuffle).value.init[1..s.num - 1] == initList.value
  {
    if rand || initList.None? {
      WrapShuffle(shuffle, s.num);
    } else if IsShuffle(initList.value, s.num) {
      WrapShuffle(initList.value, s.num);
    }
  }

  // ---------------------------------------------------------------------------
  // Restarts

  /** Every shuffle handed to the solver is a permutation of `1 .. num - 2`. */
  predicate Shuffles(shuffles: seq<seq<int>>, num: int)
  {
    forall k {:trigger IsShuffle(shuffles[k], num)} :: 0 <= k < |shuffles| ==> IsShuffle(shuffles[k], num)
  }

  /** The tours the restarts start from, in order: the solver's initial tour
      for the first restart, and each shuffle between depot stops for the
      restart after the one that drew it. */
  function Starts(s: Solver, shuffles: seq<seq<int>>): (r: seq<Tour>)
    ensures |r| == |shuffles| + 1 && r[0] == s.init
    ensures forall k :: 1 <= k <= |shuffles| ==> r[k] == [0] + shuffles[k - 1] + [0]
  {
    [s.init] + seq(|shuffles|, k requires 0 <= k < |shuffles| => [0] + shuffles[k] + [0])
  }

  /** Each later starting tour is the initial tour `set_init(rand=True)` draws
      from that shuffle after the previous restart. */
  lemma StartsAreSetInit(s: Solver, shuffles: seq<seq<int>>, k: nat)
    requires Consistent(s) && Shuffles(shuffles, s.num)
    requires 1 <= k <= |shuffles|
    ensures IsShuffle(shuffles[k - 1], s.num)
    ensures Starts(s, shuffles)[k] == SetInit(s, true, None, shuffles[k - 1]).value.init
  {
    assert IsShuffle(shuffles[k - 1], s.num);
  }

  /** Every restart after the first starts from a valid tour. */
  lemma StartTourValid(s: Solver, shuffles: seq<seq<int>>, i: nat)
    requires Consistent(s) && InRange(s.table, s.init) && Shuffles(shuffles, s.num)
    requires 1 <= i <= |shuffles|
    ensures ValidTour(Starts(s, shuffles)[i], s.num)
    ensures InRange(s.table, Starts(s, shuffles)[i])
  {
    var t := [0] + shuffles[i - 1] + [0];
    assert Starts(s, shuffles)[i] == t;
    assert 0 <= s.init[0] < |s.table|;
    assert IsShuffle(shuffles[i - 1], s.num);
    WrapShuffle(shuffles[i - 1], s.num);
    ValidTourInRange(s.table, t, s.num);
  }

  /** The setting a list of restarts runs in: a square table, starting tours
      that can be costed and are long enough to sweep, and a non-negative
      threshold. */
  predicate Runnable(m: Matrix, num: int, thresh: real, starts: seq<Tour>)
  {
    && IsSquare(m)
    && thresh >= 0.0
    && forall k :: 0 <= k < |starts| ==> InRange(m, starts[k]) && |starts[k]| >= num - 1
  }

  /** The starting tours of a solver whose initial tour can be costed are runnable. */
  lemma StartsRunnable(s: Solver, thresh: real, shuffles: seq<seq<int>>)
    requires Consistent(s) && InRange(s.table, s.init) && Shuffles(shuffles, s.num) && thresh >= 0.0
    ensures Runnable(s.table, s.num, thresh, Starts(s, shuffles))
  {
    var starts := Starts(s, shuffles);
    forall k | 0 <= k < |starts|
      ensures InRange(s.table, starts[k]) && |starts[k]| >= s.num - 1
    {
      if k >= 1 {
        StartTourValid(s, shuffles, k);
      }
    }
  }

  /** The outcome of restart `i`. */
  function Restart(m: Matrix, num: int, thresh: real, starts: seq<Tour>, i: nat): Search
    requires Runnable(m, num, thresh, starts) && i < |starts|
  {
    TwoOptRun(m, starts[i], num, thresh)
  }

  /** The outcomes of the first `n` restarts, in order. */
  function Outcomes(m: Matrix, num: int, thresh: real, starts: seq<Tour>, n: nat): (r: seq<Search>)
    requires Runnable(m, num, thresh, starts) && n <= |starts|
    ensures |r| == n
  {
    if n == 0 then [] else Outcomes(m, num, thresh, starts, n - 1) + [Restart(m, num, thresh, starts, n - 1)]
  }

  /** Entry `i` of the outcomes is the outcome of restart `i`. */
  lemma {:induction false} OutcomeAt(m: Matrix, num: int, thresh: real, starts: seq<Tour>, n: nat, i: nat)
    requires Runnable(m, num, thresh, starts) && i < n <= |starts|
    ensures Outcomes(m, num, thresh, starts, n)[i] == Restart(m, num, thresh, starts, i)
    decreases n
  {
    var prev := Outcomes(m, num, thresh, starts, n - 1);
    var last := Restart(m, num, thresh, starts, n - 1);
    assert Outcomes(m, num, thresh, starts, n) == prev + [last];
    if i < n - 1 {
      assert (prev + [last])[i] == prev[i];
      OutcomeAt(m, num, thresh, starts, n - 1, i);
    }
  }

  // ---------------------------------------------------------------------------
  // Choosing the best restart

  /** The minimum of a non-empty list. */
  function MinOf(xs: seq<nat>): (r: nat)
    requires |xs| > 0
    ensures r in xs
    ensures forall i :: 0 <= i < |xs| ==> r <= xs[i]
  {
    if |xs| == 1 then xs[0]
    else
      var rest := MinOf(xs[1..]);
      assert forall i :: 1 <= i < |xs| ==> xs[i] == xs[1..][i - 1];
      if xs[0] <= rest then xs[0] else rest
  }

  /** The first position of `v` in `xs`. */
  function FirstIndexOf(xs: seq<nat>, v: nat): (r: nat)
    requires v in xs
    ensures r < |xs| && xs[r] == v
    ensures forall j :: 0 <= j < r ==> xs[j] != v
  {
    if xs[0] == v then 0
    else
      assert v in xs[1..] by {
        var k :| 0 <= k < |xs| && xs[k] == v;
        assert xs[1..][k - 1] == v;
      }
      1 + FirstIndexOf(xs[1..], v)
  }

  function FinalCosts(runs: seq<Search>): (r: seq<nat>)
    ensures |r| == |runs| && forall i :: 0 <= i < |runs| ==> r[i] == runs[i].dist
  {
    seq(|runs|, i requires 0 <= i < |runs| => runs[i].dist)
  }

  function FinalTours(runs: seq<Search>): (r: seq<Tour>)
    ensures |r| == |runs| && forall i :: 0 <= i < |runs| ==> r[i] == runs[i].tour
  {
    seq(|runs|, i requires 0 <= i < |runs| => runs[i].tour)
  }

  function CandidateTours(trajectory: seq<Candidate>): (r: seq<Tour>)
    ensures |r| == |trajectory| && forall i :: 0 <= i < |trajectory| ==> r[i] == trajectory[i].tour
  {
    seq(|trajectory|, i requires 0 <= i < |trajectory| => trajectory[i].tour)
  }

  function CandidateCosts(trajectory: seq<Candidate>): (r: seq<nat>)
    ensures |r| == |trajectory| && forall i :: 0 <= i < |trajectory| ==> r[i] == trajectory[i].cost
  {
    seq(|trajectory|, i requires 0 <= i < |trajectory| => trajectory[i].cost)
  }

  /** The restart `solve_opt2` reports: the first one whose final cost is the
      minimum of all final costs. */
  function BestIndex(runs: seq<Search>): (k: nat)
    requires |runs| > 0
    ensures k < |runs|
    ensures forall i :: 0 <= i < |runs| ==> runs[k].dist <= runs[i].dist
    ensures forall j :: 0 <= j < k ==> runs[j].dist > runs[k].dist
  {
    var dists := FinalCosts(runs);
    FirstIndexOf(dists, MinOf(dists))
  }

  /** The solver after its restarts: the final cost and tour of every restart
      are recorded, the best restart supplies the reported tour, cost and
      candidates, and the initial tour is the last shuffle drawn. */
  function Finish(s: Solver, runs: seq<Search>, last: seq<int>): (r: Solver)
    requires |runs| > 0
    ensures r.table == s.table && r.num == s.num && r.init == [0] + last + [0]
    ensures |r.iteratedDists| == |runs| && |r.iteratedSequences| == |runs|
    ensures forall i :: 0 <= i < |runs| ==> r.iteratedDists[i] == runs[i].dist && r.iteratedSequences[i] == runs[i].tour
    ensures forall i :: 0 <= i < |runs| ==> r.dist <= r.iteratedDists[i]
    ensures var k := BestIndex(runs);
      && r.dist == runs[k].dist && r.sequence == runs[k].tour
      && (forall j :: 0 <= j < k ==> r.iteratedDists[j] > r.dist)
  {
    var best := runs[BestIndex(runs)];
    Solver(s.table, s.num, [0] + last + [0], best.tour, best.dist, FinalCosts(runs), FinalTours(runs),
           CandidateTours(best.trajectory), CandidateCosts(best.trajectory))
  }

  /** `solve_opt2` on a fresh solver. The initial tour is costed first, which
      raises `KeyError` when it names a location outside the table; with no
      restart at all, taking the minimum of the empty list raises `ValueError`.
      `shuffles` holds the one shuffle drawn after each restart. `after` is
      the solver once the call returns or raises: the tour is set to the
      initial tour before it is costed, and its cost is stored before the
      minimum is taken. */
  method SolveOpt2(s: Solver, thresh: real, iterations: int, shuffles: seq<seq<int>>)
    returns (r: Result<Solver>, after: Solver)
    requires Consistent(s) && Fresh(s)
    requires thresh >= 0.0
    requires |shuffles| == (if iterations > 0 then iterations else 0)
    requires Shuffles(shuffles, s.num)
    ensures !InRange(s.table, s.init) ==> r == Err(KeyError)
    ensures InRange(s.table, s.init) && iterations <= 0 ==> r == Err(ValueError)
    ensures InRange(s.table, s.init) && iterations > 0 ==>
      r == Ok(Solved(s, thresh, iterations, shuffles))
    ensures r.Ok? ==> after == r.value
    ensures !InRange(s.table, s.init) ==> after == s.(sequence := s.init)
    ensures InRange(s.table, s.init) && iterations <= 0 ==>
      after == s.(sequence := s.init, dist := Cost(s.table, s.init))
  {
    after := s.(sequence := s.init);
    if !InRange(s.table, s.init) {
      return Err(KeyError), after;
    }
    after := after.(dist := Cost(s.table, s.init));
    var starts := Starts(s, shuffles);
    StartsRunnable(s, thresh, shuffles);
    var runs: seq<Search> := [];
    var it := 0;
    while it < iterations
      invariant 0 <= it <= |shuffles|
      invariant it <= iterations || it == 0
      invariant runs == Outcomes(s.table, s.num, thresh, starts, it)
    {
      var run := RunRestart(s.table, s.num, thresh, starts, it);
      runs := runs + [run];
      it := it + 1;
    }
    if |runs| == 0 {
      return Err(ValueError), after;
    }
    after := Finish(s, runs, shuffles[|runs| - 1]);
    r := Ok(after);
  }

  /** One restart, run by the `while` loop of the 2-opt search. */
  method RunRestart(m: Matrix, num: int, thresh: real, starts: seq<Tour>, i: nat) returns (run: Search)
    requires Runnable(m, num, thresh, starts) && i < |starts|
    ensures run == Restart(m, num, thresh, starts, i)
  {
    var sweeps;
    run, sweeps := RunTwoOpt(m, starts[i], num, thresh);
  }

  // ---------------------------------------------------------------------------
  // Accessors

  function GetResult(s: Solver): (Tour, nat)
  {
    (s.sequence, s.dist)
  }

  function GetBestSequences(s: Solver): (seq<nat>, seq<Tour>)
  {
    (s.bestIteratedDist, s.bestIteratedSequences)
  }

  /** The setting of a successful `solve_opt2`: a consistent solver whose
      initial tour can be costed, one valid shuffle per restart, and a
      non-negative threshold. */
  predicate Ready(s: Solver, thresh: real, iterations: int, shuffles: seq<seq<int>>)
  {
    && Consistent(s) && InRange(s.table, s.init) && Shuffles(shuffles, s.num) && thresh >= 0.0
    && iterations > 0 && |shuffles| == iterations
  }

  /** The outcomes of the restarts of a successful `solve_opt2`. */
  function Runs(s: Solver, thresh: real, iterations: int, shuffles: seq<seq<int>>): (runs: seq<Search>)
    requires Ready(s, thresh, iterations, shuffles)
    ensures |runs| == iterations
  {
    StartsRunnable(s, thresh, shuffles);
    Outcomes(s.table, s.num, thresh, Starts(s, shuffles), iterations)
  }

  /** The solver a successful `solve_opt2` leaves behind. */
  function Solved(s: Solver, thresh: real, iterations: int, shuffles: seq<seq<int>>): Solver
    requires Ready(s, thresh, iterations, shuffles)
  {
    Finish(s, Runs(s, thresh, iterations, shuffles), shuffles[iterations - 1])
  }

  /** What one restart guarantees: its carried cost is the cost of its tour,
      and it is at most the cost of the starting tour and of every candidate
      the restart evaluated; a valid starting tour gives a valid final tour. */
  lemma RestartFacts(m: Matrix, num: int, thresh: real, starts: seq<Tour>, i: nat)
    requires Runnable(m, num, thresh, starts) && i < |starts|
    ensures CostsAgree(m, Restart(m, num, thresh, starts, i))
    ensures Restart(m, num, thresh, starts, i).dist <= Cost(m, starts[i])
    ensures forall j :: 0 <= j < |Restart(m, num, thresh, starts, i).trajectory| ==>
      Restart(m, num, thresh, starts, i).dist <= Restart(m, num, thresh, starts, i).trajectory[j].cost
    ensures ValidTour(starts[i], num) ==> ValidTour(Restart(m, num, thresh, starts, i).tour, num)
  {
    TwoOptRunFacts(m, starts[i], num, thresh);
  }

  /** Restart `i` of a successful `solve_opt2`, with what it guarantees. */
  lemma RunAt(s: Solver, thresh: real, iterations: int, shuffles: seq<seq<int>>, i: nat)
    requires Ready(s, thresh, iterations, shuffles) && i < iterations
    ensures Runnable(s.table, s.num, thresh, Starts(s, shuffles))
    ensures Runs(s, thresh, iterations, shuffles)[i] == Restart(s.table, s.num, thresh, Starts(s, shuffles), i)
  {
    StartsRunnable(s, thresh, shuffles);
    OutcomeAt(s.table, s.num, thresh, Starts(s, shuffles), iterations, i);
  }

  /** The accessors after a successful `solve_opt2`: one final cost and tour
      per restart; the reported tour, cost and candidate list all come from
      restart `k`, the first whose final cost is the smallest; and the
      reported cost is the true cost of the reported tour. */
  lemma SolveOpt2Best(s: Solver, thresh: real, iterations: int, shuffles: seq<seq<int>>)
    requires Ready(s, thresh, iterations, shuffles)
    ensures var runs := Runs(s, thresh, iterations, shuffles);
      var r := Solved(s, thresh, iterations, shuffles);
      var k := BestIndex(runs);
      && |r.iteratedDists| == iterations && |r.iteratedSequences| == iterations
      && (forall i :: 0 <= i < iterations ==> r.iteratedDists[i] == runs[i].dist && r.iteratedSequences[i] == runs[i].tour)
      && GetResult(r) == (runs[k].tour, runs[k].dist)
      && GetBestSequences(r) == (CandidateCosts(runs[k].trajectory), CandidateTours(runs[k].trajectory))
      && (forall i :: 0 <= i < iterations ==> GetResult(r).1 <= r.iteratedDists[i])
      && (forall j :: 0 <= j < k ==> r.iteratedDists[j] > GetResult(r).1)
      && InRange(s.table, GetResult(r).0)
      && GetResult(r).1 == Cost(s.table, GetResult(r).0)
  {
    var runs := Runs(s, thresh, iterations, shuffles);
    var k := BestIndex(runs);
    RunAt(s, thresh, iterations, shuffles, k);
    RestartFacts(s.table, s.num, thresh, Starts(s, shuffles), k);
  }

  /** The reported cost is at most the final cost of every restart, the cost
      of every starting tour, and the cost of every candidate any restart
      evaluated. */
  lemma SolveOpt2Minimal(s: Solver, thresh: real, iterations: int, shuffles: seq<seq<int>>)
    requires Ready(s, thresh, iterations, shuffles)
    ensures Runnable(s.table, s.num, thresh, Starts(s, shuffles))
    ensures var r := Solved(s, thresh, iterations, shuffles);
      var starts := Starts(s, shuffles);
      && (forall i :: 0 <= i < iterations ==> GetResult(r).1 <= Restart(s.table, s.num, thresh, starts, i).dist)
      && (forall i :: 0 <= i < iterations ==> GetResult(r).1 <= Cost(s.table, starts[i]))
      && (forall i, j :: 0 <= i < iterations && 0 <= j < |Restart(s.table, s.num, thresh, starts, i).trajectory| ==>
            GetResult(r).1 <= Restart(s.table, s.num, thresh, starts, i).trajectory[j].cost)
  {
    var r := Solved(s, thresh, iterations, shuffles);
    var starts := Starts(s, shuffles);
    StartsRunnable(s, thresh, shuffles);
    forall i | 0 <= i < iterations
      ensures GetResult(r).1 <= Restart(s.table, s.num, thresh, starts, i).dist
      ensures GetResult(r).1 <= Cost(s.table, starts[i])
      ensures forall j :: 0 <= j < |Restart(s.table, s.num, thresh, starts, i).trajectory| ==>
        GetResult(r).1 <= Restart(s.table, s.num, thresh, starts, i).trajectory[j].cost
    {
      RunAt(s, thresh, iterations, shuffles, i);
      RestartFacts(s.table, s.num, thresh, starts, i);
    }
  }

  /** A valid initial tour gives a valid reported tour: every later restart
      starts from a valid tour anyway. */
  lemma SolveOpt2Valid(s: Solver, thresh: real, iterations: int, shuffles: seq<seq<int>>)
    requires Ready(s, thresh, iterations, shuffles)
    requires ValidTour(s.init, s.num)
    ensures ValidTour(GetResult(Solved(s, thresh, iterations, shuffles)).0, s.num)
  {
    var runs := Runs(s, thresh, iterations, shuffles);
    var k := BestIndex(runs);
    RunAt(s, thresh, iterations, shuffles, k);
    RestartFacts(s.table, s.num, thresh, Starts(s, shuffles), k);
    if k >= 1 {
      StartTourValid(s, shuffles, k);
    }
  }
}
